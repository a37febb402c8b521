/** entity.go: an entity that records the events raised on it, each stamped with the
    entity's next version number. */
module Entities {
  import opened Bytes

  /** An event; the payload is any value, the creation time is the clock reading taken by NewEvent. */
  datatype Event<P> = Event(name: string, payload: P, version: u64, created: int)

  /** NewEvent(name, payload): an unversioned event created at the clock reading now. */
  function NewEvent<P>(name: string, payload: P, now: int): (e: Event<P>)
    ensures e.version == 0 && e.name == name && e.payload == payload && e.created == now
  {
    Event(name, payload, 0, now)
  }

  /** The versions of a history raised on a fresh entity: the i-th event carries i + 1,
      in Go's unsigned arithmetic. */
  ghost predicate Numbered<P>(events: seq<Event<P>>)
  {
    forall i :: 0 <= i < |events| ==> events[i].version == (i + 1) % U64_MODULUS
  }

  /** Fewer than 2^64 raises never wrap, so the versions are exactly 1, 2, ..., n in order:
      strictly ascending and each one the count of events up to it. */
  lemma NumberedAscending<P>(events: seq<Event<P>>, i: int, j: int)
    requires Numbered(events) && |events| < U64_MODULUS
    requires 0 <= i < j < |events|
    ensures events[i].version == i + 1 && events[j].version == j + 1
    ensures events[i].version < events[j].version
  {
  }

  /** The event raised as number 2^64 wraps back to version 0. */
  lemma NumberedWraps<P>(events: seq<Event<P>>)
    requires Numbered(events) && |events| == U64_MODULUS
    ensures events[|events| - 1].version == 0
  {
  }

  class Entity<P> {
    var id: string
    var events: seq<Event<P>>
    var version: u64

    /** The entity's version is the number of events raised on it, and the events carry
        the versions 1, 2, ..., version. */
    ghost predicate Valid()
      reads this
    {
      Numbered(events) && version == |events| % U64_MODULUS
    }

    /** The zero Entity with the given id: no events, version 0. */
    constructor(id: string)
      ensures Valid()
      ensures this.id == id && events == [] && version == 0
    {
      this.id := id;
      events := [];
      version := 0;
    }

    /** Events(): a fresh copy of the history, same length and order; writing to it does
        not touch the entity. */
    method Events() returns (r: array<Event<P>>)
      ensures fresh(r)
      ensures r[..] == events
    {
      r := new Event<P>[|events|](i requires 0 <= i < |events| reads this => events[i]);
    }

    /** Raise(event): stamp the event with the next version (wrapping at 2^64), append it,
        and make that the entity's version. */
    method Raise(event: Event<P>)
      modifies this
      ensures old(Valid()) ==> Valid()
      ensures version == (old(version) + 1) % U64_MODULUS
      ensures events == old(events) + [event.(version := version)]
      ensures id == old(id)
    {
      var stamped := event.(version := (version + 1) % U64_MODULUS);
      events := events + [stamped];
      version := stamped.version;
      assert events[|events| - 1] == stamped;
    }
  }
}
