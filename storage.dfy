/** The engine of dal.go: the page allocator (freelist), the metadata page that says where
    the freelist lives, the page store, and the New/Load/Close lifecycle. */
module Storage {
  import opened Bytes
  import opened Outcomes
  import opened Cursor
  import opened NodeFormat
  import opened NodeCodec
  import opened Nodes

  /** Page 0 holds the metadata record. */
  const METADATA_PAGE_ID: u64 := 0

  // ---------------------------------------------------------------------------------------
  // The freelist as a value

  /** highWater is the high-water page id (the freelist's `allocated`); released is a stack of reusable ids. */
  datatype FreelistValue = FreelistValue(highWater: u64, released: seq<u64>)

  /** freelist.id() as written: with nothing released it increments highWater (wrapping at
      64 bits) and returns it; otherwise it returns the last released id and, because the
      survivors are copied into a slice of length zero, leaves no released id at all. */
  function NextId(f: FreelistValue): (r: (u64, FreelistValue))
    ensures r.0 in f.released || (f.released == [] && r.0 == r.1.highWater)
    ensures r.1.released == []
  {
    if f.released == [] then
      var a := (f.highWater + 1) % U64_MODULUS;
      (a, FreelistValue(a, []))
    else
      (f.released[|f.released| - 1], FreelistValue(f.highWater, []))
  }

  /** freelist.release(id): push id on the stack. */
  function Released(f: FreelistValue, id: u64): FreelistValue
  {
    f.(released := f.released + [id])
  }

  lemma NextIdFresh(f: FreelistValue)
    requires f.released == [] && f.highWater + 1 < U64_MODULUS
    ensures NextId(f).0 == f.highWater + 1 && NextId(f).1 == FreelistValue(f.highWater + 1, [])
  {
  }

  /** With ids released, id() hands out the most recent one and keeps highWater; as written the
      stack is emptied instead of losing only its top, so every earlier release is forgotten. */
  lemma NextIdReuses(f: FreelistValue)
    requires f.released != []
    ensures NextId(f).0 == f.released[|f.released| - 1] && NextId(f).1.highWater == f.highWater
    ensures NextId(f).1.released == []
    ensures |f.released| > 1 ==> NextId(f).1.released != f.released[..|f.released| - 1]
  {
  }

  /** Last released, first reused: the id released last is the next one handed out. */
  lemma ReleaseThenNext(f: FreelistValue, id: u64)
    ensures NextId(Released(f, id)).0 == id
    ensures NextId(Released(f, id)).1 == FreelistValue(f.highWater, [])
  {
  }

  /** Releasing two ids and allocating twice does not give back the first one: the second
      allocation grows the high-water mark instead. */
  lemma SecondReleaseLost(f: FreelistValue, x: u64, y: u64)
    requires f.highWater + 1 < U64_MODULUS
    ensures var (i1, f1) := NextId(Released(Released(f, x), y));
      var (i2, f2) := NextId(f1);
      i1 == y && i2 == f.highWater + 1 && f2.released == []
  {
  }

  // ---------------------------------------------------------------------------------------
  // The freelist page: highWater (u64), count (u64), then count ids (u64), little-endian

  /** The buffer after the loop of freelist.Serialize has written ids[..i] from byte 16 on. */
  function IdsImage(b: seq<byte>, ids: seq<u64>, i: nat): (r: seq<byte>)
    requires i <= |ids| && 16 + 8 * |ids| <= |b|
    ensures |r| == |b|
    decreases i
  {
    if i == 0 then b else Splice(IdsImage(b, ids, i - 1), 16 + 8 * (i - 1), LE(ids[i - 1], 8))
  }

  /** The buffer after freelist.Serialize(b). */
  function FreelistImage(b: seq<byte>, f: FreelistValue): (r: seq<byte>)
    requires 16 + 8 * |f.released| <= |b|
    ensures |r| == |b|
  {
    IdsImage(Splice(Splice(b, 0, LE(f.highWater, 8)), 8, LE(|f.released| % U64_MODULUS, 8)), f.released, |f.released|)
  }

  /** freelist.Deserialize(buf) reads only inside buf. */
  predicate FreelistDecodable(buf: seq<byte>)
  {
    16 <= |buf| && 16 + 8 * ReadAt(buf, 8, 8) <= |buf|
  }

  /** What freelist.Deserialize(buf) sets the freelist to. */
  function DecodeFreelist(buf: seq<byte>): (f: FreelistValue)
    requires FreelistDecodable(buf)
    ensures |f.released| == ReadAt(buf, 8, 8)
  {
    var count := ReadAt(buf, 8, 8);
    FreelistValue(ReadU64(buf, 0), seq(count, i requires 0 <= i < count => ReadU64(buf, 16 + 8 * i)))
  }

  lemma {:induction false} IdsImageLayout(b: seq<byte>, ids: seq<u64>, i: nat)
    requires i <= |ids| && 16 + 8 * |ids| <= |b|
    ensures forall j :: 0 <= j < i ==> BytesAt(IdsImage(b, ids, i), 16 + 8 * j, LE(ids[j], 8))
    ensures Agree(b, IdsImage(b, ids, i), 0, 16)
    decreases i
  {
    if i > 0 {
      IdsImageLayout(b, ids, i - 1);
      var prev := IdsImage(b, ids, i - 1);
      forall j | 0 <= j < i - 1
        ensures BytesAt(IdsImage(b, ids, i), 16 + 8 * j, LE(ids[j], 8))
      {
        SpliceKeeps(prev, 16 + 8 * (i - 1), LE(ids[i - 1], 8), 16 + 8 * j, LE(ids[j], 8));
      }
      SpliceLayout(prev, 16 + 8 * (i - 1), LE(ids[i - 1], 8));
      AgreeTrans(b, prev, IdsImage(b, ids, i), 0, 16);
    }
  }

  /** Where the freelist image puts each field. */
  lemma FreelistImageLayout(b: seq<byte>, f: FreelistValue)
    requires 16 + 8 * |f.released| <= |b| && |f.released| < U64_MODULUS
    ensures var r := FreelistImage(b, f);
      && BytesAt(r, 0, LE(f.highWater, 8)) && BytesAt(r, 8, LE(|f.released|, 8))
      && forall j :: 0 <= j < |f.released| ==> BytesAt(r, 16 + 8 * j, LE(f.released[j], 8))
  {
    var n := |f.released|;
    assert n % U64_MODULUS == n;
    var b1 := Splice(b, 0, LE(f.highWater, 8));
    var b2 := Splice(b1, 8, LE(n, 8));
    var r := IdsImage(b2, f.released, n);
    assert r == FreelistImage(b, f);
    SpliceKeeps(b1, 8, LE(n, 8), 0, LE(f.highWater, 8));
    SpliceLayout(b1, 8, LE(n, 8));
    IdsImageLayout(b2, f.released, n);
    BytesAtTransfer(b2, r, 0, LE(f.highWater, 8));
    BytesAtTransfer(b2, r, 8, LE(n, 8));
  }

  /** freelist.Deserialize(freelist.Serialize(f)) == f whenever the ids fit the page. */
  lemma FreelistRoundTrip(b: seq<byte>, f: FreelistValue)
    requires 16 + 8 * |f.released| <= |b| && |f.released| < U64_MODULUS
    ensures FreelistDecodable(FreelistImage(b, f)) && DecodeFreelist(FreelistImage(b, f)) == f
  {
    Pow256Values();
    var n := |f.released|;
    var r := FreelistImage(b, f);
    FreelistImageLayout(b, f);
    ReadLE(r, 0, f.highWater, 8);
    ReadLE(r, 8, n, 8);
    assert FreelistDecodable(r);
    var d := DecodeFreelist(r);
    forall i | 0 <= i < n
      ensures d.released[i] == f.released[i]
    {
      ReadLE(r, 16 + 8 * i, f.released[i], 8);
    }
    assert d.released == f.released;
  }

  // ---------------------------------------------------------------------------------------
  // The metadata page: the freelist's page id (u64, little-endian) at offset 0

  function MetadataImage(b: seq<byte>, freelistPage: u64): (r: seq<byte>)
    requires 8 <= |b|
    ensures |r| == |b|
  {
    Splice(b, 0, LE(freelistPage, 8))
  }

  lemma MetadataRoundTrip(b: seq<byte>, freelistPage: u64)
    requires 8 <= |b|
    ensures ReadU64(MetadataImage(b, freelistPage), 0) == freelistPage
  {
    Pow256Values();
    SpliceLayout(b, 0, LE(freelistPage, 8));
    ReadLE(MetadataImage(b, freelistPage), 0, freelistPage, 8);
  }

  // ---------------------------------------------------------------------------------------
  // Lifecycle as values

  /** The pages after New on a store holding `pages`: the empty freelist (high-water mark 2)
      on page 2, and the metadata naming page 2 on page 0. */
  function Created(pages: map<u64, seq<byte>>, pageSize: nat): map<u64, seq<byte>>
    requires 16 <= pageSize
  {
    pages[2 := FreelistImage(Zeros(pageSize), FreelistValue(2, []))][METADATA_PAGE_ID := MetadataImage(Zeros(pageSize), 2)]
  }

  /** The pages after Close: the freelist re-written on its page, then the metadata on page 0. */
  function Closed(pages: map<u64, seq<byte>>, pageSize: nat, f: FreelistValue, freelistPage: u64): map<u64, seq<byte>>
    requires 16 + 8 * |f.released| <= pageSize
  {
    pages[freelistPage := FreelistImage(Zeros(pageSize), f)][METADATA_PAGE_ID := MetadataImage(Zeros(pageSize), freelistPage)]
  }

  /** Close rewrites only the metadata page and the freelist page; every other page keeps
      its bytes. */
  lemma CloseKeeps(pages: map<u64, seq<byte>>, pageSize: nat, f: FreelistValue, freelistPage: u64, id: u64)
    requires 16 + 8 * |f.released| <= pageSize
    requires id in pages && id != freelistPage && id != METADATA_PAGE_ID
    ensures id in Closed(pages, pageSize, f, freelistPage) && Closed(pages, pageSize, f, freelistPage)[id] == pages[id]
  {
  }

  /** What Load reads: the metadata page, then the freelist on the page it names. */
  function Loaded(pages: map<u64, seq<byte>>): Result<(u64, FreelistValue)>
  {
    if METADATA_PAGE_ID !in pages || |pages[METADATA_PAGE_ID]| < 8 then Err(IO)
    else
      var at := ReadU64(pages[METADATA_PAGE_ID], 0);
      if at !in pages then Err(IO)
      else if !FreelistDecodable(pages[at]) then Err(Panic)
      else Ok((at, DecodeFreelist(pages[at])))
  }

  /** Close then Load gives back the freelist that was closed, and where it lives. */
  lemma CloseThenLoad(pages: map<u64, seq<byte>>, pageSize: nat, f: FreelistValue, freelistPage: u64)
    requires 16 + 8 * |f.released| <= pageSize && |f.released| < U64_MODULUS
    requires freelistPage != METADATA_PAGE_ID
    ensures Loaded(Closed(pages, pageSize, f, freelistPage)) == Ok((freelistPage, f))
  {
    MetadataRoundTrip(Zeros(pageSize), freelistPage);
    FreelistRoundTrip(Zeros(pageSize), f);
  }

  /** A store just created by New loads back as the empty freelist on page 2. */
  lemma CreateThenLoad(pages: map<u64, seq<byte>>, pageSize: nat)
    requires 16 <= pageSize
    ensures Loaded(Created(pages, pageSize)) == Ok((2, FreelistValue(2, [])))
  {
    CloseThenLoad(pages, pageSize, FreelistValue(2, []), 2);
  }

  // ---------------------------------------------------------------------------------------
  // The objects

  /** The backing medium, addressed by page id. */
  class Datasource {
    var pages: map<u64, seq<byte>>

    constructor (pages: map<u64, seq<byte>>)
      ensures this.pages == pages
    {
      this.pages := pages;
    }

    /** Every stored page is one page long. */
    ghost predicate Paged(pageSize: nat)
      reads this
    {
      forall id :: id in pages ==> |pages[id]| == pageSize
    }
  }

  /** The loop of freelist.Serialize: each id as a u64 from byte 16 on. */
  method PutIds(buf: array<byte>, start: nat, ids: seq<u64>)
    requires start == 16 && 16 + 8 * |ids| <= buf.Length
    modifies buf
    ensures buf[..] == IdsImage(old(buf[..]), ids, |ids|)
  {
    var pos := start;
    for i := 0 to |ids|
      invariant pos == 16 + 8 * i
      invariant buf[..] == IdsImage(old(buf[..]), ids, i)
    {
      PutUint64At(buf, pos, ids[i]);
      pos := pos + 8;
    }
  }

  class Freelist {
    var highWater: u64
    var released: seq<u64>

    constructor (highWater: u64)
      ensures Value() == FreelistValue(highWater, [])
    {
      this.highWater := highWater;
      this.released := [];
    }

    function Value(): FreelistValue
      reads this
    {
      FreelistValue(highWater, released)
    }

    /** Hands out a page id: see NextId. */
    method Id() returns (id: u64)
      modifies this
      ensures (id, Value()) == NextId(old(Value()))
    {
      if |released| == 0 {
        highWater := (highWater + 1) % U64_MODULUS;
        return highWater;
      }
      var next := released[|released| - 1];
      var survivors: seq<u64> := [];
      // copy moves min(len(dst), len(src)) elements, and the destination has length zero
      var moved := if |survivors| < |released| - 1 then |survivors| else |released| - 1;
      assert moved == 0;
      survivors := released[..moved] + survivors[moved..];
      assert survivors == [];
      released := survivors;
      return next;
    }

    method Release(id: u64)
      modifies this
      ensures Value() == Released(old(Value()), id)
    {
      released := released + [id];
    }

    method Serialize(buf: array<byte>)
      requires 16 + 8 * |released| <= buf.Length
      modifies buf
      ensures buf[..] == FreelistImage(old(buf[..]), Value())
    {
      ghost var b0 := buf[..];
      var pos := 0;
      PutUint64At(buf, pos, highWater);
      pos := pos + 8;
      PutUint64At(buf, pos, |released| % U64_MODULUS);
      pos := pos + 8;
      ghost var b1 := buf[..];
      assert b1 == Splice(Splice(b0, 0, LE(highWater, 8)), 8, LE(|released| % U64_MODULUS, 8));
      PutIds(buf, pos, released);
      assert buf[..] == FreelistImage(b0, FreelistValue(highWater, released));
    }

    method Deserialize(buf: seq<byte>)
      requires FreelistDecodable(buf)
      modifies this
      ensures Value() == DecodeFreelist(buf)
    {
      Pow256Values();
      var pos := 0;
      highWater := ReadU64(buf, pos);
      pos := pos + 8;
      var count := ReadAt(buf, pos, 8);
      pos := pos + 8;
      released := [];
      for i := 0 to count
        invariant pos == 16 + 8 * i
        invariant highWater == ReadU64(buf, 0)
        invariant released == DecodeFreelist(buf).released[..i]
      {
        released := released + [ReadU64(buf, pos)];
        pos := pos + 8;
      }
      assert DecodeFreelist(buf).released[..count] == DecodeFreelist(buf).released;
    }
  }

  class Metadata {
    /** The page id of the freelist. */
    var freelist: u64

    constructor ()
      ensures freelist == 0
    {
      freelist := 0;
    }

    method Serialize(buf: array<byte>)
      requires 8 <= buf.Length
      modifies buf
      ensures buf[..] == MetadataImage(old(buf[..]), freelist)
    {
      PutUint64At(buf, 0, freelist);
    }

    method Deserialize(buf: seq<byte>)
      requires 8 <= |buf|
      modifies this
      ensures freelist == ReadU64(buf, 0)
    {
      freelist := ReadU64(buf, 0);
    }
  }

  /** The data access layer: a medium, the freelist and the metadata, and the page size. */
  class DAL {
    const ds: Datasource
    const freelist: Freelist
    const metadata: Metadata
    const pageSize: nat

    ghost predicate Valid()
      reads this, ds
    {
      16 <= pageSize && ds.Paged(pageSize)
    }

    /** New: pre-allocates page 0 for the metadata, takes the next id (2) for the freelist,
        and writes the freelist there and the metadata to page 0. */
    constructor New(ds: Datasource, pageSize: nat)
      requires 16 <= pageSize && ds.Paged(pageSize)
      modifies ds
      ensures Valid() && this.ds == ds && this.pageSize == pageSize && fresh(freelist) && fresh(metadata)
      ensures freelist.Value() == FreelistValue(2, []) && metadata.freelist == 2
      ensures ds.pages == Created(old(ds.pages), pageSize)
    {
      this.ds := ds;
      this.freelist := new Freelist(1);
      this.metadata := new Metadata();
      this.pageSize := pageSize;
      new;
      var id := freelist.Id();
      SerializeFreelist(id);
      metadata.freelist := id;
      SerializeMetadata(METADATA_PAGE_ID);
    }

    constructor Empty(ds: Datasource, pageSize: nat)
      requires 16 <= pageSize && ds.Paged(pageSize)
      ensures Valid() && this.ds == ds && this.pageSize == pageSize && fresh(freelist) && fresh(metadata)
      ensures freelist.Value() == FreelistValue(0, []) && metadata.freelist == 0
    {
      this.ds := ds;
      this.freelist := new Freelist(0);
      this.metadata := new Metadata();
      this.pageSize := pageSize;
    }

    /** Load: reads the metadata from page 0, then the freelist from the page it names. */
    static method Load(ds: Datasource, pageSize: nat) returns (r: Result<DAL>)
      requires 16 <= pageSize && ds.Paged(pageSize)
      ensures r.Ok? <==> Loaded(ds.pages).Ok?
      ensures r.Err? ==> r.error == Loaded(ds.pages).error
      ensures r.Ok? ==> var d := r.value;
        && d.Valid() && d.ds == ds && d.pageSize == pageSize && fresh(d.freelist) && fresh(d.metadata)
        && Loaded(ds.pages).value == (d.metadata.freelist, d.freelist.Value())
    {
      var d := new DAL.Empty(ds, pageSize);
      var e := d.DeserializeMetadata(METADATA_PAGE_ID);
      if e.Err? {
        return Err(e.error);
      }
      e := d.DeserializeFreelist(d.metadata.freelist);
      if e.Err? {
        return Err(e.error);
      }
      return Ok(d);
    }

    /** Close: re-writes the freelist on its page, then the metadata on page 0. */
    method Close()
      requires Valid() && 16 + 8 * |freelist.released| <= pageSize
      modifies ds
      ensures Valid()
      ensures ds.pages == Closed(old(ds.pages), pageSize, freelist.Value(), metadata.freelist)
    {
      SerializeFreelist(metadata.freelist);
      SerializeMetadata(METADATA_PAGE_ID);
    }

    /** A zero-filled page buffer. */
    method Allocate() returns (p: array<byte>)
      ensures fresh(p) && p[..] == Zeros(pageSize)
    {
      p := new byte[pageSize](_ => 0);
    }

    /** read: the page stored under id; a page never written is a failed read. */
    method Read(id: u64) returns (r: Result<seq<byte>>)
      requires Valid()
      ensures r == if id in ds.pages then Ok(ds.pages[id]) else Err(IO)
      ensures r.Ok? ==> |r.value| == pageSize
    {
      if id !in ds.pages {
        return Err(IO);
      }
      return Ok(ds.pages[id]);
    }

    /** write: replaces page id and nothing else. */
    method Write(id: u64, data: array<byte>)
      requires Valid() && data.Length == pageSize
      modifies ds
      ensures Valid() && ds.pages == old(ds.pages)[id := data[..]]
    {
      ds.pages := ds.pages[id := data[..]];
    }

    /** Serialize(freelist, id). */
    method SerializeFreelist(id: u64)
      requires Valid() && 16 + 8 * |freelist.released| <= pageSize
      modifies ds
      ensures Valid() && ds.pages == old(ds.pages)[id := FreelistImage(Zeros(pageSize), freelist.Value())]
    {
      var p := Allocate();
      freelist.Serialize(p);
      Write(id, p);
    }

    /** Serialize(metadata, id). */
    method SerializeMetadata(id: u64)
      requires Valid()
      modifies ds
      ensures Valid() && ds.pages == old(ds.pages)[id := MetadataImage(Zeros(pageSize), metadata.freelist)]
    {
      var p := Allocate();
      metadata.Serialize(p);
      Write(id, p);
    }

    /** Serialize(node, id); Node.Serialize panics unless the node fits the page. */
    method SerializeNode(n: Node, id: u64)
      requires Valid() && SerializeSafe(n.Value(), pageSize)
      modifies ds
      ensures Valid() && ds.pages == old(ds.pages)[id := NodeImage(Zeros(pageSize), n.Value())]
    {
      var p := Allocate();
      n.Serialize(p);
      Write(id, p);
    }

    /** Deserialize(freelist, id); Panic where freelist.Deserialize would index past the page. */
    method DeserializeFreelist(id: u64) returns (r: Result<()>)
      requires Valid()
      modifies freelist
      ensures r.Ok? <==> id in ds.pages && FreelistDecodable(ds.pages[id])
      ensures r.Err? ==> r.error == if id in ds.pages then Panic else IO
      ensures r.Ok? ==> freelist.Value() == DecodeFreelist(ds.pages[id])
    {
      var p := Read(id);
      if p.Err? {
        return Err(p.error);
      }
      if !FreelistDecodable(p.value) {
        return Err(Panic);
      }
      freelist.Deserialize(p.value);
      return Ok(());
    }

    /** Deserialize(metadata, id). */
    method DeserializeMetadata(id: u64) returns (r: Result<()>)
      requires Valid()
      modifies metadata
      ensures r.Ok? <==> id in ds.pages
      ensures r.Err? ==> r.error == IO
      ensures r.Ok? ==> metadata.freelist == ReadU64(ds.pages[id], 0)
    {
      var p := Read(id);
      if p.Err? {
        return Err(p.error);
      }
      metadata.Deserialize(p.value);
      return Ok(());
    }

    /** Deserialize(node, id); the node's id is left as it was. */
    method DeserializeNode(n: Node, id: u64) returns (r: Result<()>)
      requires Valid()
      modifies n
      ensures r.Ok? <==> id in ds.pages && Decodable(ds.pages[id])
      ensures r.Err? ==> r.error == if id in ds.pages then Panic else IO
      ensures r.Ok? ==> n.Value() == DecodeNode(ds.pages[id]) && n.id == old(n.id)
    {
      var p := Read(id);
      if p.Err? {
        return Err(p.error);
      }
      if !Decodable(p.value) {
        return Err(Panic);
      }
      n.Deserialize(p.value);
      return Ok(());
    }
  }
}
