/** The key/value items of a node and the ordered-list logic node.go builds on them. */
module Keys {
  import opened Bytes
  import opened Outcomes

  datatype Item = Item(key: seq<byte>, value: seq<byte>)

  /** bytes.Compare: byte-wise lexicographic order in which a proper prefix sorts first. */
  function Compare(a: seq<byte>, b: seq<byte>): (r: int)
    ensures -1 <= r <= 1
    ensures r == 0 <==> a == b
  {
    if a == [] then (if b == [] then 0 else -1)
    else if b == [] then 1
    else if a[0] < b[0] then -1
    else if a[0] > b[0] then 1
    else
      var r := Compare(a[1..], b[1..]);
      assert r == 0 ==> a == [a[0]] + a[1..] == [b[0]] + b[1..] == b;
      r
  }

  lemma {:induction false} CompareAntisymmetric(a: seq<byte>, b: seq<byte>)
    ensures Compare(a, b) == -Compare(b, a)
  {
    if a != [] && b != [] && a[0] == b[0] {
      CompareAntisymmetric(a[1..], b[1..]);
    }
  }

  lemma {:induction false} CompareTransitive(a: seq<byte>, b: seq<byte>, c: seq<byte>)
    requires Compare(a, b) <= 0 && Compare(b, c) <= 0
    ensures Compare(a, c) <= 0
    ensures Compare(a, b) < 0 || Compare(b, c) < 0 ==> Compare(a, c) < 0
  {
    if a != [] && b != [] && c != [] && a[0] == b[0] == c[0] {
      CompareTransitive(a[1..], b[1..], c[1..]);
    }
  }

  /** Keys in ascending order; equal keys may sit next to each other. */
  predicate Sorted(items: seq<Item>)
  {
    forall i, j :: 0 <= i < j < |items| ==> Compare(items[i].key, items[j].key) <= 0
  }

  /** Index of the first item whose key is exactly key, or |items| when there is none. */
  function FirstMatch(items: seq<Item>, key: seq<byte>): (i: nat)
    ensures i <= |items|
    ensures forall j :: 0 <= j < i ==> items[j].key != key
    ensures i < |items| ==> items[i].key == key
  {
    if items == [] then 0
    else if items[0].key == key then 0
    else 1 + FirstMatch(items[1..], key)
  }

  /** The item Node.Find reports, or None. */
  function Lookup(items: seq<Item>, key: seq<byte>): Option<Item>
  {
    var i := FirstMatch(items, key);
    if i < |items| then Some(items[i]) else None
  }

  /** Index of the first item whose key is strictly greater than key, or |items|:
      the descent slot of Node.Child and the insertion point of Node.Insert. */
  function ChildPos(items: seq<Item>, key: seq<byte>): (i: nat)
    ensures i <= |items|
    ensures forall j :: 0 <= j < i ==> Compare(key, items[j].key) >= 0
    ensures i < |items| ==> Compare(key, items[i].key) < 0
  {
    if items == [] then 0
    else if Compare(key, items[0].key) < 0 then 0
    else 1 + ChildPos(items[1..], key)
  }

  /** The items after Node.Insert(it). */
  function InsertItem(items: seq<Item>, it: Item): seq<Item>
  {
    var p := ChildPos(items, it.key);
    items[..p] + [it] + items[p..]
  }

  /** A scan that stops at the first key greater than key has found ChildPos. */
  lemma ChildPosAt(items: seq<Item>, key: seq<byte>, i: nat)
    requires i <= |items|
    requires forall j :: 0 <= j < i ==> Compare(key, items[j].key) >= 0
    requires i < |items| ==> Compare(key, items[i].key) < 0
    ensures i == ChildPos(items, key)
  {
  }

  /** Go's append(items[:i+1], items[i:]...) followed by items[i] = it inserts it at i. */
  lemma ShiftThenSet(items: seq<Item>, i: nat, it: Item)
    requires i < |items|
    ensures (items[..i + 1] + items[i..])[i := it] == items[..i] + [it] + items[i..]
  {
  }

  lemma InsertItemShape(items: seq<Item>, it: Item)
    ensures var p := ChildPos(items, it.key); var r := InsertItem(items, it);
      |r| == |items| + 1 && r[p] == it &&
      (forall j :: 0 <= j < p ==> r[j] == items[j]) &&
      (forall j :: p <= j < |items| ==> r[j + 1] == items[j])
  {
  }

  lemma InsertItemSorted(items: seq<Item>, it: Item)
    requires Sorted(items)
    ensures Sorted(InsertItem(items, it))
  {
    var p := ChildPos(items, it.key);
    var r := InsertItem(items, it);
    forall i, j | 0 <= i < j < |r|
      ensures Compare(r[i].key, r[j].key) <= 0
    {
      if j == p {
        CompareAntisymmetric(it.key, r[i].key);
      } else if i == p {
        CompareAntisymmetric(it.key, items[p].key);
        CompareTransitive(it.key, items[p].key, r[j].key);
      }
    }
  }

  /** Among sorted items a new item goes after every item with an equal key. */
  lemma InsertItemAfterEqualKeys(items: seq<Item>, it: Item, j: nat)
    requires Sorted(items) && j < |items| && items[j].key == it.key
    ensures j < ChildPos(items, it.key)
  {
    var p := ChildPos(items, it.key);
    if p < j {
      var kp, kj := items[p].key, items[j].key;
      assert Compare(it.key, kp) < 0;
      assert Compare(kp, kj) <= 0;
      CompareAntisymmetric(kj, kp);
      assert false;
    } else if p == j {
      assert false;
    }
  }

  lemma InsertItemLookup(items: seq<Item>, it: Item)
    requires forall j :: 0 <= j < |items| ==> items[j].key != it.key
    ensures Lookup(InsertItem(items, it), it.key) == Some(it)
  {
    InsertItemShape(items, it);
    var r := InsertItem(items, it);
    var p := ChildPos(items, it.key);
    assert r[p].key == it.key;
    assert forall j :: 0 <= j < p ==> r[j].key != it.key;
    assert FirstMatch(r, it.key) == p;
  }

  lemma InsertItemLookupOther(items: seq<Item>, it: Item, key: seq<byte>)
    requires key != it.key
    ensures Lookup(InsertItem(items, it), key) == Lookup(items, key)
  {
    InsertItemShape(items, it);
    var r := InsertItem(items, it);
    var p := ChildPos(items, it.key);
    var i := FirstMatch(items, key);
    if i < p {
      assert forall j :: 0 <= j < i ==> r[j] == items[j];
      assert r[i] == items[i];
      assert FirstMatch(r, key) == i;
    } else {
      assert forall j :: 0 <= j < p ==> r[j] == items[j];
      assert forall j :: p < j <= i && j <= |items| ==> r[j] == items[j - 1];
      if i < |items| {
        assert r[i + 1] == items[i];
        assert FirstMatch(r, key) == i + 1;
      } else {
        assert FirstMatch(r, key) == |r|;
      }
    }
  }

  /** The items built by calling Node.Insert on each element of s in turn, starting from acc. */
  function InsertAll(acc: seq<Item>, s: seq<Item>): seq<Item>
    decreases |s|
  {
    if s == [] then acc else InsertAll(InsertItem(acc, s[0]), s[1..])
  }

  lemma {:induction false} InsertAllSorted(acc: seq<Item>, s: seq<Item>)
    requires Sorted(acc + s)
    ensures InsertAll(acc, s) == acc + s
    decreases |s|
  {
    if s != [] {
      var all := acc + s;
      assert all[|acc|] == s[0];
      var p := ChildPos(acc, s[0].key);
      if p < |acc| {
        assert all[p] == acc[p];
        assert Compare(acc[p].key, s[0].key) <= 0;
        CompareAntisymmetric(s[0].key, acc[p].key);
        assert false;
      }
      assert InsertItem(acc, s[0]) == acc + [s[0]];
      assert (acc + [s[0]]) + s[1..] == all;
      InsertAllSorted(acc + [s[0]], s[1..]);
    }
  }

  lemma {:induction false} InsertAllLength(acc: seq<Item>, s: seq<Item>)
    ensures |InsertAll(acc, s)| == |acc| + |s|
    decreases |s|
  {
    if s != [] {
      InsertItemShape(acc, s[0]);
      InsertAllLength(InsertItem(acc, s[0]), s[1..]);
    }
  }

  /** Inserting one more element at the end of s is one more Node.Insert. */
  lemma {:induction false} InsertAllSnoc(acc: seq<Item>, s: seq<Item>, x: Item)
    ensures InsertAll(acc, s + [x]) == InsertItem(InsertAll(acc, s), x)
    decreases |s|
  {
    if s == [] {
      assert [] + [x] == [x];
      assert [x][1..] == [];
    } else {
      assert (s + [x])[0] == s[0];
      assert (s + [x])[1..] == s[1..] + [x];
      InsertAllSnoc(InsertItem(acc, s[0]), s[1..], x);
    }
  }

  /** Lookup finds an item with exactly the key, and fails only when there is none. */
  lemma LookupMeaning(items: seq<Item>, key: seq<byte>)
    ensures Lookup(items, key).None? <==> forall j :: 0 <= j < |items| ==> items[j].key != key
    ensures Lookup(items, key).Some? ==> Lookup(items, key).value.key == key && Lookup(items, key).value in items
  {
  }
}
