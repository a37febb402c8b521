/** The B-tree node of node.go: its queries, its in-place updates, the median split and
    the page codec, each proved against a function of the node's persistent value. */
module Nodes {
  import opened Bytes
  import opened Keys
  import opened Outcomes
  import opened NodeFormat
  import opened NodeCodec
  import opened Cursor

  // ---------------------------------------------------------------------------------------
  // Value-level specification

  /** Node.Child does not index out of range. */
  predicate ChildSafe(v: NodeValue, key: seq<byte>)
  {
    var p := ChildPos(v.items, key);
    if p == |v.items| then |v.children| > 0 else p < |v.children|
  }

  /** The page id Node.Child(key) returns. */
  function ChildOf(v: NodeValue, key: seq<byte>): u64
    requires ChildSafe(v, key)
  {
    var p := ChildPos(v.items, key);
    if p == |v.items| then v.children[|v.children| - 1] else v.children[p]
  }

  /** In a well-shaped internal node the descent goes to children[p] for the least p whose
      separator is greater than key: every key stored under that child lies between the
      separators around it. */
  lemma ChildRoutes(v: NodeValue, key: seq<byte>)
    requires Sorted(v.items) && |v.children| == |v.items| + 1
    ensures ChildSafe(v, key)
    ensures var p := ChildPos(v.items, key);
      && ChildOf(v, key) == v.children[p]
      && (forall j :: 0 <= j < p ==> Compare(v.items[j].key, key) <= 0)
      && (forall j :: p <= j < |v.items| ==> Compare(key, v.items[j].key) < 0)
  {
    var p := ChildPos(v.items, key);
    forall j | 0 <= j < p
      ensures Compare(v.items[j].key, key) <= 0
    {
      CompareAntisymmetric(v.items[j].key, key);
    }
    forall j | p <= j < |v.items|
      ensures Compare(key, v.items[j].key) < 0
    {
      if j > p {
        CompareTransitive(key, v.items[p].key, v.items[j].key);
      }
    }
  }

  /** What AddChild(index, id) leaves in children. */
  function WithChild(children: seq<u64>, index: nat, id: u64): (r: seq<u64>)
    requires index <= |children|
    ensures |r| == if index == |children| then |children| + 1 else |children|
    ensures r[index] == id
    ensures forall j :: 0 <= j < |children| && j != index ==> r[j] == children[j]
  {
    if index == |children| then children + [id] else children[index := id]
  }

  /** Bytes counted by Node.Overpopulated for the items: key, value, a page id and an offset each. */
  function ItemsCost(items: seq<Item>): nat
  {
    if items == [] then 0
    else ItemsCost(items[..|items| - 1]) + |items[|items| - 1].key| + |items[|items| - 1].value| + 10
  }

  /** Node.Overpopulated's size estimate: flag, count, the items, and a final page id. */
  function EstimatedSize(items: seq<Item>): nat
  {
    1 + 2 + ItemsCost(items) + 8
  }

  /** size >= 0.9 * pageSize, in exact arithmetic. */
  predicate Overfull(items: seq<Item>, pageSize: nat)
  {
    10 * EstimatedSize(items) >= 9 * pageSize
  }

  lemma {:induction false} ItemsCostPayload(items: seq<Item>, i: nat)
    requires i <= |items|
    ensures ItemsCost(items[..i]) == PayloadSize(items, i) + 8 * i
  {
    if i > 0 {
      assert items[..i][..i - 1] == items[..i - 1];
      ItemsCostPayload(items, i - 1);
    }
  }

  /** A leaf that Overpopulated accepts fits its page, so the codec round-trips it. */
  lemma LeafFitsUnlessOverfull(v: NodeValue, pageSize: nat)
    requires v.children == [] && pageSize <= 0x1_0000
    requires |v.items| < 0x1_0000
    requires forall i :: 0 <= i < |v.items| ==> |v.items[i].key| < 256 && |v.items[i].value| < 256
    requires !Overfull(v.items, pageSize)
    ensures Fits(v, pageSize)
  {
    ItemsCostPayload(v.items, |v.items|);
    assert v.items[..|v.items|] == v.items;
  }

  lemma {:induction false} UniformCost(items: seq<Item>, c: nat)
    requires forall j :: 0 <= j < |items| ==> |items[j].key| + |items[j].value| + 10 == c
    ensures ItemsCost(items) == c * |items|
    decreases |items|
  {
    if items != [] {
      UniformCost(items[..|items| - 1], c);
    }
  }

  /** The estimate leaves out the parent id and two length bytes per item, which an internal
      node also stores: an internal node of eight one-byte items passes on a 128-byte page
      but its head and tail regions overlap there. */
  lemma InternalUndercount()
    ensures var it := Item([0], [0]);
      var v := NodeValue(0, [it, it, it, it, it, it, it, it], [2, 3, 4, 5, 6, 7, 8, 9, 10]);
      !Overfull(v.items, 128) && !Separated(v, 128)
  {
    var it := Item([0], [0]);
    var items := [it, it, it, it, it, it, it, it];
    UniformCost(items, 12);
    ItemsCostPayload(items, 8);
    assert items[..8] == items;
  }

  /** Index of the split: int(float64(n)/2) is n/2. */
  function Mid(v: NodeValue): nat
  {
    |v.items| / 2
  }

  /** Cut of the children: math.Round(float64(c)/2) rounds halves up, which is (c+1)/2. */
  function ChildMid(v: NodeValue): nat
  {
    (|v.children| + 1) / 2
  }

  function Promoted(v: NodeValue): Item
    requires |v.items| > 0
  {
    v.items[Mid(v)]
  }

  /** The first node Split returns: the items before the median re-inserted one by one,
      and the first ChildMid children. */
  function SplitLeft(v: NodeValue): NodeValue
    requires |v.items| > 0
  {
    NodeValue(0, InsertAll([], v.items[..Mid(v)]), if Internal(v) then v.children[..ChildMid(v)] else [])
  }

  /** The second node Split returns: the items after the median and the remaining children. */
  function SplitRight(v: NodeValue): NodeValue
    requires |v.items| > 0
  {
    NodeValue(0, InsertAll([], v.items[Mid(v) + 1..]), if Internal(v) then v.children[ChildMid(v)..] else [])
  }

  lemma SortedSlice(items: seq<Item>, lo: nat, hi: nat)
    requires Sorted(items) && lo <= hi <= |items|
    ensures Sorted([] + items[lo..hi])
  {
    var s := [] + items[lo..hi];
    forall i, j | 0 <= i < j < |s|
      ensures Compare(s[i].key, s[j].key) <= 0
    {
      assert s[i] == items[lo + i] && s[j] == items[lo + j];
    }
  }

  lemma ThreeParts(s: seq<Item>, m: nat)
    requires m < |s|
    ensures s[..m] + [s[m]] + s[m + 1..] == s
  {
  }

  /** On sorted items the two halves and the promoted item rebuild the original. */
  lemma SplitRebuilds(v: NodeValue)
    requires |v.items| > 0 && Sorted(v.items)
    ensures SplitLeft(v).items == v.items[..Mid(v)]
    ensures SplitRight(v).items == v.items[Mid(v) + 1..]
    ensures SplitLeft(v).items + [Promoted(v)] + SplitRight(v).items == v.items
  {
    var m := Mid(v);
    SortedSlice(v.items, 0, m);
    assert v.items[0..m] == v.items[..m];
    InsertAllSorted([], v.items[..m]);
    SortedSlice(v.items, m + 1, |v.items|);
    assert v.items[m + 1..|v.items|] == v.items[m + 1..];
    InsertAllSorted([], v.items[m + 1..]);
    ThreeParts(v.items, m);
  }

  /** Splitting keeps the shape: an internal node with one more child than items splits into
      two such nodes whose children, in order, are the original ones; a leaf into two leaves. */
  lemma SplitShape(v: NodeValue)
    requires |v.items| > 0
    ensures |SplitLeft(v).items| == Mid(v) && |SplitRight(v).items| == |v.items| - Mid(v) - 1
    ensures v.children == [] ==> SplitLeft(v).children == [] && SplitRight(v).children == []
    ensures |v.children| == |v.items| + 1 ==>
      && |SplitLeft(v).children| == |SplitLeft(v).items| + 1
      && |SplitRight(v).children| == |SplitRight(v).items| + 1
      && SplitLeft(v).children + SplitRight(v).children == v.children
  {
    InsertAllLength([], v.items[..Mid(v)]);
    InsertAllLength([], v.items[Mid(v) + 1..]);
  }

  /** Four items and five children split into [1, 2, 3] and [4, 5]. */
  lemma SplitFiveChildren(v: NodeValue)
    requires |v.items| == 4 && v.children == [1, 2, 3, 4, 5]
    ensures SplitLeft(v).children == [1, 2, 3] && SplitRight(v).children == [4, 5]
  {
  }

  /** Three items and four children split into [1, 2] and [3, 4]. */
  lemma SplitFourChildren(v: NodeValue)
    requires |v.items| == 3 && v.children == [1, 2, 3, 4]
    ensures SplitLeft(v).children == [1, 2] && SplitRight(v).children == [3, 4]
  {
  }

  /** The items Node.Deserialize has read after i loop iterations. */
  function DecodedItems(buf: seq<byte>, i: nat): seq<Item>
    requires Decodable(buf) && i <= ItemCount(buf)
  {
    if i == 0 then [] else DecodedItems(buf, i - 1) + [SlotItem(buf, i - 1)]
  }

  /** The children Node.Deserialize has read after i loop iterations of an internal node. */
  function DecodedChildren(buf: seq<byte>, i: nat): seq<u64>
    requires Decodable(buf) && buf[0] == 0 && i <= ItemCount(buf)
  {
    if i == 0 then [] else DecodedChildren(buf, i - 1) + [ReadU64(buf, SlotPos(true, i - 1))]
  }

  /** Iteration i reads item i through the offset at pos. */
  lemma DecodedItemsStep(buf: seq<byte>, i: nat, pos: nat)
    requires Decodable(buf) && i < ItemCount(buf) && pos == OffsetPos(buf[0] == 0, i)
    ensures pos + 2 <= |buf| && PayloadOk(buf, ReadAt(buf, pos, 2))
    ensures DecodedItems(buf, i + 1) == DecodedItems(buf, i) + [DecodeItem(buf, ReadAt(buf, pos, 2))]
  {
    assert SlotOk(buf, buf[0] == 0, i);
  }

  /** Iteration i of an internal node reads child i at pos. */
  lemma DecodedChildrenStep(buf: seq<byte>, i: nat, pos: nat)
    requires Decodable(buf) && buf[0] == 0 && i < ItemCount(buf) && pos == SlotPos(true, i)
    ensures pos + 8 <= |buf|
    ensures DecodedChildren(buf, i + 1) == DecodedChildren(buf, i) + [ReadU64(buf, pos)]
  {
  }

  lemma {:induction false} DecodedItemsPrefix(buf: seq<byte>, i: nat)
    requires Decodable(buf) && i <= ItemCount(buf)
    ensures DecodedItems(buf, i) == DecodeNode(buf).items[..i]
  {
    if i > 0 {
      DecodedItemsPrefix(buf, i - 1);
      var items := DecodeNode(buf).items;
      assert items[i - 1] == SlotItem(buf, i - 1);
      assert items[..i] == items[..i - 1] + [items[i - 1]];
    }
  }

  lemma {:induction false} DecodedChildrenPrefix(buf: seq<byte>, i: nat)
    requires Decodable(buf) && buf[0] == 0 && i <= ItemCount(buf)
    ensures DecodedChildren(buf, i) == DecodeNode(buf).children[..i]
  {
    if i > 0 {
      DecodedChildrenPrefix(buf, i - 1);
      var children := DecodeNode(buf).children;
      assert children[i - 1] == ReadU64(buf, SlotPos(true, i - 1));
      assert children[..i] == children[..i - 1] + [children[i - 1]];
    }
  }

  /** The whole of what Node.Deserialize reads is what DecodeNode describes. */
  lemma DecodedWhole(buf: seq<byte>, children: seq<u64>)
    requires Decodable(buf)
    requires children == if buf[0] == 0 then
      DecodedChildren(buf, ItemCount(buf)) + [ReadU64(buf, SlotPos(true, ItemCount(buf)))] else []
    ensures NodeValue(ReadU64(buf, 1), DecodedItems(buf, ItemCount(buf)), children) == DecodeNode(buf)
  {
    var v := DecodeNode(buf);
    var n := ItemCount(buf);
    DecodedItemsPrefix(buf, n);
    assert v.items[..n] == v.items;
    if buf[0] == 0 {
      DecodedChildrenPrefix(buf, n);
      assert v.children == v.children[..n] + [v.children[n]];
    }
  }

  // ---------------------------------------------------------------------------------------
  // The node

  class Node {
    var id: u64
    var parent: u64
    var children: seq<u64>
    var items: seq<Item>

    constructor (id: u64, parent: u64, children: seq<u64>, items: seq<Item>)
      ensures this.id == id && this.parent == parent && this.children == children && this.items == items
    {
      this.id := id;
      this.parent := parent;
      this.children := children;
      this.items := items;
    }

    /** What the node's page stores (everything but its id). */
    function Value(): NodeValue
      reads this
    {
      NodeValue(parent, items, children)
    }

    method Find(key: seq<byte>) returns (r: Option<Item>)
      ensures r == Lookup(items, key)
    {
      for i := 0 to |items|
        invariant forall j :: 0 <= j < i ==> items[j].key != key
      {
        if items[i].key == key {
          assert FirstMatch(items, key) == i;
          return Some(items[i]);
        }
      }
      assert FirstMatch(items, key) == |items|;
      return None;
    }

    method Child(key: seq<byte>) returns (c: u64)
      requires ChildSafe(Value(), key)
      ensures c == ChildOf(Value(), key)
    {
      var i := 0;
      while i < |items|
        invariant i <= |items|
        invariant forall j :: 0 <= j < i ==> Compare(key, items[j].key) >= 0
      {
        if i == |items| || Compare(key, items[i].key) < 0 {
          break;
        }
        i := i + 1;
      }
      ChildPosAt(items, key, i);
      if i == |items| {
        c := children[|children| - 1];
      } else {
        c := children[i];
      }
    }

    /** Overwrites children[index], or appends when index is one past the end. */
    method AddChild(index: nat, id: u64)
      requires index <= |children|
      modifies this
      ensures children == WithChild(old(children), index, id)
      ensures items == old(items) && parent == old(parent) && this.id == old(this.id)
    {
      if index == |children| {
        children := children + [id];
      } else {
        children := children[index := id];
      }
    }

    /** Inserts item before the first item with a greater key and returns its index. */
    method Insert(item: Item) returns (i: nat)
      modifies this
      ensures i == ChildPos(old(items), item.key)
      ensures items == InsertItem(old(items), item)
      ensures children == old(children) && parent == old(parent) && id == old(id)
    {
      i := 0;
      while i < |items|
        invariant i <= |items|
        invariant forall j :: 0 <= j < i ==> Compare(item.key, items[j].key) >= 0
      {
        if i == |items| || Compare(item.key, items[i].key) < 0 {
          break;
        }
        i := i + 1;
      }
      ChildPosAt(items, item.key, i);
      if i == |items| {
        assert items[..i] + [item] + items[i..] == items + [item];
        items := items + [item];
      } else {
        ShiftThenSet(items, i, item);
        items := items[..i + 1] + items[i..];
        items := items[i := item];
      }
    }

    method Overpopulated(pageSize: nat) returns (over: bool)
      ensures over <==> Overfull(items, pageSize)
    {
      var size := 0;
      size := size + 1;
      size := size + 2;
      for i := 0 to |items|
        invariant size == 3 + ItemsCost(items[..i])
      {
        assert items[..i + 1][..i] == items[..i];
        size := size + |items[i].key|;
        size := size + |items[i].value|;
        size := size + 8;
        size := size + 2;
      }
      assert items[..|items|] == items;
      size := size + 8;
      over := 10 * size >= 9 * pageSize;
    }

    /** Node.Leaf: no children, so the node is not a parent. */
    function Leaf(): (r: bool)
      reads this
      ensures r <==> !Parent()
    {
      |children| == 0
    }

    /** Node.Parent: at least one child. */
    function Parent(): bool
      reads this
    {
      |children| > 0
    }

    /** Writes the node into buf through a forward head cursor and a backward tail cursor. */
    method Serialize(buf: array<byte>)
      requires SerializeSafe(Value(), buf.Length)
      modifies buf
      ensures buf[..] == NodeImage(old(buf[..]), Value())
    {
      var v := Value();
      ghost var b0 := buf[..];
      var head := new Serializer(buf, 0, FORWARDS);
      var tail := new Serializer(buf, buf.Length - 1, BACKWARDS);

      var leaf := 0;
      if Leaf() {
        leaf := 1;
      }
      PutHeader(head, leaf, parent, |items| % 0x1_0000);
      assert buf[..] == ItemsImage(b0, v, 0);

      PutItems(head, tail, v, b0);
      assert buf[..] == ItemsImage(b0, v, |items|);

      if Parent() {
        head.PutUint64(children[|children| - 1]);
      }
    }

    /** Reads parent, items and children back from buf; the id is left as it is. */
    method Deserialize(buf: seq<byte>)
      requires Decodable(buf)
      modifies this
      ensures Value() == DecodeNode(buf) && id == old(id)
    {
      var head := 0;
      var leaf := false;
      if buf[head] != 0 {
        leaf := true;
      }
      var isParent := !leaf;
      assert isParent == (buf[0] == 0);
      head := head + 1;
      parent := ReadU64(buf, head);
      head := head + 8;
      var count := ReadAt(buf, head, 2);
      assert count == ItemCount(buf);
      head := head + 2;

      var readChildren: seq<u64> := [];
      var readItems: seq<Item> := [];
      for i := 0 to count
        invariant head == SlotPos(isParent, i)
        invariant parent == ReadU64(buf, 1) && id == old(id)
        invariant readItems == DecodedItems(buf, i)
        invariant readChildren == if isParent then DecodedChildren(buf, i) else []
      {
        if isParent {
          DecodedChildrenStep(buf, i, head);
          var id := ReadU64(buf, head);
          readChildren := readChildren + [id];
          head := head + 8;
        }
        DecodedItemsStep(buf, i, head);
        var offset := ReadAt(buf, head, 2);
        head := head + 2;
        var item := ReadPayload(buf, offset);
        readItems := readItems + [item];
      }

      if isParent {
        var child := ReadU64(buf, head);
        readChildren := readChildren + [child];
      }
      DecodedWhole(buf, readChildren);
      items := readItems;
      children := readChildren;
    }
  }

  /** The loop of Node.Serialize: one slot and one payload per item. */
  method PutItems(head: Serializer, tail: Serializer, v: NodeValue, ghost b0: seq<byte>)
    requires head.buffer == tail.buffer && head != tail
    requires head.direction == FORWARDS && tail.direction == BACKWARDS
    requires SerializeSafe(v, |b0|) && head.buffer.Length == |b0|
    requires head.position == SlotPos(Internal(v), 0) && tail.position == TailPos(v, |b0|, 0)
    requires head.buffer[..] == ItemsImage(b0, v, 0)
    modifies head, tail, head.buffer
    ensures head.position == SlotPos(Internal(v), |v.items|)
    ensures head.buffer[..] == ItemsImage(b0, v, |v.items|)
  {
    var buf := head.buffer;
    for i := 0 to |v.items|
      invariant head.buffer == buf && tail.buffer == buf
      invariant head.position == SlotPos(Internal(v), i)
      invariant tail.position == TailPos(v, buf.Length, i)
      invariant buf[..] == ItemsImage(b0, v, i)
    {
      SlotCursors(v, buf.Length, i);
      PutItem(head, tail, v, i);
    }
  }

  /** Loop iteration i of Node.Serialize. */
  method PutItem(head: Serializer, tail: Serializer, v: NodeValue, i: nat)
    requires head.buffer == tail.buffer && head != tail
    requires head.direction == FORWARDS && tail.direction == BACKWARDS
    requires SerializeSafe(v, head.buffer.Length) && i < |v.items|
    requires head.position == SlotPos(Internal(v), i) && tail.position == TailPos(v, head.buffer.Length, i)
    modifies head, tail, head.buffer
    ensures head.position == SlotPos(Internal(v), i + 1) && tail.position == TailPos(v, head.buffer.Length, i + 1)
    ensures head.buffer[..] == ItemImage(old(head.buffer[..]), v, i)
  {
    SlotCursors(v, head.buffer.Length, i);
    ghost var before, h, t := head.buffer[..], head.position, tail.position;
    var child := if Internal(v) then v.children[i] else 0;
    var item := v.items[i];
    PutSlot(head, tail, Internal(v), child, item.key, item.value);
    SlotStep(before, head.buffer[..], v, i, child, h, t);
  }

  /** Where the two cursors stand before and after loop iteration i of Node.Serialize. */
  lemma SlotCursors(v: NodeValue, len: nat, i: nat)
    requires SerializeSafe(v, len) && i < |v.items|
    ensures SlotPos(Internal(v), i + 1) == SlotPos(Internal(v), i) + (if Internal(v) then 10 else 2) <= len
    ensures TailPos(v, len, i + 1) == TailPos(v, len, i) - |v.items[i].key| - |v.items[i].value| - 2 >= 0
    ensures TailPos(v, len, i) <= len
    ensures Internal(v) ==> i < |v.children|
  {
    PayloadMonotone(v.items, i + 1, |v.items|);
  }

  /** The header writes of Node.Serialize: leaf flag, parent id and item count. */
  method PutHeader(head: Serializer, leaf: byte, parent: u64, count: u16)
    requires head.direction == FORWARDS && head.position == 0 && 11 <= head.buffer.Length
    modifies head, head.buffer
    ensures head.position == 11
    ensures head.buffer[..] == Splice(Splice(Splice(old(head.buffer[..]), 0, [leaf]), 1, LE(parent, 8)), 9, LE(count, 2))
  {
    head.PutUint8(leaf);
    head.PutUint64(parent);
    head.PutUint16(count);
  }

  /** The writes PutSlot performs for item i are loop iteration i of the image. */
  lemma SlotStep(before: seq<byte>, after: seq<byte>, v: NodeValue, i: nat, child: u64, h: nat, t: int)
    requires SerializeSafe(v, |before|) && i < |v.items|
    requires Internal(v) ==> child == v.children[i]
    requires h == SlotPos(Internal(v), i) && t == TailPos(v, |before|, i)
    requires PayloadSize(v.items, i + 1) <= |before| - 1
    requires var it := v.items[i]; var off := t - |it.key| - |it.value| - 2;
      && (if Internal(v) then h + 10 else h + 2) <= |before|
      && 0 <= off && off + 2 + |it.key| + |it.value| <= |before|
      && after == WriteSlot(before, Internal(v), h, if Internal(v) then LE(child, 8) else [],
                            LE(off % 0x1_0000, 2), off, it.key, it.value)
    ensures after == ItemImage(before, v, i)
  {
  }

  /** One iteration of Node.Serialize's loop: the child id (internal nodes only) and the
      payload offset through the head cursor, then value and key, each behind its length,
      through the tail cursor. */
  method PutSlot(head: Serializer, tail: Serializer, internal: bool, child: u64, key: seq<byte>, value: seq<byte>)
    requires head.buffer == tail.buffer && head != tail
    requires head.direction == FORWARDS && tail.direction == BACKWARDS
    requires 0 <= head.position && head.position + (if internal then 10 else 2) <= head.buffer.Length
    requires 0 <= tail.position - |key| - |value| - 2 && tail.position <= head.buffer.Length
    modifies head, tail, head.buffer
    ensures head.position == old(head.position) + (if internal then 10 else 2)
    ensures tail.position == old(tail.position) - |key| - |value| - 2
    ensures var off := old(tail.position) - |key| - |value| - 2;
      head.buffer[..] == WriteSlot(old(head.buffer[..]), internal, old(head.position),
                                   if internal then LE(child, 8) else [], LE(off % 0x1_0000, 2), off, key, value)
  {
    ghost var before := head.buffer[..];
    ghost var h := head.position;
    if internal {
      head.PutUint64(child);
    }
    var offset := tail.position - |key| - |value| - 2;
    head.PutUint16(offset % 0x1_0000);
    ghost var headDone := head.buffer[..];
    assert headDone == WriteHead(before, internal, h, if internal then LE(child, 8) else [], LE(offset % 0x1_0000, 2));
    tail.Put(value);
    tail.PutUint8(|value| % 256);
    ghost var valueDone := head.buffer[..];
    assert valueDone == WriteField(headDone, offset + 1 + |key|, value);
    tail.Put(key);
    tail.PutUint8(|key| % 256);
    assert head.buffer[..] == WriteField(valueDone, offset, key);
  }

  /** The payload reads of Node.Deserialize: key length, key, value length, value, each
      read at the offset the previous one leaves. */
  method ReadPayload(buf: seq<byte>, off: nat) returns (item: Item)
    requires PayloadOk(buf, off)
    ensures item == DecodeItem(buf, off)
  {
    var offset := off;
    var klen: nat := buf[offset];
    offset := offset + 1;
    var key := buf[offset..offset + klen];
    offset := offset + klen;

    var vlen: nat := buf[offset];
    offset := offset + 1;
    var value := buf[offset..offset + vlen];

    item := Item(key, value);
  }

  /** A fresh node with id and parent 0 holding s inserted item by item, as Split builds its halves. */
  method FromItems(s: seq<Item>) returns (a: Node)
    ensures fresh(a) && a.id == 0 && a.Value() == NodeValue(0, InsertAll([], s), [])
  {
    a := new Node(0, 0, [], []);
    for k := 0 to |s|
      invariant a.items == InsertAll([], s[..k]) && a.children == [] && a.parent == 0 && a.id == 0
    {
      assert s[..k + 1] == s[..k] + [s[k]];
      InsertAllSnoc([], s[..k], s[k]);
      var _ := a.Insert(s[k]);
    }
    assert s[..|s|] == s;
  }

  /** AddChild(i, cs[i]) for each i in turn on a node without children. */
  method AddChildren(a: Node, cs: seq<u64>)
    requires a.children == []
    modifies a
    ensures a.children == cs && a.items == old(a.items) && a.parent == old(a.parent) && a.id == old(a.id)
  {
    for k := 0 to |cs|
      invariant a.children == cs[..k] && a.items == old(a.items) && a.parent == old(a.parent) && a.id == old(a.id)
    {
      assert cs[..k + 1] == cs[..k] + [cs[k]];
      a.AddChild(k, cs[k]);
    }
    assert cs[..|cs|] == cs;
  }

  /** Split(n): the two halves as fresh nodes with id and parent 0, and the promoted median. */
  method Split(n: Node) returns (a: Node, b: Node, promoted: Item)
    requires |n.items| > 0
    ensures fresh(a) && fresh(b) && a != b
    ensures a.id == 0 && b.id == 0
    ensures a.Value() == SplitLeft(n.Value()) && b.Value() == SplitRight(n.Value())
    ensures promoted == Promoted(n.Value())
  {
    var point := |n.items| / 2;
    promoted := n.items[point];
    a := FromItems(n.items[..point]);
    b := FromItems(n.items[point + 1..]);
    if n.Leaf() {
      return;
    }
    var cpoint := (|n.children| + 1) / 2;
    AddChildren(a, n.children[..cpoint]);
    AddChildren(b, n.children[cpoint..]);
  }
}
