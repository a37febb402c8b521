/** The round trip of the node page codec: Node.Serialize writes every field where
    Node.Deserialize reads it, so Deserialize(Serialize(n)) restores n when n fits its page. */
module NodeCodec {
  import opened Bytes
  import opened Keys
  import opened NodeFormat

  lemma HeaderTransfer(b: seq<byte>, c: seq<byte>, v: NodeValue)
    requires HeaderLayout(b, v) && Agree(b, c, 0, 11)
    ensures HeaderLayout(c, v)
  {
    BytesAtTransfer(b, c, 0, [LeafFlag(v)]);
    BytesAtTransfer(b, c, 1, LE(v.parent, 8));
    BytesAtTransfer(b, c, 9, LE(|v.items| % 0x1_0000, 2));
  }

  /** A slot whose head part lies below h and whose payload lies at or above t survives
      any change outside those regions. */
  lemma SlotTransfer(b: seq<byte>, c: seq<byte>, v: NodeValue, j: nat, h: int, t: int)
    requires j < |v.items| && SlotLayout(b, v, j)
    requires SlotPos(Internal(v), j + 1) <= h && t <= TailPos(v, |b|, j + 1)
    requires Agree(b, c, 0, h) && Agree(b, c, t, |b|)
    ensures SlotLayout(c, v, j)
  {
    var it := v.items[j];
    var off := TailPos(v, |b|, j + 1);
    if Internal(v) {
      BytesAtTransfer(b, c, SlotPos(true, j), LE(v.children[j], 8));
    }
    BytesAtTransfer(b, c, OffsetPos(Internal(v), j), LE(off, 2));
    BytesAtTransfer(b, c, off, [|it.key| % 256]);
    BytesAtTransfer(b, c, off + 1, it.key);
    BytesAtTransfer(b, c, off + 1 + |it.key|, [|it.value| % 256]);
    BytesAtTransfer(b, c, off + 2 + |it.key|, it.value);
  }

  lemma WriteFieldLayout(b: seq<byte>, pos: nat, data: seq<byte>)
    requires pos + 1 + |data| <= |b|
    ensures BytesAt(WriteField(b, pos, data), pos, [|data| % 256])
    ensures BytesAt(WriteField(b, pos, data), pos + 1, data)
    ensures Agree(b, WriteField(b, pos, data), 0, pos)
    ensures Agree(b, WriteField(b, pos, data), pos + 1 + |data|, |b|)
  {
    SpliceKeeps(Splice(b, pos + 1, data), pos, [|data| % 256], pos + 1, data);
  }

  lemma WriteHeadLayout(b: seq<byte>, internal: bool, h: nat, child: seq<byte>, offb: seq<byte>)
    requires (internal ==> |child| == 8) && |offb| == 2
    requires (if internal then h + 10 else h + 2) <= |b|
    ensures var r := WriteHead(b, internal, h, child, offb);
      && (internal ==> BytesAt(r, h, child))
      && BytesAt(r, if internal then h + 8 else h, offb)
      && Agree(b, r, 0, h)
      && Agree(b, r, if internal then h + 10 else h + 2, |b|)
  {
    if internal {
      SpliceKeeps(Splice(b, h, child), h + 8, offb, h, child);
    }
  }

  /** The three parts of a slot written one after the other leave all six fields in place. */
  lemma CombineSlot(b: seq<byte>, b2: seq<byte>, b3: seq<byte>, b4: seq<byte>, internal: bool, h: nat,
                    child: seq<byte>, offb: seq<byte>, off: nat, key: seq<byte>, value: seq<byte>)
    requires |b2| == |b| && |b3| == |b| && |b4| == |b|
    requires (internal ==> |child| == 8) && |offb| == 2
    requires (if internal then h + 10 else h + 2) <= off
    requires off + 2 + |key| + |value| <= |b|
    requires (internal ==> BytesAt(b2, h, child)) && BytesAt(b2, if internal then h + 8 else h, offb)
    requires Agree(b, b2, 0, h) && Agree(b, b2, if internal then h + 10 else h + 2, |b|)
    requires BytesAt(b3, off + 1 + |key|, [|value| % 256]) && BytesAt(b3, off + 2 + |key|, value)
    requires Agree(b2, b3, 0, off + 1 + |key|) && Agree(b2, b3, off + 2 + |key| + |value|, |b|)
    requires BytesAt(b4, off, [|key| % 256]) && BytesAt(b4, off + 1, key)
    requires Agree(b3, b4, 0, off) && Agree(b3, b4, off + 1 + |key|, |b|)
    ensures SlotAt(b4, internal, h, child, offb, off, key, value)
    ensures Agree(b, b4, 0, h) && Agree(b, b4, off + 2 + |key| + |value|, |b|)
  {
    var o := if internal then h + 8 else h;
    var t := off + 2 + |key| + |value|;
    AgreeTrans(b, b2, b3, 0, h);
    AgreeTrans(b, b3, b4, 0, h);
    AgreeTrans(b, b2, b3, t, |b|);
    AgreeTrans(b, b3, b4, t, |b|);
    if internal {
      BytesAtTransfer(b2, b3, h, child);
      BytesAtTransfer(b3, b4, h, child);
    }
    BytesAtTransfer(b2, b3, o, offb);
    BytesAtTransfer(b3, b4, o, offb);
    BytesAtTransfer(b3, b4, off + 1 + |key|, [|value| % 256]);
    BytesAtTransfer(b3, b4, off + 2 + |key|, value);
  }

  lemma WriteSlotLayout(b: seq<byte>, internal: bool, h: nat, child: seq<byte>, offb: seq<byte>,
                        off: nat, key: seq<byte>, value: seq<byte>)
    requires (internal ==> |child| == 8) && |offb| == 2
    requires (if internal then h + 10 else h + 2) <= off
    requires off + 2 + |key| + |value| <= |b|
    ensures var r := WriteSlot(b, internal, h, child, offb, off, key, value);
      && SlotAt(r, internal, h, child, offb, off, key, value)
      && Agree(b, r, 0, h)
      && Agree(b, r, off + 2 + |key| + |value|, |b|)
  {
    var b2 := WriteHead(b, internal, h, child, offb);
    var b3 := WriteField(b2, off + 1 + |key|, value);
    var b4 := WriteField(b3, off, key);
    WriteHeadLayout(b, internal, h, child, offb);
    WriteFieldLayout(b2, off + 1 + |key|, value);
    WriteFieldLayout(b3, off, key);
    CombineSlot(b, b2, b3, b4, internal, h, child, offb, off, key, value);
  }

  /** The fields WriteSlot leaves in r, seen as slot i of v. */
  lemma SlotFromAt(b: seq<byte>, r: seq<byte>, v: NodeValue, i: nat, off: int)
    requires Separated(v, |b|) && i < |v.items| && |r| == |b|
    requires off == TailPos(v, |b|, i + 1) && 0 <= off < 0x1_0000
    requires SlotAt(r, Internal(v), SlotPos(Internal(v), i), if Internal(v) then LE(v.children[i], 8) else [],
                    LE(off % 0x1_0000, 2), off, v.items[i].key, v.items[i].value)
    ensures SlotLayout(r, v, i)
  {
    assert off % 0x1_0000 == off;
  }

  /** Where slot i and its payload lie in a page whose head and tail regions are separated. */
  lemma SlotBounds(v: NodeValue, len: nat, i: nat)
    requires Separated(v, len) && i < |v.items|
    ensures SlotPos(Internal(v), i) + (if Internal(v) then 10 else 2) <= TailPos(v, len, i + 1)
    ensures TailPos(v, len, i + 1) + 2 + |v.items[i].key| + |v.items[i].value| == TailPos(v, len, i)
    ensures TailPos(v, len, i) <= len - 1 < 0x1_0000
  {
    PayloadMonotone(v.items, i + 1, |v.items|);
  }

  lemma ItemImageSlot(b: seq<byte>, v: NodeValue, i: nat)
    requires Separated(v, |b|) && i < |v.items|
    ensures SlotLayout(ItemImage(b, v, i), v, i)
  {
    SlotBounds(v, |b|, i);
    var it := v.items[i];
    var internal := Internal(v);
    var off := TailPos(v, |b|, i) - |it.key| - |it.value| - 2;
    var child := if internal then LE(v.children[i], 8) else [];
    WriteSlotLayout(b, internal, SlotPos(internal, i), child, LE(off % 0x1_0000, 2), off, it.key, it.value);
    SlotFromAt(b, ItemImage(b, v, i), v, i, off);
  }

  lemma ItemImageFrame(b: seq<byte>, v: NodeValue, i: nat)
    requires Separated(v, |b|) && i < |v.items|
    ensures Agree(b, ItemImage(b, v, i), 0, SlotPos(Internal(v), i))
    ensures Agree(b, ItemImage(b, v, i), TailPos(v, |b|, i), |b|)
  {
    SlotBounds(v, |b|, i);
    var it := v.items[i];
    var internal := Internal(v);
    var off := TailPos(v, |b|, i) - |it.key| - |it.value| - 2;
    var child := if internal then LE(v.children[i], 8) else [];
    WriteSlotLayout(b, internal, SlotPos(internal, i), child, LE(off % 0x1_0000, 2), off, it.key, it.value);
  }

  /** Loop iteration i puts item i in place and touches nothing below its slot or above its payload. */
  lemma ItemImageLayout(b: seq<byte>, v: NodeValue, i: nat)
    requires Separated(v, |b|) && i < |v.items|
    ensures SlotLayout(ItemImage(b, v, i), v, i)
    ensures Agree(b, ItemImage(b, v, i), 0, SlotPos(Internal(v), i))
    ensures Agree(b, ItemImage(b, v, i), TailPos(v, |b|, i), |b|)
  {
    ItemImageSlot(b, v, i);
    ItemImageFrame(b, v, i);
  }

  /** Adding slot i to a buffer holding the header and slots below i. */
  lemma StepLayout(b: seq<byte>, c: seq<byte>, v: NodeValue, i: nat)
    requires Separated(v, |b|) && i < |v.items| && |c| == |b|
    requires HeaderLayout(b, v) && forall j :: 0 <= j < i ==> SlotLayout(b, v, j)
    requires SlotLayout(c, v, i) && Agree(b, c, 0, SlotPos(Internal(v), i)) && Agree(b, c, TailPos(v, |b|, i), |b|)
    ensures HeaderLayout(c, v) && forall j :: 0 <= j < i + 1 ==> SlotLayout(c, v, j)
  {
    HeaderTransfer(b, c, v);
    forall j | 0 <= j < i
      ensures SlotLayout(c, v, j)
    {
      PayloadMonotone(v.items, j + 1, i);
      SlotTransfer(b, c, v, j, SlotPos(Internal(v), i), TailPos(v, |b|, i));
    }
  }

  lemma HeaderImageLayout(b0: seq<byte>, v: NodeValue)
    requires 11 <= |b0|
    ensures HeaderLayout(HeaderImage(b0, v), v)
  {
    var b1 := Splice(b0, 0, [LeafFlag(v)]);
    var b2 := Splice(b1, 1, LE(v.parent, 8));
    SpliceKeeps(b1, 1, LE(v.parent, 8), 0, [LeafFlag(v)]);
    SpliceKeeps(b2, 9, LE(|v.items| % 0x1_0000, 2), 0, [LeafFlag(v)]);
    SpliceKeeps(b2, 9, LE(|v.items| % 0x1_0000, 2), 1, LE(v.parent, 8));
  }

  lemma {:induction false} ItemsImageLayout(b0: seq<byte>, v: NodeValue, i: nat)
    requires Separated(v, |b0|) && i <= |v.items|
    ensures HeaderLayout(ItemsImage(b0, v, i), v)
    ensures forall j :: 0 <= j < i ==> SlotLayout(ItemsImage(b0, v, i), v, j)
    decreases i
  {
    if i == 0 {
      HeaderImageLayout(b0, v);
    } else {
      ItemsImageLayout(b0, v, i - 1);
      var b := ItemsImage(b0, v, i - 1);
      ItemImageLayout(b, v, i - 1);
      StepLayout(b, ItemImage(b, v, i - 1), v, i - 1);
    }
  }

  /** Writing the last child id of an internal node after all slots. */
  lemma LastChildStep(b: seq<byte>, c: seq<byte>, v: NodeValue)
    requires Separated(v, |b|) && Internal(v) && |c| == |b|
    requires HeaderLayout(b, v) && forall j :: 0 <= j < |v.items| ==> SlotLayout(b, v, j)
    requires BytesAt(c, SlotPos(true, |v.items|), LE(v.children[|v.children| - 1], 8))
    requires Agree(b, c, 0, SlotPos(true, |v.items|)) && Agree(b, c, HeadEnd(v), |b|)
    ensures Layout(c, v)
  {
    var n := |v.items|;
    HeaderTransfer(b, c, v);
    forall j | 0 <= j < n
      ensures SlotLayout(c, v, j)
    {
      PayloadMonotone(v.items, j + 1, n);
      SlotTransfer(b, c, v, j, SlotPos(true, n), TailPos(v, |b|, n));
    }
  }

  /** Node.Serialize lays out every field where Deserialize looks for it. */
  lemma NodeImageLayout(b0: seq<byte>, v: NodeValue)
    requires Separated(v, |b0|)
    ensures Layout(NodeImage(b0, v), v)
  {
    var n := |v.items|;
    ItemsImageLayout(b0, v, n);
    var b := ItemsImage(b0, v, n);
    if Internal(v) {
      SpliceLayout(b, SlotPos(true, n), LE(v.children[|v.children| - 1], 8));
      LastChildStep(b, Splice(b, SlotPos(true, n), LE(v.children[|v.children| - 1], 8)), v);
    }
  }

  lemma ReadLE(buf: seq<byte>, pos: nat, x: nat, w: nat)
    requires BytesAt(buf, pos, LE(x, w)) && x < Pow256(w)
    ensures pos + w <= |buf| && ReadAt(buf, pos, w) == x
  {
    BytesAtSlice(buf, pos, LE(x, w));
    FromLEOfLE(x, w);
  }

  lemma ReadByte(buf: seq<byte>, pos: nat, x: byte)
    requires BytesAt(buf, pos, [x])
    ensures pos < |buf| && buf[pos] == x
  {
    assert buf[pos + 0] == [x][0];
  }

  /** A length-prefixed key followed by a length-prefixed value decodes to that item. */
  lemma PayloadDecodes(buf: seq<byte>, off: nat, key: seq<byte>, value: seq<byte>)
    requires |key| < 256 && |value| < 256 && off + 2 + |key| + |value| < 0x1_0000
    requires BytesAt(buf, off, [|key| % 256]) && BytesAt(buf, off + 1, key)
    requires BytesAt(buf, off + 1 + |key|, [|value| % 256]) && BytesAt(buf, off + 2 + |key|, value)
    ensures PayloadOk(buf, off) && DecodeItem(buf, off) == Item(key, value)
  {
    ReadByte(buf, off, |key| % 256);
    ReadByte(buf, off + 1 + |key|, |value| % 256);
    BytesAtSlice(buf, off + 1, key);
    BytesAtSlice(buf, off + 2 + |key|, value);
  }

  /** What Deserialize reads for slot i of v. */
  predicate SlotDecoded(buf: seq<byte>, v: NodeValue, i: nat)
    requires i < |v.items|
  {
    && OffsetPos(Internal(v), i) + 2 <= |buf|
    && PayloadOk(buf, ReadAt(buf, OffsetPos(Internal(v), i), 2))
    && DecodeItem(buf, ReadAt(buf, OffsetPos(Internal(v), i), 2)) == v.items[i]
    && (Internal(v) ==> SlotPos(true, i) + 8 <= |buf| && i < |v.children| && ReadU64(buf, SlotPos(true, i)) == v.children[i])
  }

  lemma SlotDecodes(buf: seq<byte>, v: NodeValue, i: nat)
    requires i < |v.items| && SlotLayout(buf, v, i) && |buf| <= 0x1_0000
    requires |v.items[i].key| < 256 && |v.items[i].value| < 256
    ensures SlotDecoded(buf, v, i)
  {
    Pow256Values();
    var it := v.items[i];
    var off := TailPos(v, |buf|, i + 1);
    assert off + 2 + |it.key| + |it.value| == TailPos(v, |buf|, i);
    ReadLE(buf, OffsetPos(Internal(v), i), off, 2);
    PayloadDecodes(buf, off, it.key, it.value);
    if Internal(v) {
      ReadLE(buf, SlotPos(true, i), v.children[i], 8);
    }
  }

  lemma HeaderDecodes(buf: seq<byte>, v: NodeValue)
    requires HeaderLayout(buf, v) && |v.items| < 0x1_0000 && 11 <= |buf|
    ensures buf[0] == LeafFlag(v) && ItemCount(buf) == |v.items| && ReadU64(buf, 1) == v.parent
  {
    Pow256Values();
    ReadByte(buf, 0, LeafFlag(v));
    ReadLE(buf, 9, |v.items|, 2);
    ReadLE(buf, 1, v.parent, 8);
  }

  /** A page whose every field reads back as v's decodes to v. */
  lemma DecodesTo(buf: seq<byte>, v: NodeValue)
    requires 11 <= |buf| && buf[0] == LeafFlag(v) && ItemCount(buf) == |v.items| && ReadU64(buf, 1) == v.parent
    requires v.children == [] || |v.children| == |v.items| + 1
    requires forall i :: 0 <= i < |v.items| ==> SlotDecoded(buf, v, i)
    requires Internal(v) ==>
      SlotPos(true, |v.items|) + 8 <= |buf| && ReadU64(buf, SlotPos(true, |v.items|)) == v.children[|v.items|]
    ensures Decodable(buf) && DecodeNode(buf) == v
  {
    var n := |v.items|;
    var internal := buf[0] == 0;
    assert internal == Internal(v);
    if !internal && n > 0 {
      assert SlotDecoded(buf, v, n - 1);
    }
    forall i | 0 <= i < n
      ensures SlotOk(buf, internal, i)
    {
      assert SlotDecoded(buf, v, i);
    }
    assert Decodable(buf);
    var d := DecodeNode(buf);
    forall i | 0 <= i < n
      ensures d.items[i] == v.items[i]
    {
      assert SlotDecoded(buf, v, i);
    }
    assert d.items == v.items;
    if internal {
      forall i | 0 <= i < n
        ensures d.children[i] == v.children[i]
      {
        assert SlotDecoded(buf, v, i);
      }
      assert d.children == v.children;
    }
  }

  /** A page laid out for v decodes to v. */
  lemma LayoutDecodes(buf: seq<byte>, v: NodeValue)
    requires Fits(v, |buf|) && Layout(buf, v)
    ensures Decodable(buf) && DecodeNode(buf) == v
  {
    var n := |v.items|;
    HeaderDecodes(buf, v);
    forall i | 0 <= i < n
      ensures SlotDecoded(buf, v, i)
    {
      SlotDecodes(buf, v, i);
    }
    if Internal(v) {
      Pow256Values();
      ReadLE(buf, SlotPos(true, n), v.children[n], 8);
    }
    DecodesTo(buf, v);
  }

  /** Deserialize(Serialize(n)) restores parent, items and children of a node that fits its page;
      byte 0 is 1 exactly for a leaf. */
  lemma NodeRoundTrip(b0: seq<byte>, v: NodeValue)
    requires Fits(v, |b0|)
    ensures Decodable(NodeImage(b0, v)) && DecodeNode(NodeImage(b0, v)) == v
    ensures NodeImage(b0, v)[0] == 1 <==> v.children == []
  {
    NodeImageLayout(b0, v);
    LayoutDecodes(NodeImage(b0, v), v);
    HeaderDecodes(NodeImage(b0, v), v);
  }
}
