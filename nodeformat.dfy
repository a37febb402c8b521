/** The page layout of one B-tree node (node.go, Node.Serialize and Node.Deserialize).

    Head region, growing forward from byte 0:
      byte 0 leaf flag (1 for a leaf), bytes 1..9 parent id, bytes 9..11 item count,
      then per item [child id (8 bytes, internal nodes only)] payload offset (2 bytes),
      then, for internal nodes, the last child id.
    Tail region, growing backward from byte len-1 (the last byte is never written):
      per item, at its offset: key length (1 byte), key, value length (1 byte), value.
    All integers are little-endian. */
module NodeFormat {
  import opened Bytes
  import opened Keys

  /** The persistent content of a node: what a page stores. */
  datatype NodeValue = NodeValue(parent: u64, items: seq<Item>, children: seq<u64>)

  /** n.Parent(): the node has children. */
  predicate Internal(v: NodeValue)
  {
    |v.children| > 0
  }

  function LeafFlag(v: NodeValue): byte
  {
    if v.children == [] then 1 else 0
  }

  /** Head cursor before the slot of item i. */
  function SlotPos(internal: bool, i: nat): nat
  {
    if internal then 11 + 10 * i else 11 + 2 * i
  }

  /** Position of item i's 2-byte payload offset. */
  function OffsetPos(internal: bool, i: nat): nat
  {
    if internal then SlotPos(internal, i) + 8 else SlotPos(internal, i)
  }

  /** First byte after the head region. */
  function HeadEnd(v: NodeValue): nat
  {
    if Internal(v) then SlotPos(true, |v.items|) + 8 else SlotPos(false, |v.items|)
  }

  /** Bytes taken in the tail region by the first i items. */
  function PayloadSize(items: seq<Item>, i: nat): nat
    requires i <= |items|
  {
    if i == 0 then 0 else PayloadSize(items, i - 1) + |items[i - 1].key| + |items[i - 1].value| + 2
  }

  lemma {:induction false} PayloadMonotone(items: seq<Item>, i: nat, j: nat)
    requires i <= j <= |items|
    ensures PayloadSize(items, i) + 2 * (j - i) <= PayloadSize(items, j)
    decreases j
  {
    if i < j {
      PayloadMonotone(items, i, j - 1);
    }
  }

  /** Tail cursor before item i; item i's payload occupies [TailPos(i+1), TailPos(i)). */
  function TailPos(v: NodeValue, len: nat, i: nat): int
    requires i <= |v.items|
  {
    len - 1 - PayloadSize(v.items, i)
  }

  /** Node.Serialize on a buffer of length len does not index out of range. */
  predicate SerializeSafe(v: NodeValue, len: nat)
  {
    && 11 <= len
    && (Internal(v) ==> |v.items| <= |v.children|)
    && HeadEnd(v) <= len
    && PayloadSize(v.items, |v.items|) <= len - 1
  }

  /** The head region ends before the tail region starts, and every offset fits 16 bits. */
  predicate Separated(v: NodeValue, len: nat)
  {
    && SerializeSafe(v, len)
    && len <= 0x1_0000
    && HeadEnd(v) <= TailPos(v, len, |v.items|)
  }

  /** The node fits its page: the codec round-trips it. */
  predicate Fits(v: NodeValue, len: nat)
  {
    && Separated(v, len)
    && |v.items| < 0x1_0000
    && (v.children == [] || |v.children| == |v.items| + 1)
    && (forall i :: 0 <= i < |v.items| ==> |v.items[i].key| < 256 && |v.items[i].value| < 256)
  }

  /** The three header writes. */
  function HeaderImage(b: seq<byte>, v: NodeValue): (r: seq<byte>)
    requires 11 <= |b|
    ensures |r| == |b|
  {
    Splice(Splice(Splice(b, 0, [LeafFlag(v)]), 1, LE(v.parent, 8)), 9, LE(|v.items| % 0x1_0000, 2))
  }

  /** A length-prefixed field written backwards: the bytes at pos+1, then their length at pos. */
  function WriteField(b: seq<byte>, pos: nat, data: seq<byte>): (r: seq<byte>)
    requires pos + 1 + |data| <= |b|
    ensures |r| == |b|
  {
    Splice(Splice(b, pos + 1, data), pos, [|data| % 256])
  }

  /** The head part of one slot: child id at h (internal nodes only), then the payload offset. */
  function WriteHead(b: seq<byte>, internal: bool, h: nat, child: seq<byte>, offb: seq<byte>): (r: seq<byte>)
    requires (internal ==> |child| == 8) && |offb| == 2
    requires (if internal then h + 10 else h + 2) <= |b|
    ensures |r| == |b|
  {
    var b1 := if internal then Splice(b, h, child) else b;
    Splice(b1, if internal then h + 8 else h, offb)
  }

  /** One slot's writes: the head part, then value and key as length-prefixed fields
      backwards from the end of the payload. */
  function WriteSlot(b: seq<byte>, internal: bool, h: nat, child: seq<byte>, offb: seq<byte>,
                     off: nat, key: seq<byte>, value: seq<byte>): (r: seq<byte>)
    requires (internal ==> |child| == 8) && |offb| == 2
    requires (if internal then h + 10 else h + 2) <= |b|
    requires off + 2 + |key| + |value| <= |b|
    ensures |r| == |b|
  {
    WriteField(WriteField(WriteHead(b, internal, h, child, offb), off + 1 + |key|, value), off, key)
  }

  /** The writes of loop iteration i of Node.Serialize. */
  function ItemImage(b: seq<byte>, v: NodeValue, i: nat): (r: seq<byte>)
    requires SerializeSafe(v, |b|) && i < |v.items|
    ensures |r| == |b|
  {
    PayloadMonotone(v.items, i + 1, |v.items|);
    var it := v.items[i];
    var internal := Internal(v);
    var t := TailPos(v, |b|, i);
    var off := t - |it.key| - |it.value| - 2;
    WriteSlot(b, internal, SlotPos(internal, i), if internal then LE(v.children[i], 8) else [],
              LE(off % 0x1_0000, 2), off, it.key, it.value)
  }

  /** The buffer after the header and the first i loop iterations. */
  function ItemsImage(b0: seq<byte>, v: NodeValue, i: nat): (r: seq<byte>)
    requires SerializeSafe(v, |b0|) && i <= |v.items|
    ensures |r| == |b0|
    decreases i
  {
    if i == 0 then HeaderImage(b0, v) else ItemImage(ItemsImage(b0, v, i - 1), v, i - 1)
  }

  /** The buffer after Node.Serialize(b0). */
  function NodeImage(b0: seq<byte>, v: NodeValue): (r: seq<byte>)
    requires SerializeSafe(v, |b0|)
    ensures |r| == |b0|
  {
    var b := ItemsImage(b0, v, |v.items|);
    if Internal(v) then Splice(b, SlotPos(true, |v.items|), LE(v.children[|v.children| - 1], 8)) else b
  }

  // ---------------------------------------------------------------------------------------
  // Decoding

  /** The payload at off can be read without indexing out of range and without the
      16-bit offset arithmetic of Node.Deserialize wrapping around. */
  predicate PayloadOk(buf: seq<byte>, off: nat)
  {
    off < |buf| &&
    var kl := buf[off];
    off + 1 + kl < |buf| &&
    var vl := buf[off + 1 + kl];
    off + 2 + kl + vl <= |buf| && off + 2 + kl + vl < 0x1_0000
  }

  /** The item whose payload starts at off: each step of Node.Deserialize's offset arithmetic. */
  function DecodeItem(buf: seq<byte>, off: nat): Item
    requires PayloadOk(buf, off)
  {
    var klen := buf[off];
    var keyAt := off + 1;
    var vlenAt := keyAt + klen;
    var vlen := buf[vlenAt];
    var valueAt := vlenAt + 1;
    Item(buf[keyAt .. keyAt + klen], buf[valueAt .. valueAt + vlen])
  }

  function ItemCount(buf: seq<byte>): nat
    requires 11 <= |buf|
  {
    FromLE(buf[9..11])
  }

  /** The number Deserialize reads at pos. */
  function ReadAt(buf: seq<byte>, pos: nat, w: nat): nat
    requires pos + w <= |buf|
  {
    FromLE(buf[pos .. pos + w])
  }

  /** The payload offset of item i, and the payload it points to, are inside buf. */
  predicate SlotOk(buf: seq<byte>, internal: bool, i: nat)
  {
    OffsetPos(internal, i) + 2 <= |buf| && PayloadOk(buf, ReadAt(buf, OffsetPos(internal, i), 2))
  }

  /** Node.Deserialize(buf) reads only inside buf. */
  predicate Decodable(buf: seq<byte>)
  {
    && 11 <= |buf|
    && var internal := buf[0] == 0;
       var n := ItemCount(buf);
       && (if internal then SlotPos(true, n) + 8 else SlotPos(false, n)) <= |buf|
       && forall i :: 0 <= i < n ==> SlotOk(buf, internal, i)
  }

  lemma Pow256Values()
    ensures Pow256(1) == 256 && Pow256(2) == 0x1_0000 && Pow256(8) == U64_MODULUS
  {
  }

  function ReadU64(buf: seq<byte>, pos: nat): u64
    requires pos + 8 <= |buf|
  {
    Pow256Values();
    ReadAt(buf, pos, 8)
  }

  /** Item i of the page: the payload its slot's offset points at. */
  function SlotItem(buf: seq<byte>, i: nat): Item
    requires Decodable(buf) && i < ItemCount(buf)
  {
    assert SlotOk(buf, buf[0] == 0, i);
    DecodeItem(buf, ReadAt(buf, OffsetPos(buf[0] == 0, i), 2))
  }

  /** What Node.Deserialize(buf) sets parent, items and children to. */
  function DecodeNode(buf: seq<byte>): (v: NodeValue)
    requires Decodable(buf)
    ensures |v.items| == ItemCount(buf)
    ensures buf[0] == 0 <==> |v.children| == |v.items| + 1
    ensures buf[0] != 0 <==> v.children == []
  {
    var internal := buf[0] == 0;
    var n := ItemCount(buf);
    NodeValue(
      ReadU64(buf, 1),
      seq(n, i requires 0 <= i < n => SlotItem(buf, i)),
      if internal then
        seq(n, i requires 0 <= i < n => ReadU64(buf, SlotPos(true, i))) + [ReadU64(buf, SlotPos(true, n))]
      else [])
  }

  // ---------------------------------------------------------------------------------------
  // Layout: where Node.Serialize puts each field, and the proof that Deserialize reads it back

  predicate HeaderLayout(buf: seq<byte>, v: NodeValue)
  {
    BytesAt(buf, 0, [LeafFlag(v)]) && BytesAt(buf, 1, LE(v.parent, 8)) && BytesAt(buf, 9, LE(|v.items| % 0x1_0000, 2))
  }

  /** The six fields of one slot sit where WriteSlot puts them. */
  predicate SlotAt(buf: seq<byte>, internal: bool, h: nat, child: seq<byte>, offb: seq<byte>,
                   off: int, key: seq<byte>, value: seq<byte>)
  {
    && (internal ==> BytesAt(buf, h, child))
    && BytesAt(buf, if internal then h + 8 else h, offb)
    && BytesAt(buf, off, [|key| % 256])
    && BytesAt(buf, off + 1, key)
    && BytesAt(buf, off + 1 + |key|, [|value| % 256])
    && BytesAt(buf, off + 2 + |key|, value)
  }

  /** Item i's slot (head) and payload (tail) are in place. */
  predicate SlotLayout(buf: seq<byte>, v: NodeValue, i: nat)
    requires i < |v.items|
  {
    var off := TailPos(v, |buf|, i + 1);
    && 0 <= off < 0x1_0000
    && (Internal(v) ==> i < |v.children|)
    && SlotAt(buf, Internal(v), SlotPos(Internal(v), i), if Internal(v) then LE(v.children[i], 8) else [],
              LE(off, 2), off, v.items[i].key, v.items[i].value)
  }

  predicate Layout(buf: seq<byte>, v: NodeValue)
  {
    && HeaderLayout(buf, v)
    && (forall i :: 0 <= i < |v.items| ==> SlotLayout(buf, v, i))
    && (Internal(v) ==> BytesAt(buf, SlotPos(true, |v.items|), LE(v.children[|v.children| - 1], 8)))
  }
}
