/** Fixed-width unsigned integers, their little-endian byte encoding and in-place byte writes. */
module Bytes {

  type byte = x: int | 0 <= x < 0x100
  type u16 = x: int | 0 <= x < 0x1_0000
  type u64 = x: int | 0 <= x < 0x1_0000_0000_0000_0000

  const U64_MODULUS: nat := 0x1_0000_0000_0000_0000

  function Pow256(w: nat): (r: nat)
    ensures r >= 1
  {
    if w == 0 then 1 else 256 * Pow256(w - 1)
  }

  /** The w-byte little-endian encoding of the low w bytes of x (encoding/binary's PutUintN). */
  function LE(x: nat, w: nat): (r: seq<byte>)
    ensures |r| == w
  {
    if w == 0 then [] else [x % 256] + LE(x / 256, w - 1)
  }

  /** The number a little-endian byte sequence denotes (encoding/binary's UintN). */
  function FromLE(s: seq<byte>): (r: nat)
    ensures r < Pow256(|s|)
  {
    if s == [] then 0 else s[0] + 256 * FromLE(s[1..])
  }

  lemma {:induction false} FromLEOfLE(x: nat, w: nat)
    requires x < Pow256(w)
    ensures FromLE(LE(x, w)) == x
  {
    if w > 0 {
      FromLEOfLE(x / 256, w - 1);
      assert LE(x, w)[1..] == LE(x / 256, w - 1);
    }
  }

  lemma {:induction false} LEOfFromLE(s: seq<byte>)
    ensures LE(FromLE(s), |s|) == s
  {
    if s != [] {
      LEOfFromLE(s[1..]);
      assert FromLE(s) / 256 == FromLE(s[1..]);
    }
  }

  /** An all-zero buffer, as make([]byte, n) returns. */
  function Zeros(n: nat): (r: seq<byte>)
    ensures |r| == n && forall k :: 0 <= k < n ==> r[k] == 0
  {
    seq(n, _ => 0)
  }

  /** buf with data written at pos, the effect of copy(buf[pos:], data) when data fits. */
  function Splice(buf: seq<byte>, pos: nat, data: seq<byte>): (r: seq<byte>)
    requires pos + |data| <= |buf|
    ensures |r| == |buf|
  {
    seq(|buf|, k requires 0 <= k < |buf| => if pos <= k < pos + |data| then data[k - pos] else buf[k])
  }

  /** data sits at pos in buf. */
  predicate BytesAt(buf: seq<byte>, pos: int, data: seq<byte>)
  {
    0 <= pos && pos + |data| <= |buf| && forall k :: 0 <= k < |data| ==> buf[pos + k] == data[k]
  }

  lemma BytesAtSlice(buf: seq<byte>, pos: int, data: seq<byte>)
    requires BytesAt(buf, pos, data)
    ensures buf[pos..pos + |data|] == data
  {
  }

  /** b and c hold the same bytes on [lo, hi). */
  predicate Agree(b: seq<byte>, c: seq<byte>, lo: int, hi: int)
  {
    |b| == |c| && forall k {:trigger b[k], c[k]} :: 0 <= k < |b| && lo <= k < hi ==> b[k] == c[k]
  }

  lemma AgreeTrans(a: seq<byte>, b: seq<byte>, c: seq<byte>, lo: int, hi: int)
    requires Agree(a, b, lo, hi) && Agree(b, c, lo, hi)
    ensures Agree(a, c, lo, hi)
  {
    forall k | 0 <= k < |a| && lo <= k < hi
      ensures a[k] == c[k]
    {
      assert a[k] == b[k];
    }
  }

  lemma BytesAtTransfer(b: seq<byte>, c: seq<byte>, pos: int, data: seq<byte>)
    requires BytesAt(b, pos, data) && Agree(b, c, pos, pos + |data|)
    ensures BytesAt(c, pos, data)
  {
    forall k | 0 <= k < |data|
      ensures c[pos + k] == data[k]
    {
      assert b[pos + k] == data[k];
    }
  }

  lemma SpliceLayout(b: seq<byte>, pos: nat, data: seq<byte>)
    requires pos + |data| <= |b|
    ensures BytesAt(Splice(b, pos, data), pos, data)
    ensures Agree(b, Splice(b, pos, data), 0, pos) && Agree(b, Splice(b, pos, data), pos + |data|, |b|)
  {
  }

  lemma SpliceKeeps(b: seq<byte>, pos: nat, data: seq<byte>, q: int, d: seq<byte>)
    requires pos + |data| <= |b| && BytesAt(b, q, d)
    requires pos + |data| <= q || q + |d| <= pos
    ensures BytesAt(Splice(b, pos, data), q, d)
  {
    BytesAtTransfer(b, Splice(b, pos, data), q, d);
  }
}
