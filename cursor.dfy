/** The two-direction cursor writer that the page codecs are built on (dal.go, type serializer). */
module Cursor {
  import opened Bytes

  const FORWARDS: int := 1
  const BACKWARDS: int := -1

  /** Go's copy(dst[pos:], src): copies as many bytes as fit and returns how many. */
  method CopyInto(dst: array<byte>, pos: nat, src: seq<byte>) returns (n: nat)
    requires pos <= dst.Length
    modifies dst
    ensures n == if |src| <= dst.Length - pos then |src| else dst.Length - pos
    ensures dst[..] == Splice(old(dst[..]), pos, src[..n])
  {
    n := if |src| <= dst.Length - pos then |src| else dst.Length - pos;
    for i := 0 to n
      invariant dst[..] == Splice(old(dst[..]), pos, src[..i])
    {
      dst[pos + i] := src[i];
      assert dst[..] == Splice(old(dst[..]), pos, src[..i + 1]);
    }
  }

  /** binary.LittleEndian.PutUint64(dst[pos:], x), which panics unless eight bytes fit. */
  method PutUint64At(dst: array<byte>, pos: nat, x: u64)
    requires pos + 8 <= dst.Length
    modifies dst
    ensures dst[..] == Splice(old(dst[..]), pos, LE(x, 8))
  {
    var n := CopyInto(dst, pos, LE(x, 8));
    assert LE(x, 8)[..n] == LE(x, 8);
  }

  class Serializer {
    var position: int
    const direction: int
    const buffer: array<byte>

    constructor (buffer: array<byte>, position: int, direction: int)
      ensures this.buffer == buffer && this.position == position && this.direction == direction
    {
      this.buffer := buffer;
      this.position := position;
      this.direction := direction;
    }

    /** Where a write of `width` bytes lands: a backward cursor steps back before writing,
        a forward one writes at its position and steps afterwards. */
    function Target(width: nat): int
      reads this
    {
      if direction < 0 then position + width * direction else position
    }

    method PutUint64(x: u64)
      requires 0 <= Target(8) && Target(8) + 8 <= buffer.Length
      modifies this, buffer
      ensures position == old(position) + 8 * direction
      ensures buffer[..] == Splice(old(buffer[..]), old(Target(8)), LE(x, 8))
    {
      if direction < 0 {
        position := position + 8 * direction;
      }
      var _ := CopyInto(buffer, position, LE(x, 8));
      if direction > 0 {
        position := position + 8 * direction;
      }
    }

    method PutUint16(x: u16)
      requires 0 <= Target(2) && Target(2) + 2 <= buffer.Length
      modifies this, buffer
      ensures position == old(position) + 2 * direction
      ensures buffer[..] == Splice(old(buffer[..]), old(Target(2)), LE(x, 2))
    {
      if direction < 0 {
        position := position + 2 * direction;
      }
      var _ := CopyInto(buffer, position, LE(x, 2));
      if direction > 0 {
        position := position + 2 * direction;
      }
    }

    method PutUint8(x: byte)
      requires 0 <= Target(1) < buffer.Length
      modifies this, buffer
      ensures position == old(position) + direction
      ensures buffer[..] == Splice(old(buffer[..]), old(Target(1)), [x])
    {
      if direction < 0 {
        position := position + direction;
      }
      buffer[position] := x;
      if direction > 0 {
        position := position + direction;
      }
    }

    /** Copies bytes at the target; like copy, it silently drops what does not fit. */
    method Put(bytes: seq<byte>)
      requires 0 <= Target(|bytes|) <= buffer.Length
      modifies this, buffer
      ensures position == old(position) + |bytes| * direction
      ensures var t := old(Target(|bytes|));
        var n := if |bytes| <= buffer.Length - t then |bytes| else buffer.Length - t;
        buffer[..] == Splice(old(buffer[..]), t, bytes[..n])
      ensures old(Target(|bytes|)) + |bytes| <= buffer.Length ==>
        buffer[..] == Splice(old(buffer[..]), old(Target(|bytes|)), bytes)
    {
      if direction < 0 {
        position := position + |bytes| * direction;
      }
      var _ := CopyInto(buffer, position, bytes);
      assert bytes[..|bytes|] == bytes;
      if direction > 0 {
        position := position + |bytes| * direction;
      }
    }

    method Step(steps: int)
      modifies this
      ensures position == old(position) + steps * direction
    {
      position := position + steps * direction;
    }

    function Position(): int
      reads this
    {
      position
    }
  }
}
