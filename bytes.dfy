/** Bytes of the disk image, little-endian integers and the reads of a
    random-access file, modelled over an immutable byte sequence. */
module Bytes {
  import opened Wrappers

  /** One byte of the image. */
  type byte = x: int | 0 <= x < 0x100

  function Min(a: int, b: int): int { if a <= b then a else b }

  /** `struct.unpack('<H', ...)` applied to two bytes: a little-endian u16. */
  function U16(lo: byte, hi: byte): (r: nat)
    ensures r < 0x1_0000
  {
    lo + 0x100 * hi
  }

  /** `struct.unpack('<I', ...)` applied to four bytes: a little-endian u32. */
  function U32(b0: byte, b1: byte, b2: byte, b3: byte): (r: nat)
    ensures r < 0x1_0000_0000
  {
    U16(b0, b1) + 0x1_0000 * U16(b2, b3)
  }

  /** Dividing by 0x10 undoes scaling by 0x10 and drops a smaller remainder. */
  lemma DivAdd16(r: int, q: int)
    requires 0 <= r < 0x10
    ensures (r + 0x10 * q) / 0x10 == q && (r + 0x10 * q) % 0x10 == r
  {
  }

  /** Dividing by 0x100 undoes scaling by 0x100 and drops a smaller remainder. */
  lemma DivAdd256(r: int, q: int)
    requires 0 <= r < 0x100
    ensures (r + 0x100 * q) / 0x100 == q && (r + 0x100 * q) % 0x100 == r
  {
  }

  /** Dividing by 0x1000 undoes scaling by 0x1000 and drops a smaller remainder. */
  lemma DivAdd4096(r: int, q: int)
    requires 0 <= r < 0x1000
    ensures (r + 0x1000 * q) / 0x1000 == q && (r + 0x1000 * q) % 0x1000 == r
  {
  }

  /** A u16 as two little-endian bytes. */
  function Le16(x: nat): (b: seq<byte>)
    requires x < 0x1_0000
    ensures |b| == 2 && U16(b[0], b[1]) == x
  {
    [x % 0x100, x / 0x100]
  }

  /** Python's `s[lo:hi]` for non-negative bounds: the part of `lo..hi` that
      lies inside `s`, empty when `lo` is at or past the end. */
  function Slice(s: seq<byte>, lo: nat, hi: nat): (r: seq<byte>)
    requires lo <= hi
    ensures |r| == if hi <= |s| then hi - lo else if lo <= |s| then |s| - lo else 0
    ensures forall k :: 0 <= k < |r| ==> r[k] == s[lo + k]
  {
    s[Min(lo, |s|)..Min(hi, |s|)]
  }

  /** `f.seek(offset)` followed by `f.read(count)` on a file holding `image`:
      a negative offset makes the seek fail, and a read that runs past the end
      of the file returns only the bytes that are there. */
  function ReadAt(image: seq<byte>, offset: int, count: nat): (r: Option<seq<byte>>)
    ensures r.None? <==> offset < 0
    ensures r.Some? ==> |r.value| <= count
    ensures r.Some? && offset + count <= |image| ==> |r.value| == count
    ensures r.Some? && offset < |image| ==> |r.value| == Min(count, |image| - offset)
    ensures r.Some? && offset >= |image| ==> r.value == []
    ensures r.Some? ==> r.value == [] || offset + |r.value| <= |image|
    ensures r.Some? ==> forall k :: 0 <= k < |r.value| ==> r.value[k] == image[offset + k]
  {
    if offset < 0 then None else Some(Slice(image, offset, offset + count))
  }
}
