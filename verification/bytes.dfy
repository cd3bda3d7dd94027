/** Bytes of a table file, the little-endian unsigned readings `unpack` makes
    of them ('S', 'L'/'I' and the 64 bits behind 'D' on a little-endian host),
    and the semantics of `IO#read` / `StringIO#read` at a position. */
module Bytes {
  import opened Wrappers

  type Byte = b: int | 0 <= b < 256

  const TWO_16: nat := 0x1_0000
  const TWO_32: nat := 0x1_0000_0000
  const TWO_64: nat := 0x1_0000_0000_0000_0000

  /** Unsigned 16-bit little-endian value of the two bytes at `off`. */
  function U16At(b: seq<Byte>, off: nat): (n: nat)
    requires off + 2 <= |b|
    ensures n < TWO_16
  {
    (b[off] as int) + 256 * (b[off + 1] as int)
  }

  /** Unsigned 32-bit little-endian value of the four bytes at `off`. */
  function U32At(b: seq<Byte>, off: nat): (n: nat)
    requires off + 4 <= |b|
    ensures n < TWO_32
  {
    (b[off] as int) + 256 * (b[off + 1] as int) + 0x1_0000 * (b[off + 2] as int) + 0x100_0000 * (b[off + 3] as int)
  }

  /** Unsigned 64-bit little-endian value of the eight bytes at `off`. */
  function U64At(b: seq<Byte>, off: nat): (n: nat)
    requires off + 8 <= |b|
    ensures n < TWO_64
  {
    U32At(b, off) + TWO_32 * U32At(b, off + 4)
  }

  /** The four little-endian bytes of an unsigned 32-bit value. */
  function EncodeU32(n: nat): (b: seq<Byte>)
    requires n < TWO_32
    ensures |b| == 4
  {
    [n % 256, (n / 256) % 256, (n / 0x1_0000) % 256, n / 0x100_0000]
  }

  /** The two little-endian bytes of an unsigned 16-bit value. */
  function EncodeU16(n: nat): (b: seq<Byte>)
    requires n < TWO_16
    ensures |b| == 2
  {
    [n % 256, n / 256]
  }

  /** The eight little-endian bytes of an unsigned 64-bit value. */
  function EncodeU64(n: nat): (b: seq<Byte>)
    requires n < TWO_64
    ensures |b| == 8
  {
    EncodeU32(n % TWO_32) + EncodeU32(n / TWO_32)
  }

  lemma U32RoundTrip(n: nat)
    requires n < TWO_32
    ensures U32At(EncodeU32(n), 0) == n
  {
    var b := EncodeU32(n);
    var q1 := n / 256;
    var q2 := q1 / 256;
    assert n == (b[0] as int) + 256 * q1;
    assert q1 == (b[1] as int) + 256 * q2;
    assert q2 == n / 0x1_0000;
    assert q2 == (b[2] as int) + 256 * (b[3] as int);
  }

  lemma U16RoundTrip(n: nat)
    requires n < TWO_16
    ensures U16At(EncodeU16(n), 0) == n
  {
  }

  lemma U64RoundTrip(n: nat)
    requires n < TWO_64
    ensures U64At(EncodeU64(n), 0) == n
  {
    var lo, hi := n % TWO_32, n / TWO_32;
    U32RoundTrip(lo);
    U32RoundTrip(hi);
    var b := EncodeU64(n);
    assert b[..4] == EncodeU32(lo) && b[4..] == EncodeU32(hi);
    assert U32At(b, 0) == U32At(EncodeU32(lo), 0);
    assert U32At(b, 4) == U32At(EncodeU32(hi), 0);
  }

  /** Decoding then re-encoding four bytes gives them back, so distinct byte
      groups have distinct readings. */
  lemma EncodeU32OfU32At(b: seq<Byte>, off: nat)
    requires off + 4 <= |b|
    ensures EncodeU32(U32At(b, off)) == b[off..off + 4]
  {
    var n := U32At(b, off);
    var rest1: int := (b[off + 1] as int) + 256 * (b[off + 2] as int) + 0x1_0000 * (b[off + 3] as int);
    assert n == (b[off] as int) + 256 * rest1;
    assert n % 256 == b[off] && n / 256 == rest1;
    var rest2: int := (b[off + 2] as int) + 256 * (b[off + 3] as int);
    assert rest1 == (b[off + 1] as int) + 256 * rest2;
    assert n / 0x1_0000 == rest1 / 256 == rest2;
    assert n / 0x100_0000 == rest2 / 256 == b[off + 3];
  }

  /** What a read of `n` bytes at position `pos` returns, and where it leaves
      the position. */
  datatype Read = Read(data: Option<seq<Byte>>, pos: nat)

  /** `read(n)` on a file or StringIO holding `s`, positioned at `pos`: a
      zero count gives "", a positive count at or past the end gives nil, and
      otherwise up to `n` bytes are consumed. */
  function ReadAt(s: seq<Byte>, pos: nat, n: nat): (r: Read)
    ensures r.data.None? <==> n > 0 && pos >= |s|
    ensures r.data.Some? ==> r.pos == pos + |r.data.value| && |r.data.value| <= n
    ensures r.data.Some? && |r.data.value| > 0 ==> r.pos <= |s| && r.data.value == s[pos..r.pos]
    ensures r.data.Some? && |r.data.value| < n ==> r.pos == |s|
    ensures r.data.None? ==> r.pos == pos
  {
    if n == 0 then Read(Some([]), pos)
    else if pos >= |s| then Read(None, pos)
    else
      var end := if pos + n <= |s| then pos + n else |s|;
      Read(Some(s[pos..end]), end)
  }

  /** Two read positions of `s` that no read can tell apart: equal, or both
      at or past the end. */
  predicate SamePlace(s: seq<Byte>, p: nat, q: nat) {
    p == q || (p >= |s| && q >= |s|)
  }

  /** Reads at positions no read can tell apart return the same data and
      leave positions no read can tell apart. */
  lemma ReadAtSamePlace(s: seq<Byte>, p: nat, q: nat, n: nat)
    requires SamePlace(s, p, q)
    ensures ReadAt(s, p, n).data == ReadAt(s, q, n).data
    ensures SamePlace(s, ReadAt(s, p, n).pos, q + n)
  {
  }

  /** A read that starts inside `s`, or at its end, returns the bytes from
      `pos` up to `n` of them or the end of `s`, except that a positive
      count at the very end gives nil. */
  lemma ReadAtSlice(s: seq<Byte>, pos: nat, n: nat)
    requires pos <= |s|
    ensures var end := if pos + n <= |s| then pos + n else |s|;
      ReadAt(s, pos, n) == if n > 0 && pos == |s| then Read(None, pos) else Read(Some(s[pos..end]), end)
  {
    if n == 0 {
      assert s[pos..pos] == [];
    }
  }

  /** A read that fits in `s` returns exactly the `n` bytes at `pos`. */
  lemma ReadAtInside(s: seq<Byte>, pos: nat, n: nat)
    requires pos + n <= |s|
    ensures ReadAt(s, pos, n) == Read(Some(s[pos..pos + n]), pos + n)
  {
    if n == 0 {
      assert s[pos..pos + n] == [];
    }
  }
}
