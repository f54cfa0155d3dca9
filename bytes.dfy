/** Failures the decoder can raise, one per kind of exception the Python code runs into. */
module Faults {

  datatype Fault =
    | StructError(needed: nat, got: nat)  // struct.unpack_from given a buffer shorter than its format
    | ZeroDivision                        // `i / record_size` with a zero record size
    | IndexError(index: nat)              // a page index past the end of the position table
    | RuntimeError(cause: Fault)          // `_parse_all` re-raising whatever went wrong in an attempt

  datatype Result<+T> = Ok(value: T) | Err(error: Fault) {
    predicate IsFailure() { Err? }

    function PropagateFailure<U>(): Result<U>
      requires Err?
    {
      Err(error)
    }

    function Extract(): T
      requires Ok?
    {
      value
    }
  }
}

/** The file as an immutable byte sequence, Python's clamped slicing and
    reads, and the little-endian integer fields `struct` unpacks. */
module Bytes {
  import opened Faults

  type byte = b: int | 0 <= b < 0x100
  type u16 = x: int | 0 <= x < 0x1_0000
  type u32 = x: int | 0 <= x < 0x1_0000_0000

  function Min(a: int, b: int): int { if a <= b then a else b }
  function Max(a: int, b: int): int { if a <= b then b else a }

  lemma MulGap(a: int, b: int, n: int)
    requires a < b && n > 0
    ensures a * n + n <= b * n
  {
    var d := b - a - 1;
    assert b * n == (a + 1 + d) * n == a * n + n + d * n;
  }

  /** Quotient and remainder by a positive divisor are unique. */
  lemma DivModUnique(q1: int, r1: int, q2: int, r2: int, n: int)
    requires n > 0 && 0 <= r1 < n && 0 <= r2 < n
    requires q1 * n + r1 == q2 * n + r2
    ensures q1 == q2 && r1 == r2
  {
    if q1 < q2 {
      MulGap(q1, q2, n);
    } else if q2 < q1 {
      MulGap(q2, q1, n);
    }
  }

  /** Python's `s[lo:hi]` for non-negative bounds: both bounds are clamped to
      the length, and the slice is empty when `lo` is not below `hi`. */
  function Slice(s: seq<byte>, lo: nat, hi: nat): (r: seq<byte>)
    ensures |r| == Max(0, Min(hi, |s|) - lo)
    ensures lo <= hi <= |s| ==> r == s[lo .. hi]
  {
    if lo < Min(hi, |s|) then s[lo .. Min(hi, |s|)] else []
  }

  /** Python's `s[lo:]`. */
  function SliceFrom(s: seq<byte>, lo: nat): (r: seq<byte>)
    ensures |r| == Max(0, |s| - lo)
    ensures lo <= |s| ==> r == s[lo ..]
  {
    Slice(s, lo, |s|)
  }

  /** `fp.seek(p); fp.read(n)`: n bytes from p, fewer near the end of the
      file, none past it. A short read is not an error. */
  function Read(file: seq<byte>, p: nat, n: nat): (buf: seq<byte>)
    ensures p + n <= |file| ==> buf == file[p .. p + n]
    ensures p + n > |file| ==> buf == file[Min(p, |file|) ..]
  {
    Slice(file, p, p + n)
  }

  /** A slice of a slice is a slice of the original. */
  lemma SliceOfSlice(s: seq<byte>, lo: nat, hi: nat, a: nat, c: nat)
    requires lo <= hi <= |s| && a <= c <= hi - lo
    ensures s[lo .. hi][a .. c] == s[lo + a .. lo + c]
  {
    forall k | 0 <= k < c - a
      ensures s[lo .. hi][a .. c][k] == s[lo + a .. lo + c][k]
    {
      assert s[lo .. hi][a .. c][k] == s[lo .. hi][a + k] == s[lo + a + k];
    }
  }

  function U16At(b: seq<byte>, k: nat): u16
    requires k + 2 <= |b|
  {
    b[k] as int + 0x100 * b[k + 1] as int
  }

  function U32At(b: seq<byte>, k: nat): u32
    requires k + 4 <= |b|
  {
    U16At(b, k) as int + 0x1_0000 * U16At(b, k + 2) as int
  }

  /** The two little-endian bytes of a 16-bit value; U16At reads it back. */
  function LeU16(v: u16): (bs: seq<byte>)
    ensures |bs| == 2 && U16At(bs, 0) == v
  {
    [v % 0x100, v / 0x100]
  }

  /** The four little-endian bytes of a 32-bit value; U32At reads it back. */
  function LeU32(v: u32): (bs: seq<byte>)
    ensures |bs| == 4 && U32At(bs, 0) == v
  {
    var lo, hi := LeU16(v % 0x1_0000), LeU16(v / 0x1_0000);
    assert U16At(lo + hi, 0) == U16At(lo, 0) && U16At(lo + hi, 2) == U16At(hi, 0);
    lo + hi
  }

  /** Decoding loses nothing: the bytes are the encoding of the value read. */
  lemma U16AtInverse(b: seq<byte>, k: nat)
    requires k + 2 <= |b|
    ensures LeU16(U16At(b, k)) == b[k .. k + 2]
  {
    var v := U16At(b, k);
    assert v % 0x100 == b[k] && v / 0x100 == b[k + 1];
  }

  lemma U32AtInverse(b: seq<byte>, k: nat)
    requires k + 4 <= |b|
    ensures LeU32(U32At(b, k)) == b[k .. k + 4]
  {
    var lo, hi := U16At(b, k), U16At(b, k + 2);
    var v := U32At(b, k);
    assert v % 0x1_0000 == lo && v / 0x1_0000 == hi;
    U16AtInverse(b, k);
    U16AtInverse(b, k + 2);
  }

  /** The encodings are injective. */
  lemma LeU16Injective(a: u16, b: u16)
    requires LeU16(a) == LeU16(b)
    ensures a == b
  {
    assert U16At(LeU16(a), 0) == a;
  }

  lemma LeU32Injective(a: u32, b: u32)
    requires LeU32(a) == LeU32(b)
    ensures a == b
  {
    assert U32At(LeU32(a), 0) == a;
  }

  /** `struct.unpack_from('H', buf)`: the first two bytes as a little-endian
      unsigned value, or an error when fewer than two are there. */
  function UnpackU16(buf: seq<byte>): (r: Result<u16>)
    ensures r.Ok? <==> |buf| >= 2
    ensures r.Ok? ==> LeU16(r.value) == buf[..2]
    ensures r.Err? ==> r.error == StructError(2, |buf|)
  {
    if |buf| < 2 then Err(StructError(2, |buf|))
    else
      U16AtInverse(buf, 0);
      Ok(U16At(buf, 0))
  }

  /** `struct.unpack_from('L', buf)` with a 4-byte little-endian `L`. */
  function UnpackU32(buf: seq<byte>): (r: Result<u32>)
    ensures r.Ok? <==> |buf| >= 4
    ensures r.Ok? ==> LeU32(r.value) == buf[..4]
    ensures r.Err? ==> r.error == StructError(4, |buf|)
  {
    if |buf| < 4 then Err(StructError(4, |buf|))
    else
      U32AtInverse(buf, 0);
      Ok(U32At(buf, 0))
  }

  /** Unpacking the two bytes at `a` gives the little-endian value there. */
  lemma UnpackU16At(buf: seq<byte>, a: nat)
    requires a + 2 <= |buf|
    ensures UnpackU16(Slice(buf, a, a + 2)) == Ok(U16At(buf, a))
  {
    var slice := Slice(buf, a, a + 2);
    assert slice[0] == buf[a] && slice[1] == buf[a + 1];
  }

  /** Unpacking from `buf[a:]` or `buf[a:a+4]` gives the little-endian value at `a`. */
  lemma UnpackU32At(buf: seq<byte>, a: nat, hi: nat)
    requires a + 4 <= hi <= |buf|
    ensures UnpackU32(Slice(buf, a, hi)) == Ok(U32At(buf, a))
  {
    var slice := Slice(buf, a, hi);
    assert slice[0] == buf[a] && slice[1] == buf[a + 1] && slice[2] == buf[a + 2] && slice[3] == buf[a + 3];
    assert U32At(slice, 0) == U32At(buf, a);
  }
}
