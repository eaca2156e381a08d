/**
 ShortArrayBuffer: an append-only buffer of 16-bit samples backed by an array
 that grows by at least doubling, clamped at SOFT_MAX_ARRAY_LENGTH, and that
 fails with OutOfMemoryError instead of wrapping. The object is modelled as an
 immutable value: `buf` is the backing array (its length is the capacity) and
 `count` the number of valid samples. Every int addition of the source is
 computed with Java's 32-bit wrap-around.
 */
module ShortArrayBuffer {
  import opened JavaLang

  const DEFAULT_SIZE: int32 := 32
  const SOFT_MAX_ARRAY_LENGTH: int32 := INT_MAX - 8

  datatype Buffer = Buffer(buf: seq<int16>, count: int32)

  /** The object invariant: the valid samples fit in the backing array, which is a Java array. */
  predicate Valid(b: Buffer)
  {
    0 <= b.count <= |b.buf| <= INT_MAX
  }

  /** The samples written since construction or the last reset. */
  function Contents(b: Buffer): seq<int16>
    requires Valid(b)
  {
    b.buf[..b.count]
  }

  /** `Arrays.copyOf`: the first `n` elements of `a`, padded with zeros. */
  function CopyOf(a: seq<int16>, n: nat): (r: seq<int16>)
    ensures |r| == n
    ensures forall i :: 0 <= i < n ==> r[i] == (if i < |a| then a[i] else 0)
  {
    if n <= |a| then a[..n] else a + Filled<int16>(n - |a|, 0)
  }

  /** `new ShortArrayBuffer(size)`. */
  function New(size: int32): (r: Outcome<Buffer>)
    ensures r.Thrown? <==> size < 0
    ensures r.Thrown? ==> r.exception == IllegalArgumentException("Negative initial size: ")
    ensures r.Ok? ==> Valid(r.value) && Contents(r.value) == [] && |r.value.buf| == size
  {
    if size < 0 then Thrown(IllegalArgumentException("Negative initial size: "))
    else Ok(Buffer(Filled<int16>(size, 0), 0))
  }

  /** `new ShortArrayBuffer()`. */
  function NewDefault(): (b: Buffer)
    ensures Valid(b) && Contents(b) == [] && |b.buf| == 32
  {
    New(DEFAULT_SIZE).value
  }

  /** `hugeLength`: the fallback when the preferred length is out of range. */
  function HugeLength(oldLength: int32, minGrowth: int32): (r: Outcome<int32>)
  {
    var minLength := Wrap32(oldLength + minGrowth);
    if minLength < 0 then
      Thrown(OutOfMemoryError("Required array length is too large"))
    else if minLength <= SOFT_MAX_ARRAY_LENGTH then
      Ok(SOFT_MAX_ARRAY_LENGTH)
    else
      Ok(minLength)
  }

  /** `newLength`: grow by max(minGrowth, prefGrowth) when that stays in (0, SOFT_MAX_ARRAY_LENGTH]. */
  function NewLength(oldLength: int32, minGrowth: int32, prefGrowth: int32): (r: Outcome<int32>)
  {
    var prefLength := Wrap32(oldLength + Max(minGrowth, prefGrowth));
    if 0 < prefLength <= SOFT_MAX_ARRAY_LENGTH then Ok(prefLength)
    else HugeLength(oldLength, minGrowth)
  }

  /** For non-negative arguments, `hugeLength` fails exactly when the true sum
      overflows int, and otherwise returns at least that sum (and at least SOFT_MAX). */
  lemma HugeLengthCovers(oldLength: int32, minGrowth: int32)
    requires 0 <= oldLength && 0 <= minGrowth
    ensures HugeLength(oldLength, minGrowth).Thrown? <==> oldLength + minGrowth > INT_MAX
    ensures HugeLength(oldLength, minGrowth).Thrown? ==> HugeLength(oldLength, minGrowth).exception.OutOfMemoryError?
    ensures HugeLength(oldLength, minGrowth).Ok? ==>
              HugeLength(oldLength, minGrowth).value == Max(SOFT_MAX_ARRAY_LENGTH, oldLength + minGrowth)
  {
    WrapNonNegativeSum(oldLength, minGrowth);
  }

  /** The growth policy as `ensureCapacity` calls it (prefGrowth = oldLength, minGrowth > 0):
      it fails only when the required length overflows int; otherwise it gives at least the
      required length, doubles (or more) when that stays within SOFT_MAX, and clamps otherwise. */
  lemma NewLengthGrows(oldLength: int32, minGrowth: int32)
    requires 0 <= oldLength && 0 < minGrowth
    ensures NewLength(oldLength, minGrowth, oldLength).Ok? <==> oldLength + minGrowth <= INT_MAX
    ensures NewLength(oldLength, minGrowth, oldLength).Ok? ==>
              NewLength(oldLength, minGrowth, oldLength).value >= oldLength + minGrowth
    ensures oldLength + Max(minGrowth, oldLength) <= SOFT_MAX_ARRAY_LENGTH ==>
              NewLength(oldLength, minGrowth, oldLength) == Ok(oldLength + Max(minGrowth, oldLength))
    ensures SOFT_MAX_ARRAY_LENGTH < oldLength + Max(minGrowth, oldLength) && oldLength + minGrowth <= INT_MAX ==>
              NewLength(oldLength, minGrowth, oldLength) == Ok(Max(SOFT_MAX_ARRAY_LENGTH, oldLength + minGrowth))
  {
    WrapNonNegativeSum(oldLength, Max(minGrowth, oldLength));
    HugeLengthCovers(oldLength, minGrowth);
  }

  /** `ensureCapacity(minCapacity)`: never shrinks, keeps every element of the old
      array, and leaves at least `minCapacity` slots. A non-negative request never fails. */
  function EnsureCapacity(b: Buffer, minCapacity: int32): (r: Outcome<Buffer>)
    requires Valid(b)
    ensures r.Ok? ==> Valid(r.value) && r.value.count == b.count
    ensures r.Ok? ==> |r.value.buf| >= |b.buf| && r.value.buf[..|b.buf|] == b.buf
    ensures r.Ok? ==> |r.value.buf| >= minCapacity
    ensures 0 <= minCapacity ==> r.Ok?
    ensures 0 <= minCapacity <= |b.buf| ==> r == Ok(b)
    ensures r.Thrown? ==> r.exception.OutOfMemoryError?
  {
    var oldCapacity: int32 := |b.buf|;
    var minGrowth := Wrap32(minCapacity - oldCapacity);
    if minGrowth > 0 then
      NewLengthGrows(oldCapacity, minGrowth);
      match NewLength(oldCapacity, minGrowth, oldCapacity)
      case Thrown(e) => Thrown(e)
      case Ok(n) => Ok(Buffer(CopyOf(b.buf, n), b.count))
    else
      Ok(b)
  }

  /** `write(short s)`: appends one sample; fails only when count is already Integer.MAX_VALUE. */
  function Write(b: Buffer, s: int16): (r: Outcome<Buffer>)
    requires Valid(b)
    ensures r.Ok? <==> b.count < INT_MAX
    ensures r.Ok? ==> Valid(r.value) && Contents(r.value) == Contents(b) + [s]
    ensures r.Thrown? ==> r.exception.OutOfMemoryError?
  {
    match EnsureCapacity(b, Wrap32(b.count + 1))
    case Thrown(e) => Thrown(e)
    case Ok(g) =>
      if g.count < |g.buf| then
        var r := Buffer(g.buf[g.count := s], g.count + 1);
        assert Contents(r) == Contents(g) + [s];
        Ok(r)
      else
        Thrown(IndexOutOfBoundsException)
  }

  /** `write(short[] b, int off, int len)`: with assertions enabled (`ea`) the Java
      `assert off + len <= b.length` runs first; `System.arraycopy` then rejects any
      out-of-range slice. Whatever `ea` is, the call succeeds exactly when the slice is
      in range and the total length fits in an int, and then appends that slice. */
  function WriteSlice(b: Buffer, src: seq<int16>, off: int32, len: int32, ea: bool): (r: Outcome<Buffer>)
    requires Valid(b) && |src| <= INT_MAX
    ensures r.Ok? <==> 0 <= off && 0 <= len && off + len <= |src| && b.count + len <= INT_MAX
    ensures r.Ok? ==> Valid(r.value) && Contents(r.value) == Contents(b) + src[off..off + len]
  {
    if ea && !(Wrap32(off + len) <= |src|) then
      Thrown(AssertionError)
    else
      match EnsureCapacity(b, Wrap32(b.count + len))
      case Thrown(e) => Thrown(e)
      case Ok(g) =>
        if off < 0 || len < 0 || off + len > |src| || g.count + len > |g.buf| then
          Thrown(IndexOutOfBoundsException)
        else
          assert g.buf[..g.count] == b.buf[..b.count] by {
            assert g.buf[..|b.buf|] == b.buf;
          }
          var r := Buffer(g.buf[..g.count] + src[off..off + len] + g.buf[g.count + len..], g.count + len);
          assert Contents(r) == Contents(b) + src[off..off + len];
          Ok(r)
  }

  /** `writeShorts(short[] b)`: `write(b, 0, b.length)`, whose assertion always holds. */
  function WriteShorts(b: Buffer, src: seq<int16>): (r: Outcome<Buffer>)
    requires Valid(b) && |src| <= INT_MAX
    ensures r.Ok? <==> b.count + |src| <= INT_MAX
    ensures r.Ok? ==> Valid(r.value) && Contents(r.value) == Contents(b) + src
  {
    assert src[0..|src|] == src;
    WriteSlice(b, src, 0, |src|, true)
  }

  /** `reset()`: forgets the contents but keeps the backing array and its capacity. */
  function Reset(b: Buffer): (r: Buffer)
    requires Valid(b)
    ensures Valid(r) && Contents(r) == [] && r.buf == b.buf
  {
    Buffer(b.buf, 0)
  }

  /** `toShortArray()`: a copy of exactly the valid prefix. */
  function ToShortArray(b: Buffer): (r: seq<int16>)
    requires Valid(b)
    ensures |r| == b.count <= |b.buf|
    ensures forall i :: 0 <= i < |r| ==> r[i] == b.buf[i]
  {
    CopyOf(b.buf, b.count)
  }

  /** `size()`. */
  function Size(b: Buffer): (r: int32)
    requires Valid(b)
    ensures r == |Contents(b)| && r <= |b.buf|
  {
    b.count
  }

  /** Appending chunk by chunk with `writeShorts`, stopping at the first failure. */
  function WriteAll(b: Buffer, chunks: seq<seq<int16>>): Outcome<Buffer>
    requires Valid(b)
    requires forall k :: 0 <= k < |chunks| ==> |chunks[k]| <= INT_MAX
    decreases |chunks|
  {
    if |chunks| == 0 then Ok(b)
    else
      match WriteShorts(b, chunks[0])
      case Thrown(e) => Thrown(e)
      case Ok(b') => WriteAll(b', chunks[1..])
  }

  /** `toShortArray()` returns exactly the samples written. */
  lemma ToShortArrayIsContents(b: Buffer)
    requires Valid(b)
    ensures ToShortArray(b) == Contents(b)
  {
  }

  /** Growth never loses data: writing chunks in any sizes and then calling
      `toShortArray` gives the plain concatenation, and it fails only when the
      total would not fit in an int. */
  lemma {:induction false} WriteAllConcatenates(b: Buffer, chunks: seq<seq<int16>>)
    requires Valid(b)
    requires forall k :: 0 <= k < |chunks| ==> |chunks[k]| <= INT_MAX
    ensures WriteAll(b, chunks).Ok? <==> b.count + |Flatten(chunks)| <= INT_MAX
    ensures WriteAll(b, chunks).Ok? ==>
              Valid(WriteAll(b, chunks).value) &&
              ToShortArray(WriteAll(b, chunks).value) == Contents(b) + Flatten(chunks)
    decreases |chunks|
  {
    if |chunks| == 0 {
      ToShortArrayIsContents(b);
    } else {
      var w := WriteShorts(b, chunks[0]);
      if w.Ok? {
        WriteAllConcatenates(w.value, chunks[1..]);
        assert Contents(b) + Flatten(chunks) == Contents(w.value) + Flatten(chunks[1..]);
      }
    }
  }
}
