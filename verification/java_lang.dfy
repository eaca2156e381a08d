/**
 The value model shared by every module: Java's fixed-width integer types with
 explicit two's-complement wrap-around, the exceptions the adapter layer throws,
 and the shapes of results returned by Java methods and JNI entry points.
 */
module JavaLang {

  const INT_MIN: int := -0x8000_0000
  const INT_MAX: int := 0x7FFF_FFFF
  const TWO_32: int := 0x1_0000_0000

  /** Java `byte`. */
  type int8 = x: int | -0x80 <= x < 0x80
  /** Java `short`, one 16-bit PCM sample. */
  type int16 = x: int | -0x8000 <= x < 0x8000
  /** Java `int`, C `jint` / `int32_t`, Rust `i32`. */
  type int32 = x: int | -0x8000_0000 <= x < 0x8000_0000
  /** Java `long`, C `jlong`: the carrier of native handles and packed results. */
  type int64 = x: int | -0x8000_0000_0000_0000 <= x < 0x8000_0000_0000_0000

  /** Java `int` arithmetic: the int32 value congruent to `x` modulo 2^32. */
  function Wrap32(x: int): (r: int32)
    ensures (x - r) % TWO_32 == 0
    ensures INT_MIN <= x <= INT_MAX ==> r == x
  {
    if INT_MIN <= x <= INT_MAX then x else (x - INT_MIN) % TWO_32 + INT_MIN
  }

  /** A sum of two non-negative ints wraps exactly when it exceeds INT_MAX, and then it turns negative. */
  lemma WrapNonNegativeSum(a: int, b: int)
    requires 0 <= a <= INT_MAX && 0 <= b <= INT_MAX
    ensures Wrap32(a + b) < 0 <==> a + b > INT_MAX
    ensures a + b <= INT_MAX ==> Wrap32(a + b) == a + b
    ensures a + b > INT_MAX ==> Wrap32(a + b) == a + b - TWO_32
  {
    if a + b > INT_MAX {
      assert (a + b - INT_MIN) % TWO_32 == a + b - INT_MIN - TWO_32;
    }
  }

  function Max(a: int, b: int): int { if a < b then b else a }

  function Min(a: int, b: int): int { if a < b then a else b }

  function Abs(a: int): nat { if a < 0 then -a else a }

  /** A freshly allocated array of `n` elements, each the default value `v`. */
  function Filled<T>(n: nat, v: T): (z: seq<T>)
    ensures |z| == n
    ensures forall i :: 0 <= i < n ==> z[i] == v
  {
    seq(n, _ => v)
  }

  /** Java (and C, and Rust) integer division of a non-negative dividend (an array
      length, in every use here): the quotient is truncated toward zero, so for a
      negative divisor it is the negated quotient by its magnitude. */
  function JavaDiv(a: nat, b: int): (q: int)
    requires b != 0
    ensures 0 <= a - b * q < Abs(b)
    ensures Abs(q) <= a
  {
    var m := Abs(b);
    DivBound(a, m);
    if b > 0 then a / m
    else
      assert b * -(a / m) == m * (a / m) by { assert b + m == 0; }
      -(a / m)
  }

  /** Multiplying by a positive factor moves a number away from zero. */
  lemma {:induction false} MulAwayFromZero(m: int, q: int)
    requires m >= 1
    ensures q >= 0 ==> m * q >= q
    ensures q <= 0 ==> m * q <= q
    decreases m
  {
    if m > 1 {
      MulAwayFromZero(m - 1, q);
      assert m * q == (m - 1) * q + q;
    }
  }

  /** Dividing a non-negative number by a positive one does not make it larger. */
  lemma DivBound(a: nat, m: int)
    requires m > 0
    ensures 0 <= a / m <= a
    ensures a == m * (a / m) + a % m && 0 <= a % m < m
  {
    var q, r := a / m, a % m;
    assert a == m * q + r && 0 <= r < m;
    MulAwayFromZero(m, q + 1);
    assert m * q == m * (q + 1) - m;
    MulAwayFromZero(m, q);
  }

  /** Java `%` on a non-negative dividend: what truncated division leaves, never negative. */
  function JavaRem(a: nat, b: int): (r: int)
    requires b != 0
    ensures a == b * JavaDiv(a, b) + r
    ensures 0 <= r < Abs(b)
  {
    a - b * JavaDiv(a, b)
  }

  datatype Option<+T> = None | Some(value: T)

  /** The Java exceptions (and errors) that the modelled code can raise. Messages
      that the source builds with a formatted number keep only their fixed text. */
  datatype Exception =
    | IllegalArgumentException(message: string)
    | IllegalStateException(message: string)
    | RuntimeException(message: string)
    | IOException(message: string)
    | OutOfMemoryError(message: string)
    | IndexOutOfBoundsException
    | NegativeArraySizeException
    | ArithmeticException(message: string)
    | AssertionError
    | UnsatisfiedLinkError(message: string)

  /** The result of a Java method that either returns normally or throws. */
  datatype Outcome<+T> = Ok(value: T) | Thrown(exception: Exception)

  /** The result of a JNI entry point: the C/Rust return value together with
      the exception left pending for the Java caller, if any. */
  datatype Jni<+T> = Jni(value: T, pending: Option<Exception>)

  /** A state transition of a stateful Java object: the state afterwards and the
      exception the call threw, if any (state changes made before a throw stay). */
  datatype Step<+S> = Step(state: S, thrown: Option<Exception>)

  /** The concatenation, in order, of a sequence of chunks. */
  function Flatten<T>(chunks: seq<seq<T>>): seq<T>
  {
    if |chunks| == 0 then [] else chunks[0] + Flatten(chunks[1..])
  }

  lemma {:induction false} FlattenAppend<T>(chunks: seq<seq<T>>, last: seq<T>)
    ensures Flatten(chunks + [last]) == Flatten(chunks) + last
  {
    if |chunks| == 0 {
      assert chunks + [last] == [last];
    } else {
      assert (chunks + [last])[1..] == chunks[1..] + [last];
      FlattenAppend(chunks[1..], last);
    }
  }

  lemma {:induction false} FlattenConcat<T>(a: seq<seq<T>>, b: seq<seq<T>>)
    ensures Flatten(a + b) == Flatten(a) + Flatten(b)
  {
    if |a| == 0 {
      assert a + b == b;
    } else {
      assert (a + b)[1..] == a[1..] + b;
      FlattenConcat(a[1..], b);
    }
  }
}
