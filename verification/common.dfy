/** Shared vocabulary: an Option type for Java's nullable references and the
    fixed-width integer semantics of the JVM (32-bit `int`, 64-bit `long`,
    truncating division). Dafny integers are unbounded, so every place where
    the Java code relies on wrap-around or truncation goes through these. */
module Common {

  /** A Java reference that may be null. */
  datatype Option<+T> = None | Some(value: T)

  const IntMin: int := -0x8000_0000
  const IntMax: int := 0x7FFF_FFFF
  const LongMin: int := -0x8000_0000_0000_0000
  const LongMax: int := 0x7FFF_FFFF_FFFF_FFFF

  predicate IsInt(x: int) { IntMin <= x <= IntMax }
  predicate IsLong(x: int) { LongMin <= x <= LongMax }

  /** A Java `int` value. */
  type Int32 = x: int | IsInt(x)

  const TwoTo32: int := 0x1_0000_0000
  const TwoTo64: int := 0x1_0000_0000_0000_0000

  /** Two's-complement wrap-around of an exact result to 32 bits, as every
      `int` arithmetic operation and every `(int)` cast of a `long` does:
      the unique value in the `int` range congruent to `x` modulo 2^32. */
  function Wrap32(x: int): (r: int)
    ensures IsInt(r)
    ensures IsInt(x) ==> r == x
    ensures (r - x) % TwoTo32 == 0
    decreases if x > IntMax then x - IntMax else if x < IntMin then IntMin - x else 0
  {
    if x > IntMax then Wrap32(x - TwoTo32)
    else if x < IntMin then Wrap32(x + TwoTo32)
    else x
  }

  /** Two's-complement wrap-around of an exact result to 64 bits (`long`). */
  function Wrap64(x: int): (r: int)
    ensures IsLong(r)
    ensures IsLong(x) ==> r == x
    ensures (r - x) % TwoTo64 == 0
    decreases if x > LongMax then x - LongMax else if x < LongMin then LongMin - x else 0
  {
    if x > LongMax then Wrap64(x - TwoTo64)
    else if x < LongMin then Wrap64(x + TwoTo64)
    else x
  }

  /** Java's integer division, which truncates toward zero (Dafny's `/` is
      Euclidean and differs for a negative dividend). */
  function JavaDiv(a: int, b: int): (q: int)
    requires b > 0
    ensures a >= 0 ==> 0 <= q
    ensures a <= 0 ==> q <= 0
  {
    if a >= 0 then a / b else -((-a) / b)
  }

  function Min(a: int, b: int): (r: int)
    ensures r <= a && r <= b && (r == a || r == b)
  {
    if a <= b then a else b
  }

  function Max(a: int, b: int): (r: int)
    ensures r >= a && r >= b && (r == a || r == b)
  {
    if a >= b then a else b
  }
}
