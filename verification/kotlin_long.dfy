/** The JVM `long` type (Kotlin `Long`): 64-bit two's complement. Arithmetic
    wraps around on overflow; the `java.util.concurrent.TimeUnit` scaling
    helpers saturate instead. Both are written out here over unbounded `int`. */
module KotlinLong {

  const TwoTo64: int := 0x1_0000_0000_0000_0000
  const LongMin: int := -0x8000_0000_0000_0000
  const LongMax: int := 0x7fff_ffff_ffff_ffff

  type Long = x: int | LongMin <= x <= LongMax
  type NonNegLong = x: int | 0 <= x <= LongMax

  /** The Long that `x` wraps around to: the unique representable value
      congruent to `x` modulo 2^64. */
  function Wrap(x: int): (r: Long)
    ensures (r - x) % TwoTo64 == 0
    ensures LongMin <= x <= LongMax ==> r == x
  {
    (x - LongMin) % TwoTo64 + LongMin
  }

  /** The Long nearest to `x`: `x` itself when representable, else a bound. */
  function Clamp(x: int): Long
  {
    if x > LongMax then LongMax else if x < LongMin then LongMin else x
  }

  /** `a * b` on Longs: the exact product, wrapped to 64 bits as the JVM's
      `lmul` does on overflow. */
  function Times(a: Long, b: Long): Long
  {
    Wrap(a * b)
  }

  /** `a + b` on Longs: the exact sum, wrapped to 64 bits as the JVM's
      `ladd` does on overflow. */
  function Plus(a: Long, b: Long): Long
  {
    Wrap(a + b)
  }

  /** A representable value congruent to `x` is the one `Wrap` picks. */
  lemma WrapUnique(x: int, r: Long)
    requires (r - x) % TwoTo64 == 0
    ensures r == Wrap(x)
  {
  }
}
