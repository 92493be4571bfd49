/** Java's 32-bit `int`: its range, and the two's-complement wrap-around of `+`. */
module JavaInt {

  const MaxInt: int := 0x7fff_ffff

  newtype int32 = x: int | -0x8000_0000 <= x < 0x8000_0000

  /** The Java `int` that an exact integer result becomes: the unique value of
      the `int` range congruent to `x` modulo 2^32. */
  function Wrap(x: int): (r: int32)
    ensures (r as int - x) % 0x1_0000_0000 == 0
    ensures -0x8000_0000 <= x <= 0x7fff_ffff ==> r as int == x
  {
    var m := x % 0x1_0000_0000;
    if m <= 0x7fff_ffff then m as int32 else (m - 0x1_0000_0000) as int32
  }

  /** Adding `b` to an already wrapped value gives the same `int` as wrapping
      once at the end: a Java `+=` loop computes the wrapped exact sum. */
  lemma WrapAdd(a: int, b: int)
    ensures Wrap(Wrap(a) as int + b) == Wrap(a + b)
  {
    var w := Wrap(a) as int;
    var t := (w - a) / 0x1_0000_0000;
    assert w - a == 0x1_0000_0000 * t;
    assert (w + b) % 0x1_0000_0000 == (a + b) % 0x1_0000_0000 by {
      ShiftMod(a + b, t);
    }
  }

  /** Java's `++` on an `int`: the largest value steps to the smallest. */
  function Inc(c: int32): (r: int32)
    ensures c as int < MaxInt ==> r as int == c as int + 1
    ensures r < c <==> c as int == MaxInt
  {
    if c == 0x7fff_ffff then -0x8000_0000 else c + 1
  }

  /** `++` on a wrapped value is the wrapped successor. */
  lemma IncWrap(x: int)
    ensures Inc(Wrap(x)) == Wrap(x + 1)
  {
    WrapAdd(x, 1);
  }

  /** `k` applications of `++`. */
  function IncBy(c: int32, k: nat): int32
  {
    if k == 0 then c else Inc(IncBy(c, k - 1))
  }

  /** `k` increments of a Java `int` wrap the exact sum. */
  lemma {:induction false} IncByWrap(c: int32, k: nat)
    ensures IncBy(c, k) == Wrap(c as int + k)
  {
    if k > 0 {
      IncByWrap(c, k - 1);
      IncWrap(c as int + k - 1);
    }
  }

  /** Without overflow, `k` increments add exactly `k`. */
  lemma {:induction false} IncByExact(c: int32, k: nat)
    requires c as int + k <= MaxInt
    ensures IncBy(c, k) as int == c as int + k
  {
    IncByWrap(c, k);
  }

  lemma ShiftMod(x: int, t: int)
    ensures (x + 0x1_0000_0000 * t) % 0x1_0000_0000 == x % 0x1_0000_0000
  {
  }
}
