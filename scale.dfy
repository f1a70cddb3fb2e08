/** The two multipliers of the layer list: `depth_multiple` scales repeat
  * counts through Python's `round`, `width_multiple` scales channel counts,
  * which are then aligned to a multiple of 8. */
module Scale {
  import opened Utils

  /** Channel counts are aligned to multiples of this. */
  const ChannelDivisor: int := 8

  /** Python's `round(x)` with no digits: the nearest integer, ties to the
    * even neighbour. */
  function RoundHalfEven(x: Rational): (r: int)
    ensures -x.den <= 2 * (r * x.den - x.num) <= x.den
    ensures (2 * (r * x.den - x.num) == x.den || 2 * (r * x.den - x.num) == -x.den) ==> r % 2 == 0
  {
    var q := x.num / x.den;
    var rem := x.num % x.den;
    assert x.num == q * x.den + rem;
    assert (q + 1) * x.den == q * x.den + x.den;
    if 2 * rem < x.den then q
    else if 2 * rem > x.den then q + 1
    else if q % 2 == 0 then q
    else q + 1
  }

  /** The contract of RoundHalfEven pins the result down: any integer within
    * half of x that is even on a tie is RoundHalfEven(x). */
  lemma RoundHalfEvenUnique(x: Rational, r: int)
    requires -x.den <= 2 * (r * x.den - x.num) <= x.den
    requires (2 * (r * x.den - x.num) == x.den || 2 * (r * x.den - x.num) == -x.den) ==> r % 2 == 0
    ensures r == RoundHalfEven(x)
  {
    var p := RoundHalfEven(x);
    NearestEvenUnique(x.num, x.den, r, p);
  }

  /** Two integers that are both within half of num/den, and even on a tie,
    * are equal. */
  lemma NearestEvenUnique(num: int, den: int, r: int, p: int)
    requires den > 0
    requires -den <= 2 * (r * den - num) <= den
    requires (2 * (r * den - num) == den || 2 * (r * den - num) == -den) ==> r % 2 == 0
    requires -den <= 2 * (p * den - num) <= den
    requires (2 * (p * den - num) == den || 2 * (p * den - num) == -den) ==> p % 2 == 0
    ensures r == p
  {
    var d := r - p;
    assert r * den - p * den == d * den;
    SmallMultiple(d, den);
  }

  /** A multiple of den that lies within den of zero is -den, 0 or den. */
  lemma SmallMultiple(d: int, den: int)
    requires den > 0 && -den <= d * den <= den
    ensures -1 <= d <= 1
  {
    if d > 1 {
      MulAtLeast(den, d - 1);
    } else if d < -1 {
      MulAtLeast(den, -d - 1);
    }
  }

  /** An integer rounds to itself. */
  lemma RoundHalfEvenOfInt(n: int)
    ensures RoundHalfEven(FromInt(n)) == n
  {
    RoundHalfEvenUnique(FromInt(n), n);
  }

  /** The displayed repeat count `n_`: only a count above one is scaled by
    * the depth multiple, and a scaled count is never below one. */
  function ScaledRepeat(n: int, gd: Rational): (r: int)
    ensures n <= 1 ==> r == n
    ensures n > 1 ==> r >= 1
    ensures n > 1 && RoundHalfEven(Ratio(n * gd.num, gd.den)) >= 1 ==>
      r == RoundHalfEven(Ratio(n * gd.num, gd.den))
    ensures n > 1 && RoundHalfEven(Ratio(n * gd.num, gd.den)) < 1 ==> r == 1
  {
    if n > 1 then
      var scaled := RoundHalfEven(Ratio(n * gd.num, gd.den));
      if scaled > 1 then scaled else 1
    else n
  }

  /** With the default depth multiple of 1 the repeat count is shown as
    * given. */
  lemma ScaledRepeatUnitDepth(n: int)
    ensures ScaledRepeat(n, UnitRatio) == n
  {
    if n > 1 {
      assert Ratio(n * UnitRatio.num, UnitRatio.den) == FromInt(n);
      RoundHalfEvenOfInt(n);
    }
  }

  /** `make_divisible(c2 * gw)`: the channel count scaled by the width
    * multiple and rounded up to a multiple of 8. */
  function ScaledWidth(c2: int, gw: Rational): (r: int)
    ensures r % ChannelDivisor == 0
    ensures c2 * gw.num <= r * gw.den < c2 * gw.num + ChannelDivisor * gw.den
  {
    MakeDivisible(Some(Ratio(c2 * gw.num, gw.den)), ChannelDivisor).value
  }

  /** With the default width multiple of 1 the aligned count is the least
    * multiple of 8 that is at least the requested count. */
  lemma ScaledWidthUnit(c2: int, m: int)
    requires m % ChannelDivisor == 0 && c2 <= m
    ensures c2 <= ScaledWidth(c2, UnitRatio) < c2 + ChannelDivisor
    ensures ScaledWidth(c2, UnitRatio) <= m
  {
    assert Ratio(c2 * UnitRatio.num, UnitRatio.den) == FromInt(c2);
    MakeDivisibleIsLeast(FromInt(c2), ChannelDivisor, m);
  }
}
