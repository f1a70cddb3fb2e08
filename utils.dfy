/** Helpers shared by the layer-list interpreter and the drawing code:
  * optional values, exact rationals standing for the float multipliers,
  * the ceiling alignment `make_divisible`, Python's `int(str)` coercion,
  * and the lower-cased module name that the name heuristics look at. */
module Utils {

  datatype Option<+T> = None | Some(value: T)

  datatype Result<+T, +E> = Ok(value: T) | Err(error: E)

  /** The exact value num/den. The source's multipliers are floats; the
    * model uses the rational they denote. */
  datatype Ratio = Ratio(num: int, den: int)

  type Rational = r: Ratio | r.den > 0 witness Ratio(0, 1)

  const UnitRatio: Rational := Ratio(1, 1)

  function FromInt(i: int): Rational
  {
    Ratio(i, 1)
  }

  // ---------------------------------------------------------------------
  // Ceiling alignment
  // ---------------------------------------------------------------------

  /** The ceiling of a / b for a positive b. */
  function CeilDiv(a: int, b: int): (q: int)
    requires b > 0
    ensures (q - 1) * b < a <= q * b
  {
    -((-a) / b)
  }

  /** `make_divisible(v, divisor)`: None stays None; otherwise
    * ceil(v / divisor) * divisor. For a positive divisor that is the least
    * multiple of the divisor not below v; for a negative one the greatest
    * multiple not above v. */
  function MakeDivisible(v: Option<Rational>, divisor: int): (r: Option<int>)
    requires divisor != 0
    ensures r.Some? <==> v.Some?
    ensures r.Some? ==> r.value % divisor == 0
    ensures r.Some? && divisor > 0 ==>
      v.value.num <= r.value * v.value.den < v.value.num + divisor * v.value.den
    ensures r.Some? && divisor < 0 ==>
      v.value.num + divisor * v.value.den < r.value * v.value.den <= v.value.num
  {
    match v
    case None => None
    case Some(x) =>
      var b := x.den * (if divisor > 0 then divisor else -divisor);
      var q := if divisor > 0 then CeilDiv(x.num, b) else CeilDiv(-x.num, b);
      AlignBounds(x, divisor, q);
      Some(q * divisor)
  }

  /** The arithmetic behind MakeDivisible's contract. */
  lemma AlignBounds(x: Rational, divisor: int, q: int)
    requires divisor != 0
    requires divisor > 0 ==> (q - 1) * (x.den * divisor) < x.num <= q * (x.den * divisor)
    requires divisor < 0 ==> (q - 1) * (x.den * -divisor) < -x.num <= q * (x.den * -divisor)
    ensures (q * divisor) % divisor == 0
    ensures divisor > 0 ==> x.num <= (q * divisor) * x.den < x.num + divisor * x.den
    ensures divisor < 0 ==> x.num + divisor * x.den < (q * divisor) * x.den <= x.num
  {
    MultipleMod(q, divisor);
    assert (q * divisor) * x.den == q * (x.den * divisor);
    assert (q - 1) * (x.den * divisor) == q * (x.den * divisor) - divisor * x.den;
    if divisor < 0 {
      assert (q - 1) * (x.den * -divisor) == -(q * (x.den * divisor)) + divisor * x.den;
      assert q * (x.den * -divisor) == -(q * (x.den * divisor));
    }
  }

  lemma MultipleMod(q: int, d: int)
    requires d != 0
    ensures (q * d) % d == 0
  {
    var a := if d > 0 then d else -d;
    var r := (q * d) % d;
    var t := q - (q * d) / d;
    assert d * t == r;
    assert 0 <= r < a;
    if t > 0 {
      MulAtLeast(a, t);
    } else if t < 0 {
      MulAtLeast(a, -t);
    }
  }

  lemma MulAtLeast(a: int, t: int)
    requires a > 0 && t > 0
    ensures a * t >= a
  {
    assert a * t == a * (t - 1) + a;
  }

  /** For a positive divisor, no multiple of the divisor that is at least v
    * lies below MakeDivisible(v): the result is the least such multiple. */
  lemma MakeDivisibleIsLeast(x: Rational, divisor: int, m: int)
    requires divisor > 0 && m % divisor == 0 && x.num <= m * x.den
    ensures MakeDivisible(Some(x), divisor).value <= m
  {
    var b := x.den * divisor;
    var q := CeilDiv(x.num, b);
    var k := m / divisor;
    assert m == divisor * k;
    assert m * x.den == k * b;
    if k < q {
      MulMonotone(k, q - 1, b);
      assert false;
    }
    MulMonotone(q, k, divisor);
  }

  lemma MulMonotone(x: int, y: int, c: int)
    requires x <= y && c >= 0
    ensures x * c <= y * c
  {
    assert y * c - x * c == (y - x) * c;
  }

  /** Aligning an aligned integer leaves it unchanged: make_divisible is
    * idempotent on its own results. */
  lemma MakeDivisibleIdempotent(v: Rational, divisor: int)
    requires divisor > 0
    ensures var r := MakeDivisible(Some(v), divisor).value;
      MakeDivisible(Some(FromInt(r)), divisor) == Some(r)
  {
    var r := MakeDivisible(Some(v), divisor).value;
    var r2 := MakeDivisible(Some(FromInt(r)), divisor).value;
    MakeDivisibleIsLeast(FromInt(r), divisor, r);
    assert r <= r2 < r + divisor;
    var k, k2 := r / divisor, r2 / divisor;
    assert r == k * divisor && r2 == k2 * divisor;
  }

  // ---------------------------------------------------------------------
  // Python's int(str)
  // ---------------------------------------------------------------------

  predicate IsDigit(c: char)
  {
    '0' <= c <= '9'
  }

  predicate AllDigits(s: string)
  {
    forall i :: 0 <= i < |s| ==> IsDigit(s[i])
  }

  function DigitChar(d: nat): char
    requires d < 10
  {
    ('0' as int + d) as char
  }

  /** The value of a decimal numeral, most significant digit first. */
  function DigitsValue(ds: string): nat
    requires AllDigits(ds)
    decreases |ds|
  {
    if ds == [] then 0
    else DigitsValue(ds[..|ds| - 1]) * 10 + (ds[|ds| - 1] as int - '0' as int)
  }

  /** `int(s)` for a string: an optional sign followed by at least one
    * decimal digit; anything else is not a number (None). */
  function ParseInt(s: string): (r: Option<int>)
    ensures r.Some? ==> |s| > 0
    ensures (forall i :: 0 <= i < |s| ==> !IsDigit(s[i])) ==> r.None?
  {
    if |s| > 1 && (s[0] == '-' || s[0] == '+') && AllDigits(s[1..]) then
      var magnitude: int := DigitsValue(s[1..]);
      Some(if s[0] == '-' then -magnitude else magnitude)
    else if |s| > 0 && AllDigits(s) then
      Some(DigitsValue(s))
    else
      None
  }

  /** Decimal numeral of a natural number (`str(n)`). */
  function ShowNat(n: nat): (s: string)
    ensures |s| > 0 && AllDigits(s)
    decreases n
  {
    if n < 10 then [DigitChar(n)] else ShowNat(n / 10) + [DigitChar(n % 10)]
  }

  function ShowInt(n: int): string
  {
    if n < 0 then "-" + ShowNat(-n) else ShowNat(n)
  }

  lemma {:induction false} DigitsValueOfShowNat(n: nat)
    ensures DigitsValue(ShowNat(n)) == n
    decreases n
  {
    var s := ShowNat(n);
    if n >= 10 {
      DigitsValueOfShowNat(n / 10);
      assert s[..|s| - 1] == ShowNat(n / 10);
    }
  }

  /** int(str(n)) == n: every integer survives printing and parsing. */
  lemma ParseShowRoundTrip(n: int)
    ensures ParseInt(ShowInt(n)) == Some(n)
  {
    if n < 0 {
      DigitsValueOfShowNat(-n);
      ParseNegative(ShowNat(-n));
    } else {
      DigitsValueOfShowNat(n);
      ParseUnsigned(ShowNat(n));
    }
  }

  lemma ParseNegative(t: string)
    requires |t| > 0 && AllDigits(t)
    ensures ParseInt("-" + t) == Some(-(DigitsValue(t) as int))
  {
    var s := "-" + t;
    assert s[1..] == t;
  }

  lemma ParseUnsigned(t: string)
    requires |t| > 0 && AllDigits(t)
    ensures ParseInt(t) == Some(DigitsValue(t))
  {
    assert IsDigit(t[0]);
  }

  // ---------------------------------------------------------------------
  // Module names
  // ---------------------------------------------------------------------

  function LowerChar(c: char): char
  {
    if 'A' <= c <= 'Z' then (c as int + 32) as char else c
  }

  /** `module_name_lower` for a module given by its name. */
  function ModuleNameLower(name: string): (r: string)
    ensures |r| == |name|
    ensures forall i :: 0 <= i < |r| ==> !('A' <= r[i] <= 'Z')
    ensures forall i :: 0 <= i < |r| && !('A' <= name[i] <= 'Z') ==> r[i] == name[i]
    ensures forall i :: 0 <= i < |r| && 'A' <= name[i] <= 'Z' ==> r[i] as int == name[i] as int + 32
  {
    seq(|name|, i requires 0 <= i < |name| => LowerChar(name[i]))
  }

  /** `sub` occurs in `s` starting at position i. */
  predicate OccursAt(s: string, sub: string, i: nat)
  {
    i + |sub| <= |s| && s[i..i + |sub|] == sub
  }

  /** Python's `sub in s` on strings. */
  predicate Contains(s: string, sub: string)
    decreases |s|
  {
    (|sub| <= |s| && s[..|sub|] == sub) || (|s| > 0 && Contains(s[1..], sub))
  }

  /** Contains is exactly "occurs at some position". */
  lemma {:induction false} ContainsIff(s: string, sub: string)
    ensures Contains(s, sub) <==> exists i: nat :: OccursAt(s, sub, i)
    decreases |s|
  {
    if |s| > 0 {
      ContainsIff(s[1..], sub);
      forall i: nat | OccursAt(s[1..], sub, i) ensures OccursAt(s, sub, i + 1) {
        assert s[1..][i..i + |sub|] == s[i + 1..i + 1 + |sub|];
      }
      forall i: nat | i > 0 && OccursAt(s, sub, i) ensures OccursAt(s[1..], sub, i - 1) {
        assert s[1..][i - 1..i - 1 + |sub|] == s[i..i + |sub|];
      }
      if Contains(s, sub) && !OccursAt(s, sub, 0) {
        var j: nat :| OccursAt(s[1..], sub, j);
        assert OccursAt(s, sub, j + 1);
      }
    } else if sub == [] {
      assert OccursAt(s, sub, 0);
    }
  }
}
