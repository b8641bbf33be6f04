/** Drawing one value for a variable. The random calls are replaced by the
    numbers they returned (`Draws`); `DrawsFit` says those numbers lie in the
    ranges the calls are asked for, which is all the sampler relies on. */
module Sampler {
  import opened Wrappers
  import opened Numeric
  import opened GeneratorTypes

  /** The outcomes of the random calls of one sample:
      `randint(2, 5)` for the denominator, `randint` for the numerator,
      `uniform` for a decimal and `randint` for an integer. A sample uses
      only the ones its mode needs. */
  datatype Draws = Draws(denominator: int, numerator: int, uniform: real, integer: int)

  /** The number of decimal places, `randint(2, 2)`. */
  const DecimalPlaces: nat := 2

  /** The bounds `randint(lo, hi)` for the numerator over denominator `d`. */
  function NumeratorRange(iv: Interval, d: int): (int, int) {
    (Trunc(iv.start * d as real), Trunc(iv.stop * d as real))
  }

  /** The draws lie in the ranges the random calls are given. Nothing is
      drawn for an empty interval. */
  predicate DrawsFit(p: VariableProperties, c: Draws) {
    var iv := p.interval;
    iv.start < iv.stop ==>
      if p.isProperFraction then
        2 <= c.denominator <= 5 &&
        NumeratorRange(iv, c.denominator).0 <= c.numerator <= NumeratorRange(iv, c.denominator).1
      else if p.isDecimalFraction then
        iv.FloatTuple().0 <= c.uniform <= iv.FloatTuple().1
      else
        iv.IntTuple().0 <= c.integer <= iv.IntTuple().1
  }

  /** Every `randint` range the sampler asks for is non-empty when the
      interval is, so the random calls never raise and some draws fit. */
  lemma DrawRangesNonEmpty(p: VariableProperties, d: int)
    requires p.interval.start < p.interval.stop && 2 <= d <= 5
    ensures NumeratorRange(p.interval, d).0 <= NumeratorRange(p.interval, d).1
    ensures p.interval.IntTuple().0 <= p.interval.IntTuple().1
    ensures exists c :: DrawsFit(p, c)
  {
    var iv := p.interval;
    NumeratorRangeNonEmpty(iv, d);
    NumeratorRangeNonEmpty(iv, 2);
    CeilMonotone(iv.start, iv.stop);
    var c := Draws(2, NumeratorRange(iv, 2).0, iv.start, Ceil(iv.start));
    assert DrawsFit(p, c);
  }

  lemma NumeratorRangeNonEmpty(iv: Interval, d: int)
    requires iv.start <= iv.stop && d >= 0
    ensures NumeratorRange(iv, d).0 <= NumeratorRange(iv, d).1
  {
    assert iv.stop * d as real - iv.start * d as real == (iv.stop - iv.start) * d as real;
    TruncMonotone(iv.start * d as real, iv.stop * d as real);
  }

  /** The values a variable may take: inside its interval and, by mode, a
      non-integer with denominator 2 to 5, a non-integer with two decimals,
      or an integer. */
  predicate Admissible(p: VariableProperties, v: real) {
    p.interval.Contains(v) &&
    if p.isProperFraction then
      !IsInteger(v) && exists d: int :: 2 <= d <= 5 && HasDenominator(v, d)
    else if p.isDecimalFraction then
      !IsInteger(v) && IsInteger(v * Pow10(DecimalPlaces) as real)
    else
      IsInteger(v)
  }

  /** `v` is a whole number of `d`ths. */
  predicate HasDenominator(v: real, d: int) {
    IsInteger(v * d as real)
  }

  /** The proper-fraction branch: `Fraction(n, d)`, refused when it
      reduces to a whole number. */
  function ProperFraction(n: int, d: int): (r: Option<real>)
    requires d > 0
    ensures r.Some? <==> n % d != 0
    ensures r.Some? ==> r.value == n as real / d as real && !IsInteger(r.value) && HasDenominator(r.value, d)
  {
    var f := Reduce(n, d);
    if f.denominator == 1 then None
    else
      NotIntegerQuotient(n, d);
      assert HasDenominator(f.Value(), d) by {
        assert f.Value() * d as real == n as real;
      }
      Some(f.Value())
  }

  /** The decimal branch: `round(u, 2)`, refused when it is a whole number. */
  function TwoDecimals(u: real): (r: Option<real>)
    ensures r.Some? <==> !IsInteger(RoundTo(u, DecimalPlaces))
    ensures r.Some? ==> r.value == RoundTo(u, DecimalPlaces) && IsInteger(r.value * Pow10(DecimalPlaces) as real)
  {
    var v := RoundTo(u, DecimalPlaces);
    if IsInteger(v) then None else Some(v)
  }

  /** `_generate_value(properties)` given the outcomes of its random calls. */
  function GenerateValue(p: VariableProperties, c: Draws): (r: Option<real>)
    requires DrawsFit(p, c)
    ensures p.interval.start >= p.interval.stop ==> r.None?
    ensures r.Some? ==> p.interval.Contains(r.value) && Admissible(p, r.value)
    ensures r.Some? && p.isProperFraction ==>
      r.value == c.numerator as real / c.denominator as real && c.numerator % c.denominator != 0
    ensures r.Some? && !p.isProperFraction && p.isDecimalFraction ==>
      r.value == RoundTo(c.uniform, DecimalPlaces)
    ensures r.Some? && !p.isProperFraction && !p.isDecimalFraction ==>
      r.value == c.integer as real
  {
    var iv := p.interval;
    if iv.start >= iv.stop then None
    else
      var value :=
        if p.isProperFraction then ProperFraction(c.numerator, c.denominator)
        else if p.isDecimalFraction then TwoDecimals(c.uniform)
        else Some(c.integer as real);
      if value.Some? && iv.Contains(value.value) then value else None
  }

  /** A quotient `n / d` with a non-zero remainder has a fractional part. */
  lemma NotIntegerQuotient(n: int, d: int)
    requires d > 0 && n % d != 0
    ensures !IsInteger(n as real / d as real)
  {
    if IsInteger(n as real / d as real) {
      var k := (n as real / d as real).Floor;
      assert n as real == (k * d) as real;
      DivisibleByFactor(n, d, k);
      assert false;
    }
  }

  /** Every admissible value can be drawn: for each one there are draws in
      the ranges the random calls use that produce exactly it. Together with
      the postcondition of `GenerateValue`, the values the sampler can
      return are exactly the admissible ones. */
  lemma EveryAdmissibleValueIsReachable(p: VariableProperties, v: real)
    requires p.interval.start < p.interval.stop && Admissible(p, v)
    ensures exists c :: DrawsFit(p, c) && GenerateValue(p, c) == Some(v)
  {
    var c;
    if p.isProperFraction {
      c := ProperFractionReachable(p, v);
    } else if p.isDecimalFraction {
      c := DecimalReachable(p, v);
    } else {
      c := IntegerReachable(p, v);
    }
  }

  lemma ProperFractionReachable(p: VariableProperties, v: real) returns (c: Draws)
    requires p.interval.start < p.interval.stop && p.isProperFraction && Admissible(p, v)
    ensures DrawsFit(p, c) && GenerateValue(p, c) == Some(v)
  {
    var iv := p.interval;
    var d :| 2 <= d <= 5 && HasDenominator(v, d);
    var n := (v * d as real).Floor;
    NumeratorInRange(iv, v, d, n);
    WholeNumeratorFraction(v, d, n);
    c := Draws(d, n, iv.start, Ceil(iv.start));
    assert ProperFraction(n, d) == Some(v);
  }

  lemma NumeratorInRange(iv: Interval, v: real, d: int, n: int)
    requires iv.Contains(v) && d > 0 && n as real == v * d as real
    ensures NumeratorRange(iv, d).0 <= n <= NumeratorRange(iv, d).1
  {
    ScaleBetween(iv.start, v, iv.stop, d as real);
    NumeratorBetween(iv, d, n);
  }

  lemma NumeratorBetween(iv: Interval, d: int, n: int)
    requires iv.start * d as real <= n as real <= iv.stop * d as real
    ensures NumeratorRange(iv, d).0 <= n <= NumeratorRange(iv, d).1
  {
    NumeratorRangeBounds(iv, d);
    TruncAround(iv.start * d as real, n, iv.stop * d as real);
  }

  lemma NumeratorRangeBounds(iv: Interval, d: int)
    ensures NumeratorRange(iv, d).0 == Trunc(iv.start * d as real)
    ensures NumeratorRange(iv, d).1 == Trunc(iv.stop * d as real)
  {
  }

  lemma ScaleBetween(x: real, v: real, y: real, k: real)
    requires x <= v <= y && k >= 0.0
    ensures x * k <= v * k <= y * k
  {
    ScaleMonotone(x, v, k);
    ScaleMonotone(v, y, k);
  }

  lemma TruncAround(lo: real, n: int, hi: real)
    requires lo <= n as real <= hi
    ensures Trunc(lo) <= n <= Trunc(hi)
  {
    TruncMonotone(lo, n as real);
    TruncMonotone(n as real, hi);
    assert Trunc(n as real) == n;
  }

  lemma ScaleMonotone(x: real, y: real, k: real)
    requires x <= y && k >= 0.0
    ensures x * k <= y * k
  {
    assert y * k - x * k == (y - x) * k;
  }

  lemma WholeNumeratorFraction(v: real, d: int, n: int)
    requires !IsInteger(v) && d > 0 && n as real == v * d as real
    ensures n as real / d as real == v && n % d != 0
  {
    DivisibleQuotient(n, d);
  }

  lemma DivisibleQuotient(n: int, d: int)
    requires d > 0
    ensures n % d == 0 ==> IsInteger(n as real / d as real)
  {
    var q := n / d;
    assert n == d * q + n % d;
    assert n % d == 0 ==> n as real / d as real == q as real;
  }

  lemma DecimalReachable(p: VariableProperties, v: real) returns (c: Draws)
    requires p.interval.start < p.interval.stop && !p.isProperFraction && p.isDecimalFraction && Admissible(p, v)
    ensures DrawsFit(p, c) && GenerateValue(p, c) == Some(v)
  {
    assert IsInteger(v * Pow10(DecimalPlaces) as real) by {
      assert Admissible(p, v);
    }
    RoundToExact(v, DecimalPlaces);
    c := Draws(2, 0, v, 0);
    assert TwoDecimals(v) == Some(v);
  }

  lemma IntegerReachable(p: VariableProperties, v: real) returns (c: Draws)
    requires p.interval.start < p.interval.stop && !p.isProperFraction && !p.isDecimalFraction && Admissible(p, v)
    ensures DrawsFit(p, c) && GenerateValue(p, c) == Some(v)
  {
    var iv := p.interval;
    var k := v.Floor;
    assert k as real == v;
    CeilMonotone(iv.start, v);
    CeilMonotone(v, iv.stop);
    CeilOfInteger(k);
    c := Draws(2, 0, iv.start, k);
  }

  /** Integer mode draws over the rounded-up bounds, so the top draw can
      fall outside a non-integer upper bound and is then rejected by the
      final bounds check: on `[0.5, 1.5]` the draw 2 yields nothing. */
  lemma RoundedUpDrawIsRejected()
    ensures var p := VariableProperties(Interval(0.5, 1.5), false, false);
      DrawsFit(p, Draws(0, 0, 0.0, 2)) && GenerateValue(p, Draws(0, 0, 0.0, 2)).None?
  {
  }

  /** A proper-fraction draw whose numerator is a multiple of the
      denominator is rejected: 4/2 on `[0, 3]`. */
  lemma IntegerFractionIsRejected()
    ensures var p := VariableProperties(Interval(0.0, 3.0), true, false);
      DrawsFit(p, Draws(2, 4, 0.0, 0)) && GenerateValue(p, Draws(2, 4, 0.0, 0)).None?
  {
    var r := Reduce(4, 2);
    assert 4 % 2 == 0;
    assert r.denominator == 1;
  }
}
