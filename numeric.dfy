/** Numeric helpers shared by the model: Python's `math.ceil`, `int()` on a
    float (truncation toward zero), `float.is_integer()`, `round(v, n)`,
    floored modulo, integer powers and the gcd behind `fractions.Fraction`. */
module Numeric {

  /** `float.is_integer()`: the value has no fractional part. */
  predicate IsInteger(x: real) {
    x == x.Floor as real
  }

  /** `math.ceil`. */
  function Ceil(x: real): (c: int)
    ensures c as real - 1.0 < x <= c as real
  {
    -((-x).Floor)
  }

  /** `int(x)` on a float: truncation toward zero. */
  function Trunc(x: real): (t: int)
    ensures 0.0 <= x ==> 0 <= t && t as real <= x < t as real + 1.0
    ensures x < 0.0 ==> t <= 0 && t as real - 1.0 < x <= t as real
  {
    if x >= 0.0 then x.Floor else -((-x).Floor)
  }

  lemma CeilOfInteger(n: int)
    ensures Ceil(n as real) == n
  {
  }

  lemma {:induction false} CeilMonotone(x: real, y: real)
    requires x <= y
    ensures Ceil(x) <= Ceil(y)
  {
  }

  lemma {:induction false} TruncMonotone(x: real, y: real)
    requires x <= y
    ensures Trunc(x) <= Trunc(y)
  {
  }

  function Pow10(n: nat): (p: nat)
    ensures p >= 1
  {
    if n == 0 then 1 else 10 * Pow10(n - 1)
  }

  /** `round(x, places)`; ties are rounded up (Python rounds the binary
      value half to even, which reals cannot express). */
  function RoundTo(x: real, places: nat): (r: real)
    ensures -1.0 / (2 * Pow10(places)) as real < r - x <= 1.0 / (2 * Pow10(places)) as real
    ensures IsInteger(r * Pow10(places) as real)
  {
    var scale := Pow10(places) as real;
    var k := (x * scale + 0.5).Floor;
    var r := k as real / scale;
    assert r * scale == k as real;
    assert (k as real).Floor == k;
    assert r - x == (k as real - x * scale) / scale;
    assert IsInteger(r * scale);
    r
  }

  /** Rounding a value that already has `places` decimals changes nothing. */
  lemma RoundToExact(x: real, places: nat)
    requires IsInteger(x * Pow10(places) as real)
    ensures RoundTo(x, places) == x
  {
    var scale := Pow10(places) as real;
    RoundHalfUpOfInteger(x * scale);
    assert RoundTo(x, places) == (x * scale + 0.5).Floor as real / scale;
  }

  lemma RoundHalfUpOfInteger(y: real)
    requires IsInteger(y)
    ensures (y + 0.5).Floor as real == y
  {
    HalfAboveInteger(y.Floor);
  }

  lemma HalfAboveInteger(k: int)
    ensures (k as real + 0.5).Floor == k
  {
  }

  /** Python's `%` on floats: the remainder takes the sign of the divisor. */
  function FlooredMod(a: real, b: real): (r: real)
    requires b != 0.0
    ensures b > 0.0 ==> 0.0 <= r < b
    ensures b < 0.0 ==> b < r <= 0.0
    ensures IsInteger((a - r) / b)
  {
    var q := (a / b).Floor;
    var t := a / b - q as real;
    assert 0.0 <= t < 1.0;
    var r := b * t;
    DivisionFacts(a, b, q as real);
    ScaleFraction(b, t);
    assert (a - r) / b == q as real;
    r
  }

  lemma DivisionFacts(a: real, b: real, q: real)
    requires b != 0.0
    ensures b * (a / b - q) == a - b * q
    ensures (a - b * (a / b - q)) / b == q
  {
    assert b * (a / b) == a;
  }

  lemma ScaleFraction(b: real, t: real)
    requires 0.0 <= t < 1.0 && b != 0.0
    ensures b > 0.0 ==> 0.0 <= b * t < b
    ensures b < 0.0 ==> b < b * t <= 0.0
  {
    assert b - b * t == b * (1.0 - t);
  }

  /** `x ** n` for a natural exponent. */
  function PowNat(x: real, n: nat): real
  {
    if n == 0 then 1.0 else x * PowNat(x, n - 1)
  }

  lemma {:induction false} PowNatNonZero(x: real, n: nat)
    requires x != 0.0
    ensures PowNat(x, n) != 0.0
  {
    if n > 0 {
      PowNatNonZero(x, n - 1);
    }
  }

  function Abs(n: int): nat {
    if n < 0 then -n else n
  }

  /** Euclid's algorithm, as `math.gcd`. */
  function Gcd(a: nat, b: nat): nat
    decreases b
  {
    if b == 0 then a else Gcd(b, a % b)
  }

  predicate Divides(d: int, n: int) {
    d != 0 && n % d == 0
  }

  lemma {:induction false} GcdDivides(a: nat, b: nat)
    requires a > 0 || b > 0
    ensures Gcd(a, b) > 0
    ensures a % Gcd(a, b) == 0 && b % Gcd(a, b) == 0
    decreases b
  {
    if b != 0 {
      GcdDivides(b, a % b);
      DividesFromRemainder(a, b, Gcd(b, a % b));
    }
  }

  /** A common divisor of `b` and `a % b` divides `a`. */
  lemma DividesFromRemainder(a: nat, b: nat, g: nat)
    requires b > 0 && g > 0 && b % g == 0 && (a % b) % g == 0
    ensures a % g == 0
  {
    var q, m := a / b, a % b;
    var x, y := b / g, m / g;
    DivisibleByFactor(b, g, x);
    assert b == g * x && m == g * y;
    assert a == b * q + m;
    assert a == g * (x * q + y) by {
      assert b * q == g * (x * q);
    }
    DivisibleByFactor(a, g, x * q + y);
  }

  lemma DivisibleByFactor(n: int, g: int, k: int)
    requires g > 0 && n == g * k
    ensures n % g == 0 && n / g == k
  {
    var q, m := n / g, n % g;
    assert n == g * q + m && 0 <= m < g;
    assert g * (k - q) == m;
    if k - q >= 1 {
      MulAtLeast(g, k - q);
    } else if k - q <= -1 {
      MulAtLeast(g, q - k);
    }
  }

  lemma MulAtLeast(g: int, m: int)
    requires g > 0 && m >= 1
    ensures g * m >= g
  {
    assert g * m == g * (m - 1) + g;
  }

  /** When `d` divides `n`, Euclid stops after one step with `d`. */
  lemma GcdOfMultiple(n: nat, d: nat)
    requires d > 0 && n % d == 0
    ensures Gcd(n, d) == d
  {
    assert Gcd(n, d) == Gcd(d, n % d) == Gcd(d, 0);
  }

  /** A rational number `numerator / denominator` with a positive
      denominator, as `fractions.Fraction` keeps it. */
  datatype Fraction = Fraction(numerator: int, denominator: int)
  {
    function Value(): real
      requires denominator > 0
    {
      numerator as real / denominator as real
    }
  }

  /** `Fraction(n, d)` for `d > 0`: both parts divided by their gcd. */
  function Reduce(n: int, d: int): (f: Fraction)
    requires d > 0
    ensures f.denominator > 0
    ensures f.Value() == n as real / d as real
    ensures f.denominator == 1 <==> n % d == 0
  {
    GcdDivides(Abs(n), d);
    var g := Gcd(Abs(n), d);
    ReduceFacts(n, d, g);
    Fraction(n / g, d / g)
  }

  lemma ReduceFacts(n: int, d: int, g: int)
    requires d > 0 && g == Gcd(Abs(n), d) && g > 0
    requires Abs(n) % g == 0 && d % g == 0
    ensures d / g > 0
    ensures (n / g) as real / (d / g) as real == n as real / d as real
    ensures d / g == 1 <==> n % d == 0
  {
    var x, y := n / g, d / g;
    NegDivisible(n, g);
    NegDivisible(d, g);
    assert n == g * x && d == g * y;
    assert y > 0;
    CancelCommonFactor(x, y, g);
    if n % d == 0 {
      if n >= 0 {
        GcdOfMultiple(n, d);
      } else {
        NegDivisible(n, d);
        GcdOfMultiple(-n, d);
      }
    }
    if y == 1 {
      assert d == g;
    }
  }

  lemma CancelCommonFactor(x: int, y: int, g: int)
    requires g > 0 && y > 0
    ensures x as real / y as real == (g * x) as real / (g * y) as real
  {
    var gr, xr, yr := g as real, x as real, y as real;
    assert (g * x) as real == gr * xr;
    assert (g * y) as real == gr * yr;
    assert (gr * xr) / (gr * yr) == xr / yr;
  }

  lemma NegDivisible(n: int, g: int)
    requires g > 0 && (n % g == 0 || (-n) % g == 0)
    ensures n % g == 0 && (-n) % g == 0 && n == g * (n / g)
  {
    if n % g == 0 {
      var k := n / g;
      assert n == g * k;
      DivisibleByFactor(-n, g, -k);
    } else {
      var k := (-n) / g;
      assert -n == g * k;
      DivisibleByFactor(n, g, -k);
    }
  }
}
