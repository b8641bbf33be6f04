/** The names the source binds into every condition's scope besides the
    variables: `is_square` (and `math.isqrt`, which it uses). */
module GeneratorBuiltins {
  import opened Numeric

  /** `math.isqrt`: the integer square root. */
  function Isqrt(n: nat): (k: nat)
    ensures k * k <= n < (k + 1) * (k + 1)
  {
    if n < 4 then (if n == 0 then 0 else 1)
    else
      var k0 := Isqrt(n / 4);
      var r := 2 * k0;
      IsqrtStep(n, k0);
      if (r + 1) * (r + 1) <= n then r + 1 else r
  }

  lemma IsqrtStep(n: nat, k0: nat)
    requires k0 * k0 <= n / 4 < (k0 + 1) * (k0 + 1)
    ensures (2 * k0) * (2 * k0) <= n < (2 * k0 + 2) * (2 * k0 + 2)
  {
    var m := n / 4;
    assert n == 4 * m + n % 4;
    assert (2 * k0) * (2 * k0) == 4 * (k0 * k0);
    assert (2 * k0 + 2) * (2 * k0 + 2) == 4 * ((k0 + 1) * (k0 + 1));
    assert m + 1 <= (k0 + 1) * (k0 + 1);
  }

  function Square(k: nat): nat {
    k * k
  }

  /** `i` is the square of a natural number. */
  ghost predicate IsPerfectSquare(i: nat) {
    exists k: nat :: Square(k) == i
  }

  lemma SquareMonotone(a: nat, b: nat)
    requires a < b
    ensures Square(a) < Square(b)
  {
    var d := b - a;
    assert Square(b) == Square(a) + (2 * a + d) * d by {
      assert b * b == (a + d) * (a + d);
    }
    MulAtLeast(2 * a + d, d);
  }

  /** Exactly the perfect squares are the ones `isqrt` recovers. */
  lemma PerfectSquareByIsqrt(i: nat)
    ensures IsPerfectSquare(i) <==> Square(Isqrt(i)) == i
  {
    var r := Isqrt(i);
    assert Square(r) <= i < Square(r + 1);
    if IsPerfectSquare(i) {
      var k: nat :| Square(k) == i;
      if k < r {
        SquareMonotone(k, r);
      } else if k > r {
        if k > r + 1 {
          SquareMonotone(r + 1, k);
        }
      }
    }
  }

  /** `is_square(n)`: `n` is integer-valued and its absolute value is a
      perfect square. Negative integers count through `abs`. */
  function IsSquare(n: real): (b: bool)
    ensures b <==> IsInteger(n) && IsPerfectSquare(Abs(n.Floor))
  {
    if !IsInteger(n) then false
    else
      var i := Abs(Trunc(n));
      var k := Isqrt(i);
      PerfectSquareByIsqrt(i);
      i == k * k
  }

  /** `abs` makes `is_square` blind to the sign. */
  lemma IsSquareIgnoresSign(n: real)
    ensures IsSquare(n) == IsSquare(-n)
  {
    if IsInteger(n) {
      assert (-n).Floor == -n.Floor;
    } else {
      assert !IsInteger(-n);
    }
  }

  lemma IsSquareExamples()
    ensures IsSquare(16.0) && !IsSquare(15.0) && IsSquare(-4.0) && !IsSquare(2.5) && IsSquare(0.0)
  {
    assert Square(4) == 16;
    assert Square(2) == 4;
    assert Square(0) == 0;
    assert Isqrt(15) == 3;
  }
}
