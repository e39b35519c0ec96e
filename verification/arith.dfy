/** Facts about floor division on non-negative operands, shared by the geometry,
    the resampler and the alternative adjuster. Go's `int(float64(a) / float64(b))`
    truncates toward zero, which on non-negative operands is Dafny's `/`. */
module Arith {

  /** Go's integer `/`, which truncates toward zero (Dafny's `/` is Euclidean). */
  function Quo(a: int, b: int): (q: int)
    requires b > 0
    ensures a >= 0 ==> q == a / b
    ensures a < 0 ==> q == -((-a) / b)
  {
    if a >= 0 then a / b else -((-a) / b)
  }

  /** `Quo` rounds toward zero: a non-negative quotient is rounded down, a negative one up,
      and negating the dividend negates the quotient, which Euclidean division does not do. */
  lemma QuoTruncatesTowardZero(a: int, b: int)
    requires b > 0
    ensures a >= 0 ==> Quo(a, b) >= 0 && Quo(a, b) * b <= a < (Quo(a, b) + 1) * b
    ensures a < 0 ==> Quo(a, b) <= 0 && (Quo(a, b) - 1) * b < a <= Quo(a, b) * b
    ensures Quo(-a, b) == -Quo(a, b)
  {
    if a >= 0 {
      QuoRoundsDown(a, b);
    } else {
      QuoRoundsDown(-a, b);
      QuoRoundsUp(a, b);
    }
  }

  /** On a non-negative dividend `Quo` is the floor quotient, and on its negation the
      negated floor quotient. */
  lemma QuoRoundsDown(n: int, b: int)
    requires n >= 0 && b > 0
    ensures Quo(n, b) >= 0 && Quo(n, b) * b <= n < (Quo(n, b) + 1) * b
    ensures Quo(-n, b) == -Quo(n, b)
  {
    var f := n / b;
    FloorBounds(n, b);
    if f < 0 {
      MulLe(f + 1, 0, b);
    }
  }

  /** The floor bounds of -a, mirrored below zero, bound `Quo(a, b)` from above. */
  lemma QuoRoundsUp(a: int, b: int)
    requires a < 0 && b > 0
    requires Quo(-a, b) >= 0 && Quo(-a, b) * b <= -a < (Quo(-a, b) + 1) * b
    ensures (Quo(a, b) - 1) * b < a <= Quo(a, b) * b
  {
    var f := Quo(-a, b);
    assert Quo(a, b) == -f;
    assert (-f - 1) * b == -((f + 1) * b);
    assert -f * b == -(f * b);
  }

  /** The floor quotient of naturals, with the bounds that characterise it. */
  function FloorDiv(n: nat, d: nat): (q: nat)
    requires d >= 1
    ensures q * d <= n < (q + 1) * d
  {
    QuoRoundsDown(n, d);
    Quo(n, d)
  }

  lemma FloorBounds(a: int, b: int)
    requires b > 0
    ensures (a / b) * b <= a < (a / b + 1) * b
  {
  }

  /** `a / b` is the unique q with q*b <= a < (q+1)*b. */
  lemma FloorUnique(a: int, b: int, q: int)
    requires b > 0
    requires q * b <= a < (q + 1) * b
    ensures a / b == q
  {
    FloorBounds(a, b);
    var f := a / b;
    if f < q {
      MulLe(f + 1, q, b);
    } else if f > q {
      MulLe(q + 1, f, b);
    }
  }

  lemma MulLe(x: int, y: int, c: int)
    requires x <= y && c >= 0
    ensures x * c <= y * c
  {
  }

  lemma MulLt(x: int, y: int, c: int)
    requires x < y && c > 0
    ensures x * c < y * c
  {
  }

  /** Floor division is monotone in the dividend. */
  lemma DivMonotone(a: int, a': int, b: int)
    requires b > 0 && a <= a'
    ensures a / b <= a' / b
  {
    FloorBounds(a, b);
    FloorBounds(a', b);
    if a / b > a' / b {
      MulLe(a' / b + 1, a / b, b);
    }
  }

  /** A quotient stays below c exactly when the dividend stays below c*b. */
  lemma DivLtIff(a: int, b: int, c: int)
    requires b > 0
    ensures a / b < c <==> a < c * b
  {
    FloorBounds(a, b);
    if a / b < c {
      MulLe(a / b + 1, c, b);
    } else {
      MulLe(c, a / b, b);
    }
  }

  /** Scaling dividend and divisor by the same positive factor leaves the quotient unchanged. */
  lemma DivCancel(a: int, b: int, k: int)
    requires b > 0 && k > 0
    ensures (a * k) / (b * k) == a / b
  {
    var q := a / b;
    FloorBounds(a, b);
    MulLe(q * b, a, k);
    MulLt(a, (q + 1) * b, k);
    assert q * (b * k) == (q * b) * k;
    assert (q + 1) * (b * k) == ((q + 1) * b) * k;
    FloorUnique(a * k, b * k, q);
  }
}
