/** IEEE 754 binary32 numbers as bit patterns, their exact real values, and the
    roundTiesToEven attribute as the standard words it. */
module Binary32 {
  import opened Words

  // Magnitudes (patterns without the sign bit) are ordered like the values they denote.
  const INF_MAG := 0x7f80_0000
  const MAX_MAG := 0x7f7f_ffff
  const HIDDEN := 0x80_0000
  const SIGN_BIT := 0x8000_0000

  // x * 2^k
  function Ldexp(x: real, k: int): real
    decreases if k < 0 then -k else k
  {
    if k == 0 then x else if k > 0 then 2.0 * Ldexp(x, k - 1) else Ldexp(x, k + 1) / 2.0
  }

  function Sign(b: Word): nat { b / SIGN_BIT }

  function Magnitude(b: Word): nat { b % SIGN_BIT }

  function Exponent(m: nat): nat { m / HIDDEN }

  function Fraction(m: nat): nat { m % HIDDEN }

  function Significand(m: nat): nat {
    if Exponent(m) == 0 then Fraction(m) else Fraction(m) + HIDDEN
  }

  // The exponent field as the arithmetic uses it: subnormals share the scale of field 1.
  function ScaleField(m: nat): nat {
    if Exponent(m) == 0 then 1 else Exponent(m)
  }

  // The exact value of a magnitude. For field 255 this is the value the next binade would hold;
  // at INF_MAG it is 2^128, the number infinity stands in for when results are rounded.
  function Mag(m: nat): real {
    Ldexp(Significand(m) as real, ScaleField(m) - 150)
  }

  function Value(b: Word): real {
    if Sign(b) == 1 then -Mag(Magnitude(b)) else Mag(Magnitude(b))
  }

  predicate Finite(b: Word) { Magnitude(b) < INF_MAG }

  function Abs(x: real): real { if x < 0.0 then -x else x }

  // 2^127 * (2 - 2^-24)
  function OverflowThreshold(): real { Ldexp(33554431.0, 103) }

  /** IEEE 754-2008, section 4.3.1: roundTiesToEven of a non-zero exact result x.
      Among all finite numbers none is nearer, a tie goes to the even one, and from the threshold
      on the result is infinity with the sign of x. */
  ghost predicate RoundsTo(x: real, r: Word) {
    && (x < 0.0 ==> Sign(r) == 1)
    && (x > 0.0 ==> Sign(r) == 0)
    && (if Abs(x) >= OverflowThreshold() then Magnitude(r) == INF_MAG
        else
          && Finite(r)
          && (forall g: Word | Finite(g) :: Abs(Value(r) - x) <= Abs(Value(g) - x))
          && (forall g: Word | Finite(g) && Value(g) != Value(r) ::
                Abs(Value(r) - x) == Abs(Value(g) - x) ==> r % 2 == 0))
  }

  function Mid(m: nat): real { (Mag(m) + Mag(m + 1)) / 2.0 }

  /** The same rounding told by neighbours: x lies between the midpoints around m. */
  ghost predicate Nearest(m: nat, x: real) {
    && m <= INF_MAG
    && (m > 0 ==> Mid(m - 1) <= x && (Mid(m - 1) == x ==> m % 2 == 0))
    && (m < INF_MAG ==> x <= Mid(m) && (x == Mid(m) ==> m % 2 == 0))
  }

  // ----- laws of scaling

  lemma LdexpZero(x: real)
    ensures Ldexp(x, 0) == x
  {}

  lemma LdexpStep(x: real, k: int)
    ensures Ldexp(x, k + 1) == 2.0 * Ldexp(x, k)
  {}

  lemma {:induction false} LdexpAdd(x: real, y: real, k: int)
    ensures Ldexp(x + y, k) == Ldexp(x, k) + Ldexp(y, k)
    decreases if k < 0 then -k else k
  {
    if k > 0 {
      LdexpAdd(x, y, k - 1);
    } else if k < 0 {
      LdexpAdd(x, y, k + 1);
    }
  }

  lemma {:induction false} LdexpDouble(x: real, k: int)
    ensures Ldexp(2.0 * x, k) == Ldexp(x, k + 1)
  {
    LdexpAdd(x, x, k);
    LdexpStep(x, k);
  }

  lemma {:induction false} LdexpSign(x: real, k: int)
    ensures x > 0.0 <==> Ldexp(x, k) > 0.0
    ensures x == 0.0 <==> Ldexp(x, k) == 0.0
    decreases if k < 0 then -k else k
  {
    if k > 0 {
      LdexpSign(x, k - 1);
    } else if k < 0 {
      LdexpSign(x, k + 1);
    }
  }

  lemma LdexpOrder(x: real, y: real, k: int)
    ensures x < y <==> Ldexp(x, k) < Ldexp(y, k)
    ensures x == y <==> Ldexp(x, k) == Ldexp(y, k)
  {
    LdexpSign(y - x, k);
    LdexpAdd(x, y - x, k);
  }

  lemma {:induction false} LdexpTwice(x: real, j: int, k: int)
    ensures Ldexp(Ldexp(x, j), k) == Ldexp(x, j + k)
    decreases if k < 0 then -k else k
  {
    if k > 0 {
      LdexpTwice(x, j, k - 1);
      LdexpStep(x, j + k - 1);
    } else if k < 0 {
      LdexpTwice(x, j, k + 1);
      LdexpStep(x, j + k);
    }
  }

  lemma {:induction false} LdexpScale(x: real, y: real, k: int)
    ensures Ldexp(x, k) * y == Ldexp(x * y, k)
    decreases if k < 0 then -k else k
  {
    if k > 0 {
      LdexpScale(x, y, k - 1);
      Regroup(Ldexp(x, k - 1), y);
    } else if k < 0 {
      LdexpScale(x, y, k + 1);
      Regroup(Ldexp(x, k), y);
    }
  }

  lemma Regroup(x: real, y: real)
    ensures (2.0 * x) * y == 2.0 * (x * y)
  {}

  lemma LdexpMul(x: real, y: real, j: int, k: int)
    ensures Ldexp(x, j) * Ldexp(y, k) == Ldexp(x * y, j + k)
  {
    hide Ldexp;
    var z, v := x * y, Ldexp(y, k);
    var w := x * v;
    assert w == Ldexp(z, k) by {
      LdexpScale(y, x, k);
    }
    assert Ldexp(x, j) * v == Ldexp(w, j) by {
      LdexpScale(x, v, j);
    }
    LdexpTwice(z, k, j);
  }

  lemma {:induction false} LdexpNat(n: nat, k: nat) returns (u: int)
    ensures u >= 0 && Ldexp(n as real, k) == u as real
  {
    u := n;
    if k > 0 {
      var v := LdexpNat(n, k - 1);
      u := 2 * v;
    }
  }

  // ----- magnitudes and their midpoints

  lemma MagStep(m: nat)
    ensures Mag(m + 1) == Mag(m) + Ldexp(1.0, ScaleField(m) - 150)
  {
    var s, k := Significand(m), ScaleField(m) - 150;
    LdexpAdd(s as real, 1.0, k);
    if Fraction(m) == HIDDEN - 1 {
      assert Exponent(m + 1) == Exponent(m) + 1 && Fraction(m + 1) == 0;
      if Exponent(m) > 0 {
        LdexpDouble(HIDDEN as real, k);
      }
    } else {
      assert Exponent(m + 1) == Exponent(m) && Fraction(m + 1) == Fraction(m) + 1;
    }
  }

  lemma {:induction false} MagMono(i: nat, j: nat)
    requires i <= j
    ensures i < j ==> Mag(i) < Mag(j)
    decreases j - i
  {
    if i < j {
      MagMono(i, j - 1);
      MagStep(j - 1);
      LdexpSign(1.0, ScaleField(j - 1) - 150);
    }
  }

  lemma MidBetween(m: nat)
    ensures Mag(m) < Mid(m) < Mag(m + 1)
  {
    MagMono(m, m + 1);
  }

  lemma MidMono(i: nat, j: nat)
    requires i < j
    ensures Mid(i) < Mid(j)
  {
    MidBetween(i);
    MagMono(i + 1, j);
    MidBetween(j);
  }

  /** Rounding is a function: no value has two nearest magnitudes. */
  lemma NearestUnique(m: nat, n: nat, x: real)
    requires Nearest(m, x) && Nearest(n, x)
    ensures m == n
  {
    if m < n {
      NearestOrdered(m, n, x);
    } else if n < m {
      NearestOrdered(n, m, x);
    }
  }

  lemma NearestOrdered(m: nat, n: nat, x: real)
    requires m < n
    ensures !(Nearest(m, x) && Nearest(n, x))
  {
    hide Mid;
    if m < n - 1 {
      MidMono(m, n - 1);
    }
  }

  lemma OverflowIsMid()
    ensures Mid(MAX_MAG) == OverflowThreshold()
  {
    MagStep(MAX_MAG);
    LdexpAdd(16777215.0, 1.0, 104);
    LdexpAdd(33554430.0, 1.0, 103);
    LdexpDouble(16777215.0, 103);
    LdexpDouble(1.0, 103);
    LdexpStep(1.0, 103);
    LdexpStep(16777215.0, 103);
  }

  // ----- the two readings of roundTiesToEven agree

  lemma NearestIsClosest(m: nat, n: nat, x: real)
    requires Nearest(m, x) && n <= INF_MAG
    ensures Abs(Mag(m) - x) <= Abs(Mag(n) - x)
    ensures m != n && Abs(Mag(m) - x) == Abs(Mag(n) - x) ==> m % 2 == 0
  {
    hide Mag;
    if n < m {
      MagMono(n, m - 1);
      MagMono(m - 1, m);
    } else if m < n {
      MagMono(m + 1, n);
      MagMono(m, m + 1);
    }
  }

  lemma MagZero()
    ensures Mag(0) == 0.0
  {
    LdexpSign(0.0, -149);
  }

  lemma NearestRounds(x: real, r: Word)
    requires x != 0.0 && (Sign(r) == 1 <==> x < 0.0)
    requires Nearest(Magnitude(r), Abs(x))
    ensures RoundsTo(x, r)
  {
    hide Mag, Nearest;
    var m, ax := Magnitude(r), Abs(x);
    OverflowIsMid();
    NearestOverflow(m, ax);
    forall g: Word | Finite(g)
      ensures Abs(Value(r) - x) <= Abs(Value(g) - x)
      ensures Value(g) != Value(r) && Abs(Value(r) - x) == Abs(Value(g) - x) ==> r % 2 == 0
    {
      NearestIsClosest(m, Magnitude(g), ax);
      NearestIsClosest(m, 0, ax);
      MagZero();
      MagMono(0, Magnitude(g));
    }
  }

  lemma NearestOverflow(m: nat, x: real)
    requires Nearest(m, x)
    ensures m <= INF_MAG && (m == INF_MAG <==> Mid(MAX_MAG) <= x)
  {
    hide Mid;
    if m < MAX_MAG {
      MidMono(m, MAX_MAG);
    }
  }

  lemma RoundsNearest(x: real, r: Word)
    requires x != 0.0 && RoundsTo(x, r)
    ensures Nearest(Magnitude(r), Abs(x))
  {
    hide Mag;
    var m, ax, s := Magnitude(r), Abs(x), Sign(r) * SIGN_BIT;
    OverflowIsMid();
    if ax < OverflowThreshold() {
      assert m % 2 == r % 2;
      if m > 0 {
        var g: Word := s + m - 1;
        assert Magnitude(g) == m - 1 && Sign(g) == Sign(r);
        MagMono(m - 1, m);
        assert Abs(Value(r) - x) <= Abs(Value(g) - x);
        assert Mid(m - 1) <= ax;
      }
      if m < MAX_MAG {
        var g: Word := s + m + 1;
        assert Magnitude(g) == m + 1 && Sign(g) == Sign(r);
        MagMono(m, m + 1);
        assert Abs(Value(r) - x) <= Abs(Value(g) - x);
        assert ax <= Mid(m);
      }
    } else {
      assert m == INF_MAG;
    }
  }

  /** roundTiesToEven determines its result. */
  lemma RoundsUnique(x: real, r: Word, q: Word)
    requires x != 0.0 && RoundsTo(x, r) && RoundsTo(x, q)
    ensures r == q
  {
    RoundsNearest(x, r);
    RoundsNearest(x, q);
    NearestUnique(Magnitude(r), Magnitude(q), Abs(x));
  }
}
