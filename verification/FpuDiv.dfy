/** Division: internal_float_div. */
module FpuDiv {
  import opened Binary32
  import opened Rounding
  import opened Fpu
  import opened Words

  const CORNER_DIV := [
    Rule(P_ZERO, P_ZERO, N_NAN), Rule(N_ZERO, P_ZERO, N_NAN),
    Rule(P_ZERO, N_ZERO, N_NAN), Rule(N_ZERO, N_ZERO, N_NAN),
    Rule(P_INF, P_ZERO, P_INF), Rule(N_INF, P_ZERO, N_INF),
    Rule(P_INF, N_ZERO, N_INF), Rule(N_INF, N_ZERO, P_INF),
    Rule(P_INF, P_INF, N_NAN), Rule(N_INF, P_INF, N_NAN),
    Rule(P_INF, N_INF, N_NAN), Rule(N_INF, N_INF, N_NAN)
  ]

  // The operands that never reach the divider.
  function SpecialQuotient(a: Word, b: Word): Corner {
    if (IsZero(a) && IsZero(b)) || (IsInf(a) && IsInf(b)) then Corner(N_NAN)
    else if a == P_NAN || b == P_NAN then Corner(P_NAN)
    else if a == N_NAN || b == N_NAN then Corner(N_NAN)
    else if IsInf(a) || IsZero(b) then Corner(XorSign(a, b) * SIGN_BIT + INF_MAG)
    else if IsZero(a) || IsInf(b) then Corner(XorSign(a, b) * SIGN_BIT)
    else NoCorner
  }

  const BIT63 := 0x8000_0000_0000_0000

  // The dividend moves left until bit 63 is set, the divisor right until it is odd.
  function Widen(s: nat): nat
    requires s > 0
    decreases if s < BIT63 then BIT63 - s else 0
  {
    if s >= BIT63 then s else Widen(2 * s)
  }

  function WidenShift(s: nat): nat
    requires s > 0
    decreases if s < BIT63 then BIT63 - s else 0
  {
    if s >= BIT63 then 0 else 1 + WidenShift(2 * s)
  }

  function OddPart(s: nat): (r: nat)
    requires s > 0
    ensures 0 < r <= s
  {
    if s % 2 == 1 then s else OddPart(s / 2)
  }

  function OddShift(s: nat): nat
    requires s > 0
  {
    if s % 2 == 1 then 0 else 1 + OddShift(s / 2)
  }

  lemma {:induction false} WidenScale(s: nat)
    requires 0 < s < 2 * BIT63
    ensures BIT63 <= Widen(s) < 2 * BIT63
    ensures Widen(s) as real == Ldexp(s as real, WidenShift(s))
    decreases if s < BIT63 then BIT63 - s else 0
  {
    if s < BIT63 {
      WidenScale(2 * s);
      LdexpDouble(s as real, WidenShift(2 * s));
    }
  }

  lemma {:induction false} OddScale(s: nat)
    requires s > 0
    ensures s as real == Ldexp(OddPart(s) as real, OddShift(s))
  {
    if s % 2 == 0 {
      OddScale(s / 2);
      LdexpStep(OddPart(s / 2) as real, OddShift(s / 2));
    }
  }

  function Dividend(a: Word): nat
    requires !IsZero(a)
  {
    Widen(Significand(Magnitude(a)))
  }

  function Divisor(b: Word): (r: nat)
    requires !IsZero(b)
    ensures r > 0
  {
    OddPart(Significand(Magnitude(b)))
  }

  function QuotientExp(a: Word, b: Word): int
    requires !IsZero(a) && !IsZero(b)
  {
    ScaleField(Magnitude(a)) - ScaleField(Magnitude(b)) + 153
      - WidenShift(Significand(Magnitude(a))) - OddShift(Significand(Magnitude(b)))
  }

  function Quot(n: nat, d: nat): nat
    requires d > 0
  {
    n / d
  }

  // The integer quotient; its remainder is dropped.
  function QuotientSig(a: Word, b: Word): nat
    requires !IsZero(a) && !IsZero(b)
  {
    Quot(Dividend(a), Divisor(b))
  }

  // What is left of the exact quotient once the remainder is dropped.
  function Truncated(a: Word, b: Word): real
    requires !IsZero(a) && !IsZero(b)
  {
    Ldexp(QuotientSig(a, b) as real, QuotientExp(a, b) - 153)
  }

  predicate DropsRemainder(a: Word, b: Word)
    requires !IsZero(a) && !IsZero(b)
  {
    Dividend(a) % Divisor(b) != 0
  }

  /** r is what the divider delivers, for every pair of bit patterns. */
  ghost predicate IsQuotientOutcome(a: Word, b: Word, r: Word) {
    match SpecialQuotient(a, b)
    case Corner(res) => r == res
    case NoCorner => Sign(r) == XorSign(a, b) && Delivers(Truncated(a, b), Magnitude(r))
  }

  lemma CornerDivIsSpecial(i: nat)
    requires i < |CORNER_DIV|
    ensures var c := CORNER_DIV[i]; SpecialQuotient(c.a, c.b) == Corner(c.res)
  {}

  lemma CornerDivCovers(a: Word, b: Word)
    requires forall i :: 0 <= i < |CORNER_DIV| ==> !Matches(CORNER_DIV[i], a, b)
    ensures !(IsZero(a) && IsZero(b)) && !(IsInf(a) && IsInf(b)) && !(IsInf(a) && IsZero(b))
  {
    assert !Matches(CORNER_DIV[0], a, b) && !Matches(CORNER_DIV[1], a, b);
    assert !Matches(CORNER_DIV[2], a, b) && !Matches(CORNER_DIV[3], a, b);
    assert !Matches(CORNER_DIV[4], a, b) && !Matches(CORNER_DIV[5], a, b);
    assert !Matches(CORNER_DIV[6], a, b) && !Matches(CORNER_DIV[7], a, b);
    assert !Matches(CORNER_DIV[8], a, b) && !Matches(CORNER_DIV[9], a, b);
    assert !Matches(CORNER_DIV[10], a, b) && !Matches(CORNER_DIV[11], a, b);
  }

  lemma QuotientBounds(w: nat, d: nat)
    requires BIT63 <= w < 2 * BIT63 && 0 < d < 2 * HIDDEN
    ensures 0x80_0000_0000 <= Quot(w, d) < 2 * BIT63
  {
    var q := w / d;
    assert w == q * d + w % d;
    assert (q + 1) * d == q * d + d;
    if q + 1 <= 0x80_0000_0000 {
      MulMono(q + 1, d, 0x80_0000_0000, 0xff_ffff);
    }
    MulMono(q, 1, q, d);
  }

  method InternalFloatDiv(b: Word, a: Word) returns (r: Word)
    ensures IsQuotientOutcome(a, b, r)
  {
    hide Delivers, Truncated;
    var corner := Lookup(CORNER_DIV, a, b);
    if corner.Corner? {
      ghost var i :| 0 <= i < |CORNER_DIV| && Matches(CORNER_DIV[i], a, b) && CORNER_DIV[i].res == corner.res;
      CornerDivIsSpecial(i);
      return corner.res;
    }
    CornerDivCovers(a, b);
    var sign := XorSign(a, b);
    if a == P_NAN || a == N_NAN || b == P_NAN || b == N_NAN {
      return if a == P_NAN || b == P_NAN then P_NAN else N_NAN;
    }
    if a == P_INF || a == N_INF {
      return if sign == 1 then N_INF else P_INF;
    }
    if b == P_ZERO || b == N_ZERO {
      return if sign == 1 then N_INF else P_INF;
    }
    if a == P_ZERO || a == N_ZERO {
      return sign * SIGN_BIT + Magnitude(a);
    }
    if b == P_INF || b == N_INF {
      return if sign == 1 then N_ZERO else P_ZERO;
    }
    r := DivideSignificands(sign, a, b);
  }

  // ----- quotients with a zero, an infinity or a NaN

  /** Zero over a finite number other than zero is the exact quotient, with the exclusive-or sign. */
  lemma ZeroQuotient(a: Word, b: Word, r: Word)
    requires IsZero(a) && Finite(b) && !IsZero(b) && IsQuotientOutcome(a, b, r)
    ensures Value(b) != 0.0 && Value(r) == Value(a) / Value(b) == 0.0
    ensures r == if Sign(a) == Sign(b) then P_ZERO else N_ZERO
  {
    hide Mag, Delivers;
    MagZero();
    MagPositive(Magnitude(b));
  }

  /** A finite number over infinity is the zero with the exclusive-or sign. */
  lemma OverInfinity(a: Word, b: Word, r: Word)
    requires Finite(a) && IsInf(b) && IsQuotientOutcome(a, b, r)
    ensures r == if Sign(a) == Sign(b) then P_ZERO else N_ZERO
  {
    hide Delivers;
  }

  /** A finite number other than zero over zero, and infinity over a finite number, are infinities
      with the exclusive-or sign. */
  lemma InfiniteQuotient(a: Word, b: Word, r: Word)
    requires (Finite(a) && !IsZero(a) && IsZero(b)) || (IsInf(a) && Finite(b))
    requires IsQuotientOutcome(a, b, r)
    ensures r == if Sign(a) == Sign(b) then P_INF else N_INF
  {
    hide Delivers;
  }

  /** 0 / 0 and infinity over infinity are invalid and give the negative NaN; of NaNs the positive wins. */
  lemma NaNQuotient(a: Word, b: Word, r: Word)
    requires IsQuotientOutcome(a, b, r)
    ensures (IsZero(a) && IsZero(b)) || (IsInf(a) && IsInf(b)) ==> r == N_NAN
    ensures a == P_NAN || b == P_NAN ==> r == P_NAN
    ensures (a == N_NAN && b != P_NAN) || (b == N_NAN && a != P_NAN) ==> r == N_NAN
  {
    hide Delivers;
  }

  // The efforts to keep the precision of the quotient; shift counts the places gained.
  method ScaleOperands(sa: nat, sb: nat) returns (sigA: nat, sigB: nat, shift: int)
    requires 0 < sa < 2 * BIT63 && sb > 0
    ensures sigA == Widen(sa) && sigB == OddPart(sb) && shift == WidenShift(sa) + OddShift(sb)
  {
    sigA, sigB, shift := sa, sb, 0;
    while sigA / BIT63 == 0
      invariant 0 < sigA < 2 * BIT63
      invariant Widen(sigA) == Widen(sa) && shift + WidenShift(sigA) == WidenShift(sa)
      decreases 2 * BIT63 - sigA
    {
      sigA := 2 * sigA;
      shift := shift + 1;
    }
    while sigB % 2 == 0
      invariant sigB > 0 && OddPart(sigB) == OddPart(sb)
      invariant shift + OddShift(sigB) == WidenShift(sa) + OddShift(sb)
      decreases sigB
    {
      sigB := sigB / 2;
      shift := shift + 1;
    }
  }

  method DivideSignificands(sign: nat, a: Word, b: Word) returns (r: Word)
    requires sign < 2 && !IsZero(a) && !IsZero(b)
    ensures Sign(r) == sign && Delivers(Truncated(a, b), Magnitude(r))
  {
    hide Ldexp, Delivers, Widen, WidenShift, OddPart, OddShift, Quot, Tracks;
    var ma, mb := Magnitude(a), Magnitude(b);
    var sigA, sigB, shift := ScaleOperands(Significand(ma), Significand(mb));
    WidenScale(Significand(ma));
    QuotientBounds(sigA, sigB);
    var sig := Quot(sigA, sigB);
    ShiftBounds(Significand(ma), Significand(mb));
    var exp: Word := (ScaleField(ma) - ScaleField(mb) + 127 - (shift - 23 - 3)) % 0x1_0000_0000;
    assert ToInt32(exp) == QuotientExp(a, b);
    ExactTracks(sig);
    r := InternalNormalize(sign, ToInt32(exp), sig, sig as real);
  }

  lemma ShiftBounds(sa: nat, sb: nat)
    requires 0 < sa && 0 < sb
    ensures WidenShift(sa) <= 63 && OddShift(sb) < sb
  {
    assert Pow2(2) == 4;
    Pow2Sum(2, 2);
    Pow2Sum(4, 4);
    Pow2Sum(8, 8);
    Pow2Sum(16, 16);
    Pow2Sum(32, 32);
    assert Pow2(63) == BIT63;
    MulMono(1, Pow2(63), sa, Pow2(63));
    WidenShiftBound(sa, 63);
    OddShiftBound(sb);
  }

  lemma {:induction false} WidenShiftBound(s: nat, n: nat)
    requires s > 0 && s * Pow2(n) >= BIT63
    ensures WidenShift(s) <= n
    decreases n
  {
    if s < BIT63 {
      assert s * Pow2(n) == 2 * s * Pow2(n - 1);
      WidenShiftBound(2 * s, n - 1);
    }
  }

  lemma {:induction false} OddShiftBound(s: nat)
    requires s > 0
    ensures OddShift(s) < s
  {
    if s % 2 == 0 {
      OddShiftBound(s / 2);
    }
  }

  // ----- how far the dropped remainder can move the result

  /** x is the midpoint between an even magnitude and the next one up. */
  ghost predicate EvenTie(x: real) { exists n: nat :: n < INF_MAG && n % 2 == 0 && x == Mid(n) }

  // One unit of the integer quotient.
  function Step(a: Word, b: Word): real
    requires !IsZero(a) && !IsZero(b)
  {
    Ldexp(1.0, QuotientExp(a, b) - 153)
  }

  /** The exact quotient lies within one step above the truncated one. */
  lemma TruncatedBelow(a: Word, b: Word)
    requires !IsZero(a) && !IsZero(b)
    ensures Mag(Magnitude(b)) > 0.0
    ensures var x, t := Mag(Magnitude(a)) / Mag(Magnitude(b)), Truncated(a, b);
      t <= x < t + Step(a, b) && (t == x <==> !DropsRemainder(a, b))
    ensures 0x80_0000_0000 <= QuotientSig(a, b)
  {
    hide Ldexp, Widen, WidenShift, OddPart, OddShift, Mag;
    var w, d, k := Dividend(a), Divisor(b), QuotientExp(a, b) - 153;
    var q, f := QuotientSig(a, b), w as real / d as real;
    WidenScale(Significand(Magnitude(a)));
    QuotientBounds(w, d);
    assert w == q * d + w % d;
    FractionBounds(w, d);
    ExactQuotient(a, b);
    LdexpAdd(q as real, 1.0, k);
    LdexpOrder(q as real, f, k);
    LdexpOrder(f, q as real + 1.0, k);
  }

  lemma FractionBounds(w: nat, d: nat)
    requires d > 0
    ensures (w / d) as real <= w as real / d as real < (w / d) as real + 1.0
    ensures (w / d) as real == w as real / d as real <==> w % d == 0
  {
    var q, r := w / d, w % d;
    assert w == q * d + r;
    var f, g, d' := w as real / d as real, q as real, d as real;
    assert f * d' == w as real;
    assert g * d' == (q * d) as real;
    assert (f - g) * d' == r as real;
    Proper(f - g, d', r as real);
  }

  lemma Proper(z: real, d: real, r: real)
    requires 0.0 <= r < d && z * d == r
    ensures 0.0 <= z < 1.0 && (z == 0.0 <==> r == 0.0)
  {
    assert z < 0.0 ==> z * d < 0.0;
    assert z >= 1.0 ==> (z - 1.0) * d >= 0.0;
  }

  lemma ExactQuotient(a: Word, b: Word)
    requires !IsZero(a) && !IsZero(b)
    ensures Mag(Magnitude(b)) > 0.0
    ensures Mag(Magnitude(a)) / Mag(Magnitude(b)) ==
            Ldexp(Dividend(a) as real / Divisor(b) as real, QuotientExp(a, b) - 153)
  {
    hide Ldexp, Widen, WidenShift, OddPart, OddShift;
    var sa, sb := Significand(Magnitude(a)), Significand(Magnitude(b));
    var w, d, f := Dividend(a) as real, Divisor(b) as real, Dividend(a) as real / Divisor(b) as real;
    var ea, eb := ScaleField(Magnitude(a)) - 150, ScaleField(Magnitude(b)) - 150;
    WidenScale(sa);
    OddScale(sb);
    LdexpTwice(sa as real, WidenShift(sa), ea - WidenShift(sa));
    LdexpTwice(d, OddShift(sb), eb);
    assert f * d == w;
    LdexpMul(f, d, QuotientExp(a, b) - 153, eb + OddShift(sb));
    MagPositive(Magnitude(b));
    DivisionIs(Ldexp(f, QuotientExp(a, b) - 153), Mag(Magnitude(b)), Mag(Magnitude(a)));
  }

  lemma DivisionIs(x: real, y: real, z: real)
    requires y > 0.0 && x * y == z
    ensures z / y == x
  {}

  /** Midpoints and numbers well above the step are whole numbers of steps. */
  lemma OnGrid(n: nat, k: int) returns (mid: int, above: int)
    requires Ldexp(549755813888.0, k) < Mag(n + 1)
    ensures Mid(n) == Ldexp(mid as real, k) && Mag(n + 1) == Ldexp(above as real, k)
  {
    hide Ldexp, Mag, Mid;
    var e: int, m: int := ScaleField(n), Significand(n);
    assert n == Assemble(e, m) && m < 2 * HIDDEN && (e > 1 ==> m >= HIDDEN);
    UpperMid(e, m);
    AssembleMag(e, m);
    MagStep(n);
    LdexpAdd(m as real, 1.0, e - 150);
    if k >= e - 150 {
      LdexpOrder(m as real + 1.0, 549755813888.0, e - 150);
      LdexpMono(549755813888.0, e - 150, k);
    }
    LdexpDouble(m as real + 0.5, e - 151);
    LdexpDouble(m as real + 1.0, e - 151);
    mid := LdexpWhole(2 * m + 1, e - 151, k);
    above := LdexpWhole(2 * m + 2, e - 151, k);
  }

  lemma LdexpWhole(n: nat, j: int, k: int) returns (u: int)
    requires k <= j
    ensures Ldexp(n as real, j) == Ldexp(u as real, k)
  {
    hide Ldexp;
    u := LdexpNat(n, j - k);
    LdexpTwice(n as real, j - k, k);
  }

  /** Dropping less than one step keeps the nearest magnitude, except from an even tie: there the
      tie goes down although the exact value is above it. */
  lemma DroppedNearest(n: nat, q: nat, k: int, x: real)
    requires q >= 0x80_0000_0000 && Nearest(n, Ldexp(q as real, k))
    requires Ldexp(q as real, k) <= x < Ldexp(q as real, k) + Ldexp(1.0, k)
    ensures if EvenTie(Ldexp(q as real, k)) && x != Ldexp(q as real, k) then Nearest(n + 1, x) else Nearest(n, x)
    ensures EvenTie(Ldexp(q as real, k)) ==> n < INF_MAG && Mid(n) == Ldexp(q as real, k)
  {
    hide Ldexp, Mag, Mid, EvenTie;
    var t := Ldexp(q as real, k);
    if n < INF_MAG {
      MidsAbove(n, q, k);
      MidMono(n, n + 1);
    }
    if EvenTie(t) {
      EvenTieIs(n, t);
    } else {
      NotATie(n, t);
    }
  }

  lemma NotATie(n: nat, t: real)
    requires !EvenTie(t)
    ensures n < INF_MAG && n % 2 == 0 ==> t != Mid(n)
  {
    hide Mid;
  }

  // Above the truncated value, the next midpoint is at least one whole step away.
  lemma MidsAbove(n: nat, q: nat, k: int)
    requires n < INF_MAG && q >= 0x80_0000_0000
    requires Nearest(n, Ldexp(q as real, k))
    ensures var t, step := Ldexp(q as real, k), Ldexp(1.0, k);
      && (t != Mid(n) ==> t + step <= Mid(n))
      && (n + 1 < INF_MAG ==> t + step <= Mid(n + 1))
  {
    hide Ldexp, Mag, Mid;
    MidBetween(n);
    MidMono(n, n + 1);
    LdexpAdd(q as real, 1.0, k);
    GridAbove(n, q, k);
    if n + 1 < INF_MAG {
      MagMono(n + 1, n + 2);
      GridAbove(n + 1, q, k);
    }
  }

  lemma GridAbove(n: nat, q: nat, k: int)
    requires q >= 0x80_0000_0000 && Ldexp(q as real, k) < Mag(n + 1)
    ensures Ldexp(q as real, k) < Mid(n) ==> Ldexp(q as real + 1.0, k) <= Mid(n)
    ensures Ldexp(q as real + 1.0, k) <= Mag(n + 1)
  {
    hide *;
    LdexpOrder(q as real, 549755813888.0, k);
    var j, i := OnGrid(n, k);
    NextOnGrid(q, j, k);
    NextOnGrid(q, i, k);
  }

  lemma NextOnGrid(q: int, j: int, k: int)
    ensures Ldexp(q as real, k) < Ldexp(j as real, k) ==> Ldexp(q as real + 1.0, k) <= Ldexp(j as real, k)
  {
    hide Ldexp;
    var x, y := q as real, j as real;
    LdexpOrder(x, y, k);
    LdexpOrder(y, x + 1.0, k);
    if q < j {
      assert x + 1.0 <= y;
    } else {
      assert x >= y;
    }
  }

  lemma EvenTieIs(n: nat, t: real)
    requires EvenTie(t) && Nearest(n, t)
    ensures n < INF_MAG && n % 2 == 0 && t == Mid(n)
  {
    hide Mid;
    var p: nat :| p < INF_MAG && p % 2 == 0 && t == Mid(p);
    if p > 0 {
      MidMono(p - 1, p);
    }
    assert Nearest(p, t);
    NearestUnique(n, p, t);
  }

  lemma QuotientValue(a: Word, b: Word)
    requires !IsZero(a) && !IsZero(b)
    ensures Value(b) != 0.0 && Mag(Magnitude(b)) > 0.0
    ensures var x, p := Value(a) / Value(b), Mag(Magnitude(a)) / Mag(Magnitude(b));
      x != 0.0 && Abs(x) == p && (x < 0.0 <==> XorSign(a, b) == 1)
  {
    hide Mag;
    MagPositive(Magnitude(a));
    MagPositive(Magnitude(b));
    var p, q := Mag(Magnitude(a)), Mag(Magnitude(b));
    var f := p / q;
    assert f * q == p;
    assert f > 0.0;
    DivisionIs(-f, q, -p);
    assert p / (-q) == -f;
    assert (-p) / (-q) == f;
  }

  /** For finite non-zero operands the result is the correctly rounded quotient exactly when the
      truncated quotient keeps its carry and no non-zero remainder is dropped from an even tie. */
  lemma QuotientRounds(a: Word, b: Word, r: Word)
    requires Finite(a) && Finite(b) && !IsZero(a) && !IsZero(b)
    requires IsQuotientOutcome(a, b, r)
    ensures Value(b) != 0.0
    ensures RoundsTo(Value(a) / Value(b), r) <==>
            !LosesCarry(Truncated(a, b)) && !(DropsRemainder(a, b) && EvenTie(Truncated(a, b)))
  {
    hide Mag, Mid, Ldexp, Value, RoundsTo, Nearest, LosesCarry, EvenTie, DropsRemainder, Delivers;
    QuotientValue(a, b);
    TruncatedBelow(a, b);
    TruncatedRounds(Value(a) / Value(b), QuotientSig(a, b), QuotientExp(a, b) - 153, r);
  }

  lemma TruncatedRounds(x: real, q: nat, k: int, r: Word)
    requires x != 0.0 && (Sign(r) == 1 <==> x < 0.0) && q >= 0x80_0000_0000
    requires Delivers(Ldexp(q as real, k), Magnitude(r))
    requires Ldexp(q as real, k) <= Abs(x) < Ldexp(q as real, k) + Ldexp(1.0, k)
    ensures var t := Ldexp(q as real, k);
      RoundsTo(x, r) <==> !LosesCarry(t) && !(Abs(x) != t && EvenTie(t))
  {
    hide Mag, Mid, Ldexp, RoundsTo, EvenTie, Nearest, LosesCarry;
    if LosesCarry(Ldexp(q as real, k)) {
      AboveLostCarry(Ldexp(q as real, k), Abs(x));
      if RoundsTo(x, r) {
        RoundsNearest(x, r);
      }
    } else {
      DroppedRounds(x, q, k, r);
    }
  }

  lemma DroppedRounds(x: real, q: nat, k: int, r: Word)
    requires x != 0.0 && (Sign(r) == 1 <==> x < 0.0) && q >= 0x80_0000_0000
    requires Nearest(Magnitude(r), Ldexp(q as real, k))
    requires Ldexp(q as real, k) <= Abs(x) < Ldexp(q as real, k) + Ldexp(1.0, k)
    ensures RoundsTo(x, r) <==> !(EvenTie(Ldexp(q as real, k)) && Abs(x) != Ldexp(q as real, k))
  {
    hide Mag, Mid, Ldexp, Value, RoundsTo, EvenTie, Nearest;
    var t, m := Ldexp(q as real, k), Magnitude(r);
    DroppedNearest(m, q, k, Abs(x));
    if EvenTie(t) && Abs(x) != t {
      if Nearest(m, Abs(x)) {
        NearestUnique(m, m + 1, Abs(x));
      }
    } else {
      NearestRounds(x, r);
    }
    if RoundsTo(x, r) {
      RoundsNearest(x, r);
    }
  }

  lemma AboveLostCarry(t: real, x: real)
    requires LosesCarry(t) && t <= x
    ensures !Nearest(0, x)
  {
    hide Mid, Mag;
    MidMono(0, HIDDEN - 1);
  }

  lemma NextWord(r: Word)
    requires Magnitude(r) < INF_MAG
    ensures Magnitude(r + 1) == Magnitude(r) + 1 && Sign(r + 1) == Sign(r)
  {}

  lemma RoundsWithinOne(x: real, q: nat, k: int, r: Word)
    requires x != 0.0 && (Sign(r) == 1 <==> x < 0.0) && q >= 0x80_0000_0000
    requires Nearest(Magnitude(r), Ldexp(q as real, k))
    requires Ldexp(q as real, k) <= Abs(x) < Ldexp(q as real, k) + Ldexp(1.0, k)
    ensures RoundsTo(x, r) || (r < 0xffff_ffff && RoundsTo(x, r + 1))
  {
    hide Mag, Mid, Ldexp, Value, RoundsTo, EvenTie;
    var t := Ldexp(q as real, k);
    DroppedNearest(Magnitude(r), q, k, Abs(x));
    if EvenTie(t) && Abs(x) != t {
      NextWord(r);
      NearestRounds(x, r + 1);
    } else {
      NearestRounds(x, r);
    }
  }

  /** The result is the correctly rounded quotient or the number just below it. */
  ghost predicate WithinOne(x: real, r: Word) { RoundsTo(x, r) || (r < 0xffff_ffff && RoundsTo(x, r + 1)) }

  /** Division is faithful exactly when no carry is lost. */
  lemma QuotientFaithful(a: Word, b: Word, r: Word)
    requires Finite(a) && Finite(b) && !IsZero(a) && !IsZero(b)
    requires IsQuotientOutcome(a, b, r)
    ensures Value(b) != 0.0
    ensures WithinOne(Value(a) / Value(b), r) <==> !LosesCarry(Truncated(a, b))
  {
    hide Mag, Mid, Ldexp, Value, WithinOne, LosesCarry, Nearest, Delivers, DropsRemainder;
    QuotientValue(a, b);
    TruncatedBelow(a, b);
    TruncatedWithinOne(Value(a) / Value(b), QuotientSig(a, b), QuotientExp(a, b) - 153, r);
  }

  lemma TruncatedWithinOne(x: real, q: nat, k: int, r: Word)
    requires x != 0.0 && (Sign(r) == 1 <==> x < 0.0) && q >= 0x80_0000_0000
    requires Delivers(Ldexp(q as real, k), Magnitude(r))
    requires Ldexp(q as real, k) <= Abs(x) < Ldexp(q as real, k) + Ldexp(1.0, k)
    ensures WithinOne(x, r) <==> !LosesCarry(Ldexp(q as real, k))
  {
    hide Mag, Mid, Ldexp, RoundsTo, LosesCarry, Nearest;
    if LosesCarry(Ldexp(q as real, k)) {
      LostFarBelow(Ldexp(q as real, k), x, r);
    } else {
      RoundsWithinOne(x, q, k, r);
    }
  }

  // A lost carry leaves zero, more than one number below.
  lemma LostFarBelow(t: real, x: real, r: Word)
    requires LosesCarry(t) && t <= Abs(x) && x != 0.0 && Magnitude(r) == 0
    ensures !WithinOne(x, r)
  {
    hide Mid, Mag, RoundsTo;
    MidMono(1, HIDDEN - 1);
    AboveLostCarry(t, Abs(x));
    NextWord(r);
    if RoundsTo(x, r) {
      RoundsNearest(x, r);
    }
    if r < 0xffff_ffff && RoundsTo(x, r + 1) {
      RoundsNearest(x, r + 1);
    }
  }

  /** From 2^-126 on no carry is lost, so division is faithful on every normal result. */
  lemma NormalQuotientFaithful(a: Word, b: Word, r: Word)
    requires Finite(a) && Finite(b) && !IsZero(a) && !IsZero(b)
    requires IsQuotientOutcome(a, b, r) && Value(b) != 0.0 && Abs(Value(a) / Value(b)) >= Mag(HIDDEN)
    ensures WithinOne(Value(a) / Value(b), r)
  {
    hide Mag, Mid, Ldexp, Value, RoundsTo, Nearest;
    QuotientValue(a, b);
    TruncatedBelow(a, b);
    var q, k := QuotientSig(a, b), QuotientExp(a, b) - 153;
    if LosesCarry(Truncated(a, b)) {
      LdexpAdd(q as real, 1.0, k);
      NumberBesideCarry(HIDDEN, q, k);
      GridAbove(HIDDEN - 1, q, k);
    }
    QuotientFaithful(a, b, r);
  }

  /** A quotient that is a number comes out as that number. */
  lemma RepresentableQuotient(a: Word, b: Word, r: Word, g: Word)
    requires Finite(a) && Finite(b) && !IsZero(a) && !IsZero(b)
    requires IsQuotientOutcome(a, b, r)
    requires Finite(g) && Value(b) != 0.0 && Value(g) == Value(a) / Value(b)
    ensures r == g
  {
    hide Mag, Mid, Ldexp, RoundsTo, LosesCarry, EvenTie, DropsRemainder, Nearest;
    QuotientValue(a, b);
    TruncatedBelow(a, b);
    var p, t, q, k := Mag(Magnitude(g)), Truncated(a, b), QuotientSig(a, b), QuotientExp(a, b) - 153;
    MagZero();
    MagMono(0, Magnitude(g));
    LdexpAdd(q as real, 1.0, k);
    if LosesCarry(t) {
      NumberBesideCarry(Magnitude(g), q, k);
    }
    QuotientRounds(a, b, r);
    if EvenTie(t) && p != t {
      DroppedNearest(Magnitude(r), q, k, p);
      NumberNearest(Magnitude(g));
      NearestUnique(Magnitude(g), Magnitude(r) + 1, p);
      MidBetween(Magnitude(r));
      GridAbove(Magnitude(r), q, k);
    }
    RoundsToItself(g);
    RoundsUnique(Value(g), r, g);
  }

  lemma NumberNearest(n: nat)
    requires n <= INF_MAG
    ensures Nearest(n, Mag(n))
  {
    hide Mag;
    if n > 0 {
      MidBetween(n - 1);
    }
    MidBetween(n);
  }

  lemma NumberBesideCarry(g: nat, q: nat, k: int)
    requires q >= 0x80_0000_0000 && LosesCarry(Ldexp(q as real, k))
    ensures !(Ldexp(q as real, k) <= Mag(g) < Ldexp(q as real + 1.0, k))
  {
    hide Mag, Mid, Ldexp;
    GridAbove(HIDDEN - 1, q, k);
    MidBetween(HIDDEN - 1);
    if g < HIDDEN {
      MagMono(g, HIDDEN - 1);
    } else {
      MagMono(HIDDEN, g);
    }
  }

  // ----- the tie does happen

  lemma {:induction false} WidenIs(s: nat, n: nat)
    requires s > 0 && BIT63 <= s * Pow2(n) < 2 * BIT63
    ensures Widen(s) == s * Pow2(n) && WidenShift(s) == n
    decreases n
  {
    if n > 0 {
      assert s * Pow2(n) == 2 * s * Pow2(n - 1);
      MulMono(2 * s, 1, 2 * s, Pow2(n - 1));
      WidenIs(2 * s, n - 1);
    }
  }

  lemma Pow2Of40()
    ensures Pow2(40) == 0x100_0000_0000
  {
    assert Pow2(2) == 4;
    Pow2Sum(2, 2);
    Pow2Sum(4, 4);
    Pow2Sum(8, 8);
    Pow2Sum(16, 16);
    Pow2Sum(32, 8);
  }

  lemma TieAt(m: nat, q: nat)
    requires HIDDEN <= m < 2 * HIDDEN && m % 2 == 0 && q == 65536 * m + 32768
    ensures EvenTie(Ldexp(q as real, -40))
  {
    hide Ldexp, Mid;
    var z, n := m as real + 0.5, Assemble(126, m);
    UpperMid(126, m);
    EighthScale(65536.0 * z, -40);
    EighthScale(8192.0 * z, -37);
    EighthScale(1024.0 * z, -34);
    EighthScale(128.0 * z, -31);
    EighthScale(16.0 * z, -28);
    LdexpDouble(z, -25);
    assert n < INF_MAG && n % 2 == 0 && Ldexp(q as real, -40) == Mid(n);
  }

  /** Here the integer quotient is exactly half-way, so the dropped remainder decides: the result
      is the even neighbour although the quotient lies above the tie. */
  lemma DroppedTieWitness(a: Word, b: Word, r: Word)
    requires a == 0x3fd5_498e && b == 0x3fe1_2e77
    requires IsQuotientOutcome(a, b, r)
    ensures Value(b) != 0.0 && !RoundsTo(Value(a) / Value(b), r)
  {
    hide Ldexp, Mag, Mid, Widen, WidenShift, Pow2, Value, RoundsTo, LosesCarry, Nearest;
    var sa := 0xd5_498e;
    assert Significand(Magnitude(a)) == sa && Significand(Magnitude(b)) == 0xe1_2e77;
    Pow2Of40();
    WidenIs(sa, 40);
    assert QuotientSig(a, b) == 0xf2_7a5c_8000 && DropsRemainder(a, b);
    TieAt(0xf2_7a5c, 0xf2_7a5c_8000);
    QuotientRounds(a, b, r);
  }

  lemma {:induction false} OddIs(s: nat, n: nat)
    requires s % 2 == 1
    ensures s * Pow2(n) > 0 && OddPart(s * Pow2(n)) == s && OddShift(s * Pow2(n)) == n
  {
    if n > 0 {
      OddIs(s, n - 1);
      assert s * Pow2(n) == 2 * (s * Pow2(n - 1));
    }
  }

  lemma Pow2Of23()
    ensures Pow2(23) == 0x80_0000
  {
    assert Pow2(2) == 4 && Pow2(3) == 8;
    Pow2Sum(2, 2);
    Pow2Sum(4, 4);
    Pow2Sum(8, 8);
    Pow2Sum(16, 4);
    Pow2Sum(20, 3);
  }

  /** Division loses a carry too: (2^24 - 1) * 2^-149 / 2 lies half a unit below 2^-126, which is
      its correct rounding, but zero comes out. */
  lemma LostQuotientWitness(a: Word, b: Word, r: Word)
    requires a == 0x00ff_ffff && b == 0x4000_0000
    requires IsQuotientOutcome(a, b, r)
    ensures Value(b) != 0.0
    ensures r == P_ZERO && RoundsTo(Value(a) / Value(b), 0x0080_0000)
  {
    hide Ldexp, Mag, Mid, Widen, WidenShift, OddPart, OddShift, Pow2, Value, RoundsTo, LosesCarry, Nearest;
    var s := 0xff_ffff;
    assert Significand(Magnitude(a)) == s && Significand(Magnitude(b)) == 0x80_0000;
    Pow2Of40();
    WidenIs(s, 40);
    WidenScale(s);
    Pow2Of23();
    OddIs(1, 23);
    LdexpTwice(s as real, 40, -190);
    LdexpDouble(s as real, -151);
    LdexpDouble(33554430.0, -152);
    assert Truncated(a, b) == Ldexp(67108860.0, -152);
    LosesCarryScaled(67108860.0);
    CarryBounds();
    QuotientValue(a, b);
    TruncatedBelow(a, b);
    MidBetween(HIDDEN);
    LdexpOrder(67108860.0, 67108864.0, -152);
    HalfBelowRounds(Mag(Magnitude(a)) / Mag(Magnitude(b)));
    NearestRounds(Value(a) / Value(b), 0x0080_0000);
  }

  // The midpoint below the smallest normal number is a tie that goes up.
  lemma HalfBelowRounds(x: real)
    requires x == Mid(HIDDEN - 1)
    ensures Nearest(HIDDEN, x)
  {
    hide Mag;
    MidMono(HIDDEN - 1, HIDDEN);
  }
}
