/** Multiplication: internal_float_mul. */
module FpuMul {
  import opened Binary32
  import opened Rounding
  import opened Fpu
  import opened Words

  const CORNER_MUL := [
    Rule(P_ZERO, P_INF, N_NAN), Rule(P_ZERO, N_INF, N_NAN),
    Rule(N_ZERO, P_INF, N_NAN), Rule(N_ZERO, N_INF, N_NAN),
    Rule(P_INF, P_ZERO, N_NAN), Rule(P_INF, N_ZERO, N_NAN),
    Rule(N_INF, P_ZERO, N_NAN), Rule(N_INF, N_ZERO, N_NAN)
  ]

  // The operands that never reach the multiplier.
  function SpecialProduct(a: Word, b: Word): Corner {
    if (IsZero(a) && IsInf(b)) || (IsInf(a) && IsZero(b)) then Corner(N_NAN)
    else if a == P_NAN || b == P_NAN then Corner(P_NAN)
    else if a == N_NAN || b == N_NAN then Corner(N_NAN)
    else if IsZero(a) || IsZero(b) then Corner(XorSign(a, b) * SIGN_BIT)
    else if IsInf(a) || IsInf(b) then Corner(XorSign(a, b) * SIGN_BIT + INF_MAG)
    else NoCorner
  }

  function ProductExp(a: Word, b: Word): int {
    ScaleField(Magnitude(a)) + ScaleField(Magnitude(b)) - 147
  }

  function ProductSig(a: Word, b: Word): nat {
    Significand(Magnitude(a)) * Significand(Magnitude(b))
  }

  /** The guard of the branch that treats field 0 as meaning two subnormals: here the product of a
      subnormal is read at twice its value. */
  predicate ScaleSlips(a: Word, b: Word) {
    ProductExp(a, b) == 0 && ProductSig(a, b) < 2 * TOP
  }

  /** r is what the multiplier delivers, for every pair of bit patterns. */
  ghost predicate IsProductOutcome(a: Word, b: Word, r: Word) {
    var x := Mag(Magnitude(a)) * Mag(Magnitude(b));
    match SpecialProduct(a, b)
    case Corner(res) => r == res
    case NoCorner => Sign(r) == XorSign(a, b) && Delivers(if ScaleSlips(a, b) then 2.0 * x else x, Magnitude(r))
  }

  lemma CornerMulIsSpecial(i: nat)
    requires i < |CORNER_MUL|
    ensures var c := CORNER_MUL[i]; SpecialProduct(c.a, c.b) == Corner(c.res)
  {}

  lemma CornerMulCovers(a: Word, b: Word)
    requires forall i :: 0 <= i < |CORNER_MUL| ==> !Matches(CORNER_MUL[i], a, b)
    ensures !(IsZero(a) && IsInf(b)) && !(IsInf(a) && IsZero(b))
  {
    assert !Matches(CORNER_MUL[0], a, b) && !Matches(CORNER_MUL[1], a, b);
    assert !Matches(CORNER_MUL[2], a, b) && !Matches(CORNER_MUL[3], a, b);
    assert !Matches(CORNER_MUL[4], a, b) && !Matches(CORNER_MUL[5], a, b);
    assert !Matches(CORNER_MUL[6], a, b) && !Matches(CORNER_MUL[7], a, b);
  }

  lemma SigBounds(x: nat, y: nat)
    requires x < 2 * HIDDEN && y < 2 * HIDDEN
    ensures x * y <= 0x1_0000_0000_0000
    ensures x >= HIDDEN && y >= HIDDEN ==> x * y >= 0x4000_0000_0000
    ensures (x >= 1 && y >= HIDDEN) || (x >= HIDDEN && y >= 1) ==> x * y >= HIDDEN
  {
    MulMono(x, y, 0x100_0000, 0x100_0000);
    if x >= HIDDEN && y >= HIDDEN {
      MulMono(HIDDEN, HIDDEN, x, y);
    }
    if x >= 1 && y >= HIDDEN {
      MulMono(1, HIDDEN, x, y);
    }
    if x >= HIDDEN && y >= 1 {
      MulMono(HIDDEN, 1, x, y);
    }
  }

  lemma {:induction false} RealProduct(m: nat, n: nat)
    ensures (m * n) as real == m as real * n as real
  {
    if m > 0 {
      RealProduct(m - 1, n);
      assert m * n == (m - 1) * n + n;
      assert m as real * n as real == (m - 1) as real * n as real + n as real;
    }
  }

  lemma ExactProduct(a: Word, b: Word)
    ensures Mag(Magnitude(a)) * Mag(Magnitude(b)) == Ldexp(ProductSig(a, b) as real, ProductExp(a, b) - 153)
    ensures 2.0 * (Mag(Magnitude(a)) * Mag(Magnitude(b))) == Ldexp(ProductSig(a, b) as real, ProductExp(a, b) - 152)
  {
    hide Ldexp;
    var x, y := Significand(Magnitude(a)) as real, Significand(Magnitude(b)) as real;
    LdexpMul(x, y, ScaleField(Magnitude(a)) - 150, ScaleField(Magnitude(b)) - 150);
    RealProduct(Significand(Magnitude(a)), Significand(Magnitude(b)));
    LdexpStep(ProductSig(a, b) as real, ProductExp(a, b) - 153);
  }

  method InternalFloatMul(b: Word, a: Word) returns (r: Word)
    ensures IsProductOutcome(a, b, r)
  {
    hide Mag, Delivers, Ldexp;
    var corner := Lookup(CORNER_MUL, a, b);
    if corner.Corner? {
      ghost var i :| 0 <= i < |CORNER_MUL| && Matches(CORNER_MUL[i], a, b) && CORNER_MUL[i].res == corner.res;
      CornerMulIsSpecial(i);
      return corner.res;
    }
    CornerMulCovers(a, b);
    if a == P_NAN || a == N_NAN || b == P_NAN || b == N_NAN {
      return if a == P_NAN || b == P_NAN then P_NAN else N_NAN;
    }
    var sign := XorSign(a, b);
    if a == P_ZERO || a == N_ZERO {
      return if sign == 1 then N_ZERO else P_ZERO;
    }
    if b == P_ZERO || b == N_ZERO {
      return if sign == 1 then N_ZERO else P_ZERO;
    }
    if a == P_INF || a == N_INF {
      return if sign == 1 then N_INF else P_INF;
    }
    if b == P_INF || b == N_INF {
      return if sign == 1 then N_INF else P_INF;
    }
    r := MultiplySignificands(sign, a, b);
  }

  lemma ProductEntry(a: Word, b: Word)
    ensures ToInt32(ProductExp(a, b) % 0x1_0000_0000) == ProductExp(a, b)
    ensures 0 <= ProductSig(a, b) < 0x1_0000_0000_0000_0000
    ensures ProductExp(a, b) < 0xff || ProductSig(a, b) >= 2 * TOP
    ensures Tracks(ProductSig(a, b), ProductSig(a, b) as real, 2)
  {
    SigBounds(Significand(Magnitude(a)), Significand(Magnitude(b)));
    ExactTracks(ProductSig(a, b));
  }

  method MultiplySignificands(sign: nat, a: Word, b: Word) returns (r: Word)
    requires sign < 2
    ensures Sign(r) == sign
    ensures var x := Mag(Magnitude(a)) * Mag(Magnitude(b));
      Delivers(if ScaleSlips(a, b) then 2.0 * x else x, Magnitude(r))
  {
    hide Mag, Delivers, Ldexp, Significand, ScaleField, Tracks, ToInt32;
    var ma, mb := Magnitude(a), Magnitude(b);
    ProductEntry(a, b);
    var sig := Significand(ma) * Significand(mb);
    var exp: Word := (ScaleField(ma) + ScaleField(mb) - 127 - 23 + 3) % 0x1_0000_0000;
    ExactProduct(a, b);
    r := InternalNormalize(sign, ToInt32(exp), sig, sig as real);
  }

  /** Multiplication commutes on all bit patterns. */
  lemma ProductCommutes(a: Word, b: Word, r: Word, q: Word)
    requires IsProductOutcome(a, b, r) && IsProductOutcome(b, a, q)
    ensures r == q
  {
    hide Mag, Nearest, LosesCarry;
    if SpecialProduct(a, b).NoCorner? {
      var x := Mag(Magnitude(a)) * Mag(Magnitude(b));
      assert x == Mag(Magnitude(b)) * Mag(Magnitude(a));
      assert ProductSig(a, b) == ProductSig(b, a);
      var y := if ScaleSlips(a, b) then 2.0 * x else x;
      if !LosesCarry(y) {
        NearestUnique(Magnitude(r), Magnitude(q), y);
      }
      assert r == Sign(r) * SIGN_BIT + Magnitude(r) && q == Sign(q) * SIGN_BIT + Magnitude(q);
    }
  }

  // ----- products with a zero, an infinity or a NaN

  /** Zero times a finite number is the exact product, with the exclusive-or sign. */
  lemma ZeroProduct(a: Word, b: Word, r: Word)
    requires Finite(a) && Finite(b) && (IsZero(a) || IsZero(b)) && IsProductOutcome(a, b, r)
    ensures Value(r) == Value(a) * Value(b) == 0.0
    ensures r == if Sign(a) == Sign(b) then P_ZERO else N_ZERO
  {
    hide Mag, Delivers;
    MagZero();
  }

  /** Infinity times any number but zero is the infinity with the exclusive-or sign. */
  lemma InfiniteProduct(a: Word, b: Word, r: Word)
    requires !IsNaN(a) && !IsNaN(b) && !IsZero(a) && !IsZero(b) && (IsInf(a) || IsInf(b))
    requires IsProductOutcome(a, b, r)
    ensures r == if Sign(a) == Sign(b) then P_INF else N_INF
  {
    hide Mag, Delivers;
  }

  /** Zero times infinity is invalid and gives the negative NaN; of NaNs the positive one wins. */
  lemma NaNProduct(a: Word, b: Word, r: Word)
    requires IsProductOutcome(a, b, r)
    ensures (IsZero(a) && IsInf(b)) || (IsInf(a) && IsZero(b)) ==> r == N_NAN
    ensures a == P_NAN || b == P_NAN ==> r == P_NAN
    ensures (a == N_NAN && b != P_NAN) || (b == N_NAN && a != P_NAN) ==> r == N_NAN
  {
    hide Mag, Delivers;
  }

  // ----- when the product is correctly rounded

  lemma SlipBounds(a: Word, b: Word)
    requires ScaleSlips(a, b) && !IsZero(a) && !IsZero(b)
    ensures HIDDEN <= ProductSig(a, b) < 2 * TOP
  {
    var x, y := Significand(Magnitude(a)), Significand(Magnitude(b));
    SigBounds(x, y);
  }

  lemma SlipScale(a: Word, b: Word)
    requires ScaleSlips(a, b)
    ensures ProductExp(a, b) == 0
  {}

  /** No magnitude is nearest both to x and to 2x, once x is not tiny. */
  lemma DoubleIsElsewhere(s: nat, m: nat)
    requires HIDDEN <= s < 2 * TOP
    ensures !(Nearest(m, Ldexp(s as real, -153)) && Nearest(m, Ldexp(s as real, -152)))
    ensures !Nearest(0, Ldexp(s as real, -153))
  {
    hide Ldexp, Mid, Mag;
    var z := s as real / 16.0;
    LdexpDouble(s as real / 2.0, -153);
    EighthScale(s as real / 2.0, -152);
    EighthScale(s as real, -152);
    UpperMid(1, 0);
    LdexpOrder(z, 0.5, -149);
    if 1 <= m < 2 * HIDDEN {
      UpperMid(1, m - 1);
      UpperMid(1, m);
      LdexpOrder(z, m as real - 0.5, -149);
      LdexpOrder(m as real + 0.5, 2.0 * z, -149);
    } else if m >= 2 * HIDDEN {
      UpperMid(1, 2 * HIDDEN - 1);
      LdexpOrder(z, 2.0 * HIDDEN as real - 0.5, -149);
      if m > 2 * HIDDEN {
        MidMono(2 * HIDDEN - 1, m - 1);
      }
    }
  }

  lemma ProductValue(a: Word, b: Word)
    requires !IsZero(a) && !IsZero(b)
    ensures var x, p := Value(a) * Value(b), Mag(Magnitude(a)) * Mag(Magnitude(b));
      x != 0.0 && Abs(x) == p && (x < 0.0 <==> XorSign(a, b) == 1)
  {
    hide Mag;
    MagPositive(Magnitude(a));
    MagPositive(Magnitude(b));
    var p, q := Mag(Magnitude(a)), Mag(Magnitude(b));
    assert p * q > 0.0;
    assert (-p) * q == -(p * q) && p * (-q) == -(p * q) && (-p) * (-q) == p * q;
  }

  /** For finite non-zero operands the result is the correctly rounded product exactly when the
      product does not fall into the half unit below the smallest normal number and the operands
      do not slip through the two-subnormals branch. */
  lemma ProductRounds(a: Word, b: Word, r: Word)
    requires Finite(a) && Finite(b) && !IsZero(a) && !IsZero(b)
    requires IsProductOutcome(a, b, r)
    ensures RoundsTo(Value(a) * Value(b), r) <==> !ScaleSlips(a, b) && !LosesCarry(Abs(Value(a) * Value(b)))
  {
    hide Mag, Ldexp, Value, RoundsTo, Nearest, LosesCarry, ScaleSlips;
    var x, p, m := Value(a) * Value(b), Mag(Magnitude(a)) * Mag(Magnitude(b)), Magnitude(r);
    ProductValue(a, b);
    if ScaleSlips(a, b) {
      SlipBounds(a, b);
      ExactProduct(a, b);
      DoubleIsElsewhere(ProductSig(a, b), m);
      SlipScale(a, b);
    } else if LosesCarry(p) {
      LostCarryIsWrong(p);
    } else {
      NearestRounds(x, r);
    }
    if RoundsTo(x, r) {
      RoundsNearest(x, r);
    }
  }

  /** Normal operands whose product is at least 2^-126 in magnitude always round correctly. */
  lemma NormalProductRounds(a: Word, b: Word, r: Word)
    requires HIDDEN <= Magnitude(a) < INF_MAG && HIDDEN <= Magnitude(b) < INF_MAG
    requires Abs(Value(a) * Value(b)) >= Mag(HIDDEN)
    requires IsProductOutcome(a, b, r)
    ensures RoundsTo(Value(a) * Value(b), r)
  {
    hide Mag, Ldexp, Value, RoundsTo, IsProductOutcome;
    SigBounds(Significand(Magnitude(a)), Significand(Magnitude(b)));
    ProductRounds(a, b, r);
  }

  lemma OutcomeDelivers(a: Word, b: Word, r: Word)
    requires IsProductOutcome(a, b, r) && SpecialProduct(a, b).NoCorner? && !ScaleSlips(a, b)
    ensures Sign(r) == XorSign(a, b) && Delivers(Mag(Magnitude(a)) * Mag(Magnitude(b)), Magnitude(r))
  {}

  /** The lost carry happens: (1 - 2^-24) * 2^-126 rounds to 2^-126 but comes out as zero. */
  lemma LostCarryWitness(a: Word, b: Word, r: Word)
    requires a == 0x3f7f_ffff && b == 0x0080_0000
    requires IsProductOutcome(a, b, r)
    ensures r == P_ZERO && RoundsTo(Value(a) * Value(b), 0x0080_0000)
  {
    hide Ldexp, Mid, Mag, Value, RoundsTo, LosesCarry;
    var s := 0x7fff_ff80_0000 as real;
    ExactProduct(a, b);
    ProductValue(a, b);
    assert ProductSig(a, b) == 0x7fff_ff80_0000 && ProductExp(a, b) == -20;
    EighthScale(s, -173);
    EighthScale(s / 8.0, -170);
    EighthScale(s / 64.0, -167);
    EighthScale(s / 512.0, -164);
    EighthScale(s / 4096.0, -161);
    EighthScale(s / 32768.0, -158);
    EighthScale(s / 262144.0, -155);
    LosesCarryScaled(67108860.0);
    CarryBounds();
    MidBetween(HIDDEN);
    assert Nearest(HIDDEN, Mag(Magnitude(a)) * Mag(Magnitude(b))) by {
      LdexpOrder(67108860.0, 67108864.0, -152);
    }
    NearestRounds(Value(a) * Value(b), 0x0080_0000);
    OutcomeDelivers(a, b, r);
  }

  /** The slip happens: 2^-149 * 2^19 is the subnormal 2^-130, but 2^-129 comes out. */
  lemma ScaleSlipWitness(a: Word, b: Word, r: Word)
    requires a == 0x0000_0001 && b == 0x4900_0000
    requires IsProductOutcome(a, b, r)
    ensures r == 0x0010_0000 && Value(a) * Value(b) == Value(0x0008_0000)
  {
    hide Ldexp, Mid, Mag, LosesCarry;
    var s := 8388608.0;
    ExactProduct(a, b);
    assert ProductSig(a, b) == 8388608 && ProductExp(a, b) == 0;
    EighthScale(s, -152);
    LosesCarryScaled(s);
    var m: nat :| m == 0x10_0000;
    AssembleMag(1, m);
    MidBetween(m);
    MidBetween(m - 1);
    assert Nearest(m, Mag(m));
    assert SpecialProduct(a, b).NoCorner? && ScaleSlips(a, b);
    NearestUnique(Magnitude(r), m, Mag(m));
    LdexpDouble(524288.0, -149);
    LdexpStep(524288.0, -149);
    AssembleMag(1, 0x8_0000);
  }
}
