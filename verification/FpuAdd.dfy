/** Addition and subtraction: internal_float_add and internal_float_sub. */
module FpuAdd {
  import opened Binary32
  import opened Rounding
  import opened Fpu
  import opened Words

  const CORNER_ADD := [
    Rule(P_ZERO, P_ZERO, P_ZERO), Rule(N_ZERO, P_ZERO, P_ZERO),
    Rule(P_ZERO, N_ZERO, P_ZERO), Rule(N_ZERO, N_ZERO, N_ZERO),
    Rule(P_INF, N_INF, N_NAN), Rule(N_INF, P_INF, N_NAN),
    Rule(P_INF, P_NAN, P_NAN), Rule(P_INF, N_NAN, N_NAN),
    Rule(N_INF, P_NAN, P_NAN), Rule(N_INF, N_NAN, N_NAN),
    Rule(N_NAN, P_NAN, P_NAN)
  ]

  // ----- the exact sum is a multiple of the smallest subnormal, so it never loses a carry

  lemma MagUnits(m: nat) returns (u: int)
    ensures Mag(m) == Ldexp(u as real, -149)
  {
    u := LdexpNat(Significand(m), ScaleField(m) - 1);
    LdexpTwice(Significand(m) as real, ScaleField(m) - 1, -149);
  }

  lemma SumKeepsCarry(m: nat, n: nat)
    ensures !LosesCarry(Mag(m) + Mag(n)) && !LosesCarry(Mag(m) - Mag(n))
  {
    hide Ldexp, LosesCarry, Mag;
    var u := MagUnits(m);
    var v := MagUnits(n);
    LdexpAdd(u as real, v as real, -149);
    LdexpAdd((u - v) as real, v as real, -149);
    UnitsKeepCarry(u + v);
    UnitsKeepCarry(u - v);
  }

  lemma UnitsKeepCarry(n: int)
    ensures !LosesCarry(Ldexp(n as real, -149))
  {
    hide Ldexp, LosesCarry;
    EighthScale(8.0 * n as real, -152);
    LosesCarryScaled(8.0 * n as real);
  }

  // ----- alignment

  // What sig is after n sticky shifts of sig0: exact while the guard bits last.
  predicate Shifted(sig0: nat, n: int, sig: nat) {
    && sig <= sig0 && (n >= 2 ==> sig < TOP / 2)
    && (n == 0 ==> sig == sig0) && (n == 1 ==> 2 * sig == sig0)
    && (n == 2 ==> 4 * sig == sig0) && (n == 3 ==> 8 * sig == sig0)
  }

  lemma ShiftedStart(sig0: nat)
    ensures Shifted(sig0, 0, sig0)
  {}

  lemma ShiftedStep(sig0: nat, n: int, sig: nat)
    requires Shifted(sig0, n, sig) && n >= 0 && sig0 < 16 * HIDDEN && sig0 % 8 == 0
    ensures Shifted(sig0, n + 1, ShiftSticky(sig))
    ensures n < 3 ==> 2 * ShiftSticky(sig) == sig && sig % 2 == 0
  {
    var q := sig0 / 8;
    assert sig0 == 8 * q;
    HalfSticky(sig);
    hide ShiftSticky;
    match n {
      case 0 => Even(sig, 4 * q);
      case 1 => Even(sig, 2 * q);
      case 2 => Even(sig, q);
      case _ =>
    }
  }

  lemma Even(x: nat, h: nat)
    requires x == 2 * h
    ensures x % 2 == 0
  {}

  lemma HalfSticky(sig: nat)
    ensures 2 * ShiftSticky(sig) <= sig + 1 && ShiftSticky(sig) <= sig
    ensures sig % 2 == 0 ==> 2 * ShiftSticky(sig) == sig
  {
    assert sig == 4 * (sig / 4) + sig % 4;
  }

  lemma ShiftedBounds(sig0: nat, n: int, sig: nat)
    requires Shifted(sig0, n, sig)
    ensures sig <= sig0 && (n >= 2 ==> sig < TOP / 2)
  {}

  lemma StayExact(sig: nat, y: real, n: int)
    requires n < 3 ==> 2 * ShiftSticky(sig) == sig
    requires n <= 3 ==> sig as real == y
    ensures n < 3 ==> ShiftSticky(sig) as real == y / 2.0
  {
    hide ShiftSticky;
  }

  // One place to the right.
  method ShiftOnce(sig0: nat, sticky0: nat) returns (sig: nat, sticky: nat)
    requires sticky0 == 0 || (sticky0 == 1 && sig0 % 2 == 1)
    ensures sig == ShiftSticky(sig0) && (sticky == 0 || (sticky == 1 && sig % 2 == 1))
  {
    sig, sticky := sig0, sticky0;
    if sig % 2 == 1 {
      sticky := 1;
    }
    sig := sig / 2;
    if sticky == 1 && sig % 2 == 0 {
      sig := sig + 1;
    }
  }

  /** The smaller operand moves right one place at a time; bits that fall off gather in sticky. */
  method AlignSmaller(sig0: nat, shift0: int) returns (sig: nat)
    requires shift0 >= 0 && sig0 < 16 * HIDDEN && sig0 % 8 == 0
    ensures Tracks(sig, Ldexp(sig0 as real, -shift0), 2)
    ensures sig <= sig0 && (shift0 >= 2 ==> sig < TOP / 2)
    ensures shift0 <= 3 ==> sig as real == Ldexp(sig0 as real, -shift0)
  {
    hide Ldexp, Tracks, Shifted, ShiftSticky;
    sig := sig0;
    ShiftedStart(sig0);
    var shift, sticky := shift0, 0;
    ghost var y := sig0 as real;
    ExactTracks(sig);
    LdexpZero(sig as real);
    while shift > 0
      invariant 0 <= shift <= shift0
      invariant sticky == 0 || (sticky == 1 && sig % 2 == 1)
      invariant Shifted(sig0, shift0 - shift, sig)
      invariant Tracks(sig, y, 2) && y == Ldexp(sig0 as real, shift - shift0)
      invariant shift0 - shift <= 3 ==> sig as real == y
    {
      LdexpStep(sig0 as real, shift - 1 - shift0);
      TracksWider(sig, y);
      ShiftStickyTracks(sig, y);
      ShiftedStep(sig0, shift0 - shift, sig);
      StayExact(sig, y, shift0 - shift);
      sig, sticky := ShiftOnce(sig, sticky);
      shift, y := shift - 1, y / 2.0;
    }
    ShiftedBounds(sig0, shift0, sig);
  }

  // ----- the sum of the aligned significands

  function Signed(sign: nat, x: real): real { if sign == 1 then -x else x }

  // Two's complement negation of an unsigned word.
  function Negate(x: Word): Word { (0x1_0000_0000 - x) % 0x1_0000_0000 }

  lemma SumTracks(a: nat, y: real, b: nat)
    requires Tracks(a, y, 2) && b % 2 == 0
    ensures Tracks(a + b, y + b as real, 2)
    ensures a <= b ==> Tracks(b - a, b as real - y, 2)
    ensures a >= b ==> Tracks(a - b, y - b as real, 2)
    ensures a == b ==> y == b as real
    ensures a < b ==> y < b as real
    ensures a > b ==> y > b as real
  {}

  lemma SignedScale(sa: nat, x: real, sb: nat, y: real, k: int)
    ensures Signed(sa, Ldexp(x, k)) + Signed(sb, Ldexp(y, k)) == Ldexp(Signed(sa, x) + Signed(sb, y), k)
  {
    hide Ldexp;
    LdexpAdd(x, y, k);
    LdexpAdd(x, -x, k);
    LdexpAdd(y, -y, k);
    LdexpAdd(-x, y, k);
    LdexpAdd(x, -y, k);
    LdexpAdd(-x, -y, k);
    LdexpSign(0.0, k);
  }

  lemma ValueScaled(b: Word)
    ensures Value(b) == Signed(Sign(b), Ldexp((8 * Significand(Magnitude(b))) as real, ScaleField(Magnitude(b)) - 153))
  {
    hide Ldexp;
    EighthScale((8 * Significand(Magnitude(b))) as real, ScaleField(Magnitude(b)) - 153);
  }

  function SignedInt(sign: nat, n: int): int { if sign == 1 then -n else n }

  lemma Wraps(x: nat)
    requires x < 0x2_0000_0000
    ensures x % 0x1_0000_0000 == if x < 0x1_0000_0000 then x else x - 0x1_0000_0000
  {}

  // Adding in 32-bit two's complement, then taking sign and size apart again.
  method AddWrapped(signA: nat, sigA: Word, signB: nat, sigB: Word) returns (sign: nat, sum: Word)
    requires sigA <= 0x800_0000 && sigB <= 0x800_0000
    ensures var s := SignedInt(signA, sigA) + SignedInt(signB, sigB);
      sign == (if s < 0 then 1 else 0) && s == SignedInt(sign, sum)
  {
    var termA: Word, termB: Word := sigA, sigB;
    if signA == 1 {
      Wraps(0x1_0000_0000 - termA);
      termA := Negate(termA);
    }
    if signB == 1 {
      Wraps(0x1_0000_0000 - termB);
      termB := Negate(termB);
    }
    Wraps(termA + termB);
    sum := (termA + termB) % 0x1_0000_0000;
    sign := 0;
    if sum / 0x8000_0000 == 1 {
      Wraps(0x1_0000_0000 - sum);
      sign, sum := 1, Negate(sum);
    }
  }

  /** The signed sum of the integer significands tracks the exact sum, in sign and in size, and
      can fall below half of the top bit only when it is exact. */
  lemma ExactSum(sa: nat, a: nat, y: real, sb: nat, b: nat)
    requires Tracks(a, y, 2) && b % 8 == 0
    ensures var s, exact := SignedInt(sa, a) + SignedInt(sb, b), Signed(sa, y) + Signed(sb, b as real);
      && Tracks(if s < 0 then -s else s, Abs(exact), 2)
      && (s < 0 <==> exact < 0.0) && (s == 0 <==> exact == 0.0)
      && (y == a as real ==> Abs(exact) == Abs(s as real))
  {
    hide Tracks;
    SumTracks(a, y, b);
  }

  lemma ZeroDelivers(r: Word, x: real)
    requires x == 0.0 && Delivers(x, Magnitude(r))
    ensures Magnitude(r) == 0
  {
    MagMono(0, HIDDEN - 1);
    MidBetween(HIDDEN - 1);
    MagZero();
    if Magnitude(r) > 0 {
      MagMono(0, Magnitude(r) - 1);
      MidBetween(Magnitude(r) - 1);
    }
  }

  // The sum of two finite numbers once fa has the smaller exponent.
  method AddAligned(fa: Word, fb: Word) returns (r: Word)
    requires Finite(fa) && Finite(fb) && Exponent(Magnitude(fa)) <= Exponent(Magnitude(fb))
    ensures var x := Value(fa) + Value(fb);
      && (x == 0.0 ==> r == P_ZERO)
      && (x != 0.0 ==> RoundsTo(x, r))
  {
    hide Ldexp, Tracks, Delivers, LosesCarry, Nearest, Value, RoundsTo, Signed;
    var ma, mb := Magnitude(fa), Magnitude(fb);
    var sigA: nat, sigB: nat := Significand(ma), Significand(mb);
    var shift: int := ScaleField(mb) - ScaleField(ma);
    sigA, sigB := 8 * sigA, 8 * sigB;
    ghost var wide, k := sigA, ScaleField(mb) - 153;
    sigA := AlignSmaller(sigA, shift);
    ghost var y := Ldexp(wide as real, -shift);
    var sign, sum := AddWrapped(Sign(fa), sigA, Sign(fb), sigB);

    ghost var exact := Signed(Sign(fa), y) + Signed(Sign(fb), sigB as real);
    assert Value(fa) + Value(fb) == Ldexp(exact, k) by {
      ValueScaled(fa);
      ValueScaled(fb);
      LdexpTwice(wide as real, -shift, k);
      SignedScale(Sign(fa), y, Sign(fb), sigB as real, k);
    }
    ExactSum(Sign(fa), sigA, y, Sign(fb), sigB);
    assert shift >= 2 ==> sum >= TOP / 2;
    r := InternalNormalize(sign, Exponent(mb), sum, Abs(exact));
    SumRounds(fa, fb, exact, k, r);
  }

  lemma SumRounds(fa: Word, fb: Word, exact: real, k: int, r: Word)
    requires Value(fa) + Value(fb) == Ldexp(exact, k)
    requires Sign(r) == (if exact < 0.0 then 1 else 0)
    requires Delivers(Ldexp(Abs(exact), k), Magnitude(r))
    ensures var x := Value(fa) + Value(fb);
      && (x == 0.0 ==> r == P_ZERO)
      && (x != 0.0 ==> RoundsTo(x, r))
  {
    hide Ldexp, LosesCarry, Nearest, Mag;
    var x := Value(fa) + Value(fb);
    LdexpSign(exact, k);
    LdexpSign(-exact, k);
    LdexpAdd(exact, -exact, k);
    LdexpSign(0.0, k);
    assert Abs(x) == Ldexp(Abs(exact), k);
    if x == 0.0 {
      ZeroDelivers(r, x);
    } else {
      SumKeepsCarry(Magnitude(fa), Magnitude(fb));
      SumKeepsCarry(Magnitude(fb), Magnitude(fa));
      var p, q := Mag(Magnitude(fa)), Mag(Magnitude(fb));
      MagMono(0, Magnitude(fa));
      MagMono(0, Magnitude(fb));
      MagZero();
      assert Abs(x) == p + q || Abs(x) == p - q || Abs(x) == q - p;
      assert !LosesCarry(Abs(x));
      NearestRounds(x, r);
    }
  }

  // ----- the whole operation

  // The positive NaN wins; an invalid operation makes the negative one.
  function NaNOf(a: Word, b: Word): Word { if a == P_NAN || b == P_NAN then P_NAN else N_NAN }

  // Sums with an infinity or a NaN.
  predicate IsSpecialSum(a: Word, b: Word, r: Word) {
    if IsNaN(a) || IsNaN(b) || (IsInf(a) && IsInf(b) && Sign(a) != Sign(b)) then r == NaNOf(a, b)
    else r == if IsInf(a) then a else b
  }

  lemma CornerAdd(i: nat)
    requires i < |CORNER_ADD|
    ensures var c := CORNER_ADD[i];
      if Finite(c.a) && Finite(c.b)
      then IsZero(c.a) && IsZero(c.b) && c.res == if c.a == N_ZERO && c.b == N_ZERO then N_ZERO else P_ZERO
      else IsSpecialSum(c.a, c.b, c.res)
  {}

  lemma CornerAddCovers(a: Word, b: Word)
    requires forall i :: 0 <= i < |CORNER_ADD| ==> !Matches(CORNER_ADD[i], a, b)
    ensures !(IsZero(a) && IsZero(b))
    ensures !(IsInf(a) && IsInf(b) && Sign(a) != Sign(b))
    ensures IsInf(a) ==> b != P_NAN && b != N_NAN
    ensures !(a == N_NAN && b == P_NAN)
  {
    assert !Matches(CORNER_ADD[0], a, b) && !Matches(CORNER_ADD[1], a, b);
    assert !Matches(CORNER_ADD[2], a, b) && !Matches(CORNER_ADD[3], a, b);
    assert !Matches(CORNER_ADD[4], a, b) && !Matches(CORNER_ADD[5], a, b);
    assert !Matches(CORNER_ADD[6], a, b) && !Matches(CORNER_ADD[7], a, b);
    assert !Matches(CORNER_ADD[8], a, b) && !Matches(CORNER_ADD[9], a, b) && !Matches(CORNER_ADD[10], a, b);
  }

  lemma ZeroValue(b: Word)
    requires IsZero(b)
    ensures Value(b) == 0.0
  {
    MagZero();
  }

  /** The sum of two finite numbers is rounded to nearest even, and an exact zero has the sign that
      section 6.3 of IEEE 754-2008 gives it. An infinity absorbs finite numbers and its own kind;
      opposite infinities are invalid and give the negative NaN; of NaNs the positive one wins. */
  method InternalFloatAdd(b: Word, a: Word) returns (r: Word)
    ensures Finite(a) && Finite(b) && Value(a) + Value(b) != 0.0 ==> RoundsTo(Value(a) + Value(b), r)
    ensures Finite(a) && Finite(b) && Value(a) + Value(b) == 0.0 ==>
      r == if a == N_ZERO && b == N_ZERO then N_ZERO else P_ZERO
    ensures Canonical(a) && Canonical(b) && !(Finite(a) && Finite(b)) ==> IsSpecialSum(a, b, r)
    ensures IsInf(a) && (Finite(b) || b == a) ==> r == a
    ensures IsInf(b) && (Finite(a) || a == b) ==> r == b
    ensures IsInf(a) && IsInf(b) && a != b ==> r == N_NAN
    ensures a == P_NAN && (!IsNaN(b) || b == P_NAN || b == N_NAN) ==> r == P_NAN
    ensures b == P_NAN && (!IsNaN(a) || a == P_NAN || a == N_NAN) ==> r == P_NAN
    ensures a == N_NAN && (!IsNaN(b) || b == N_NAN) ==> r == N_NAN
    ensures b == N_NAN && !IsNaN(a) ==> r == N_NAN
  {
    hide Value, RoundsTo;
    var corner := Lookup(CORNER_ADD, a, b);
    if corner.Corner? {
      ghost var i :| 0 <= i < |CORNER_ADD| && Matches(CORNER_ADD[i], a, b) && CORNER_ADD[i].res == corner.res;
      CornerAdd(i);
      if IsZero(a) && IsZero(b) {
        ZeroValue(a);
        ZeroValue(b);
      }
      return corner.res;
    }
    CornerAddCovers(a, b);
    if a == P_ZERO || a == N_ZERO {
      ZeroValue(a);
      if Finite(b) {
        RoundsToItself(b);
      }
      return b;
    }
    if b == P_ZERO || b == N_ZERO {
      ZeroValue(b);
      if Finite(a) {
        RoundsToItself(a);
      }
      return a;
    }
    if Exponent(Magnitude(a)) == 0xff {
      return a;
    }
    if Exponent(Magnitude(b)) == 0xff {
      return b;
    }
    if Exponent(Magnitude(a)) > Exponent(Magnitude(b)) {
      r := AddAligned(b, a);
    } else {
      r := AddAligned(a, b);
    }
  }

  const CORNER_SUB := [
    Rule(P_ZERO, P_ZERO, P_ZERO), Rule(N_ZERO, P_ZERO, N_ZERO),
    Rule(P_ZERO, N_ZERO, P_ZERO), Rule(N_ZERO, N_ZERO, P_ZERO),
    Rule(P_NAN, P_NAN, P_NAN), Rule(N_NAN, P_NAN, P_NAN),
    Rule(P_NAN, N_NAN, P_NAN), Rule(N_NAN, N_NAN, N_NAN)
  ]

  predicate IsSpecialDifference(a: Word, b: Word, r: Word) {
    if IsNaN(a) || IsNaN(b) || (IsInf(a) && a == b) then r == NaNOf(a, b)
    else if IsInf(a) then r == a
    else IsInf(r) && Sign(r) != Sign(b)
  }

  lemma CornerSub(i: nat)
    requires i < |CORNER_SUB|
    ensures var c := CORNER_SUB[i];
      if Finite(c.a) && Finite(c.b)
      then IsZero(c.a) && IsZero(c.b) && c.res == if c.a == N_ZERO && c.b == P_ZERO then N_ZERO else P_ZERO
      else IsSpecialDifference(c.a, c.b, c.res)
  {}

  function FlipSign(b: Word): Word { (1 - Sign(b)) * SIGN_BIT + Magnitude(b) }

  lemma FlipSignValue(b: Word)
    ensures Value(FlipSign(b)) == -Value(b) && Magnitude(FlipSign(b)) == Magnitude(b)
    ensures Sign(FlipSign(b)) == 1 - Sign(b)
  {}

  /** The difference of two finite numbers is rounded to nearest even, and an exact zero is +0 except
      for -0 - +0; the special values follow those of sums. */
  method InternalFloatSub(b: Word, a: Word) returns (r: Word)
    ensures Finite(a) && Finite(b) && Value(a) - Value(b) != 0.0 ==> RoundsTo(Value(a) - Value(b), r)
    ensures Finite(a) && Finite(b) && Value(a) - Value(b) == 0.0 ==>
      r == if a == N_ZERO && b == P_ZERO then N_ZERO else P_ZERO
    ensures Finite(a) && a == b ==> r == P_ZERO
    ensures Canonical(a) && Canonical(b) && !(Finite(a) && Finite(b)) ==> IsSpecialDifference(a, b, r)
    ensures IsInf(a) && (Finite(b) || (IsInf(b) && b != a)) ==> r == a
    ensures Finite(a) && IsInf(b) ==> r == if Sign(b) == 1 then P_INF else N_INF
    ensures IsInf(a) && a == b ==> r == N_NAN
    ensures a == P_NAN && (!IsNaN(b) || b == P_NAN || b == N_NAN) ==> r == P_NAN
    ensures b == P_NAN && (!IsNaN(a) || a == P_NAN || a == N_NAN) ==> r == P_NAN
    ensures a == N_NAN && (!IsNaN(b) || b == N_NAN) ==> r == N_NAN
    ensures b == N_NAN && !IsNaN(a) ==> r == N_NAN
  {
    hide Value, RoundsTo;
    var corner := Lookup(CORNER_SUB, a, b);
    if corner.Corner? {
      ghost var i :| 0 <= i < |CORNER_SUB| && Matches(CORNER_SUB[i], a, b) && CORNER_SUB[i].res == corner.res;
      CornerSub(i);
      if IsZero(a) && IsZero(b) {
        ZeroValue(a);
        ZeroValue(b);
      }
      return corner.res;
    }
    assert !Matches(CORNER_SUB[5], a, b);
    if a == P_NAN || a == N_NAN {
      return a;
    }
    if b == P_NAN || b == N_NAN {
      return b;
    }
    FlipSignValue(b);
    r := InternalFloatAdd(FlipSign(b), a);
  }
}
