/** The software floating-point unit: nemu/src/cpu/fpu.c. */
module Fpu {
  import opened Binary32
  import opened Rounding
  import opened Words

  const P_ZERO: Word := 0
  const N_ZERO: Word := 0x8000_0000
  const P_INF: Word := 0x7f80_0000
  const N_INF: Word := 0xff80_0000
  const P_NAN: Word := 0x7fc0_0000
  const N_NAN: Word := 0xffc0_0000

  // One line of a corner-case table.
  datatype Rule = Rule(a: Word, b: Word, res: Word)

  datatype Corner = NoCorner | Corner(res: Word)

  predicate Matches(rule: Rule, a: Word, b: Word) { rule.a == a && rule.b == b }

  predicate First(table: seq<Rule>, i: nat, a: Word, b: Word)
    requires i < |table|
  {
    Matches(table[i], a, b) && forall j :: 0 <= j < i ==> !Matches(table[j], a, b)
  }

  // The first table line for the operands decides.
  method Lookup(table: seq<Rule>, a: Word, b: Word) returns (hit: Corner)
    ensures hit.NoCorner? ==> forall i :: 0 <= i < |table| ==> !Matches(table[i], a, b)
    ensures hit.Corner? ==> exists i :: 0 <= i < |table| && First(table, i, a, b) && table[i].res == hit.res
  {
    for i := 0 to |table|
      invariant forall j :: 0 <= j < i ==> !Matches(table[j], a, b)
    {
      if Matches(table[i], a, b) {
        assert First(table, i, a, b);
        return Corner(table[i].res);
      }
    }
    return NoCorner;
  }

  predicate IsNaN(b: Word) { Magnitude(b) > INF_MAG }

  predicate IsInf(b: Word) { Magnitude(b) == INF_MAG }

  predicate IsZero(b: Word) { Magnitude(b) == 0 }

  // Numbers, infinities and the two quiet NaNs the unit itself produces.
  predicate Canonical(b: Word) { Magnitude(b) <= INF_MAG || b == P_NAN || b == N_NAN }

  function XorSign(a: Word, b: Word): nat { (Sign(a) + Sign(b)) % 2 }

  // A word passed as a signed parameter.
  function ToInt32(w: Word): int { if w < 0x8000_0000 then w else w - 0x1_0000_0000 }

  const TOP: nat := 0x400_0000 // bit 26: the hidden bit above guard, round and sticky

  /** Exact results that round up to the smallest normal number from below. */
  ghost predicate LosesCarry(x: real) { Mid(HIDDEN - 1) <= x < Mag(HIDDEN) }

  /** What normalisation delivers for the exact magnitude x: the nearest magnitude, except that a
      subnormal which should carry into the smallest normal number comes out as zero. */
  ghost predicate Delivers(x: real, m: nat) {
    if LosesCarry(x) then m == 0 else Nearest(m, x)
  }

  // The field whose scale applies on entry: two subnormals meet at field 0 but at the scale of 1.
  function EntryField(exp: int, sig: nat): int {
    if exp == 0 && sig < 2 * TOP then 1 else exp
  }

  lemma HalfScale(z: real, k: int)
    ensures Ldexp(z / 2.0, k + 1) == Ldexp(z, k)
  {
    LdexpDouble(z / 2.0, k);
  }

  lemma CarryBounds()
    ensures Mid(HIDDEN - 1) == Ldexp(8.0 * HIDDEN as real - 4.0, -152)
    ensures Mag(HIDDEN) == Ldexp(8.0 * HIDDEN as real, -152)
  {
    hide Ldexp;
    UpperMid(1, HIDDEN - 1);
    AssembleMag(1, HIDDEN);
    EighthScale(8.0 * HIDDEN as real - 4.0, -152);
    EighthScale(8.0 * HIDDEN as real, -152);
  }

  lemma LosesCarryScaled(z: real)
    ensures LosesCarry(Ldexp(z, -152)) <==> 8.0 * HIDDEN as real - 4.0 <= z < 8.0 * HIDDEN as real
  {
    hide Ldexp, Mid, Mag;
    CarryBounds();
    LdexpOrder(z, 8.0 * HIDDEN as real - 4.0, -152);
    LdexpOrder(z, 8.0 * HIDDEN as real, -152);
  }

  lemma {:induction false} LdexpMono(x: real, j: int, k: int)
    requires x >= 0.0 && j <= k
    ensures Ldexp(x, j) <= Ldexp(x, k)
    decreases k - j
  {
    if j < k {
      LdexpMono(x, j, k - 1);
      LdexpSign(x, k - 1);
      LdexpStep(x, k - 1);
    }
  }

  lemma NormalKeepsCarry(e: nat, z: real)
    requires e >= 1 && z >= TOP as real
    ensures !LosesCarry(Ldexp(z, e - 153))
  {
    hide Ldexp, Mid, Mag;
    CarryBounds();
    LdexpMono(z, -152, e - 153);
    LdexpOrder(z, 8.0 * HIDDEN as real, -152);
  }

  lemma OverflowDelivers(exp: int, z: real)
    requires exp >= 255 && z >= TOP as real
    ensures Delivers(Ldexp(z, exp - 153), INF_MAG)
  {
    hide Ldexp, Mid, Mag;
    NormalKeepsCarry(exp, z);
    LdexpMono(z, 102, exp - 153);
    LdexpOrder(z, 67108862.0, 102);
    LdexpDouble(33554431.0, 102);
    OverflowIsMid();
  }

  lemma UnderflowDelivers(exp: int, z: real)
    requires exp < 0 && 0.0 <= z <= 4.0
    ensures Delivers(Ldexp(z, exp - 153), 0)
  {
    hide Ldexp, Mid, Mag;
    CarryBounds();
    UpperMid(1, 0);
    EighthScale(4.0, -152);
    LdexpMono(z, exp - 153, -153);
    LdexpOrder(z, 8.0, -153);
    LdexpDouble(4.0, -153);
    LdexpOrder(4.0, 8.0 * HIDDEN as real - 4.0, -152);
  }

  /** The state in which rounding starts: the significand sits below bit 27 at the scale of
      field exp (or of field 1 when subnormal) and still stands for the exact value x. */
  ghost predicate Aligned(x: real, exp: int, sig: nat, z: real) {
    && 0 <= exp <= 254
    && sig < 2 * TOP && (exp >= 1 ==> sig >= TOP) && (exp == 0 ==> sig < TOP)
    && Tracks(sig, z, 4)
    && x == Ldexp(z, (if exp == 0 then 1 else exp) - 153)
  }

  // Bits of a number: the exponent field keeps eight bits, as a bit-field assignment does.
  function Pack(sign: nat, exp: int, fraction: nat): Word
    requires sign < 2 && fraction < HIDDEN
  {
    sign * SIGN_BIT + exp % 256 * HIDDEN + fraction
  }

  lemma PackFields(sign: nat, exp: int, fraction: nat)
    requires sign < 2 && fraction < HIDDEN
    ensures Sign(Pack(sign, exp, fraction)) == sign
    ensures Magnitude(Pack(sign, exp, fraction)) == exp % 256 * HIDDEN + fraction
  {}

  lemma RoundedDelivers(x: real, exp: int, sig: nat, z: real)
    requires Aligned(x, exp, sig, z)
    ensures exp >= 1 ==> Delivers(x, Assemble(exp, RoundGrs(sig)))
    ensures exp == 0 ==> Delivers(x, RoundGrs(sig) % HIDDEN)
  {
    hide Ldexp, Nearest, LosesCarry;
    RoundingIsNearest(if exp == 0 then 1 else exp, sig, z);
    if exp >= 1 {
      NormalKeepsCarry(exp, z);
    } else {
      LosesCarryScaled(z);
      assert sig == 8 * (sig / 8) + sig % 8;
    }
  }

  method InternalNormalize(sign: nat, exp0: int, sig0: nat, ghost y: real) returns (r: Word)
    requires sign < 2 && sig0 < 0x1_0000_0000_0000_0000
    requires exp0 < 0xff || sig0 >= 2 * TOP
    requires Tracks(sig0, y, 2) && (y != sig0 as real ==> sig0 >= TOP / 2)
    ensures Sign(r) == sign
    ensures Delivers(Ldexp(y, EntryField(exp0, sig0) - 153), Magnitude(r))
  {
    hide Ldexp, Delivers, Tracks, LosesCarry;
    ghost var x := Ldexp(y, EntryField(exp0, sig0) - 153);
    var exp, sig, overflow;
    if sig0 / TOP > 1 || exp0 < 0 {
      exp, sig, overflow := NormalizeRight(exp0, sig0, y);
    } else if sig0 / TOP == 0 && exp0 > 0 {
      exp, sig := NormalizeLeft(exp0, sig0, y);
      overflow := false;
    } else {
      // two subnormals may make a normal number
      exp := if exp0 == 0 && sig0 / TOP == 1 then exp0 + 1 else exp0;
      sig, overflow := sig0, false;
      TracksWider(sig, y);
      assert Aligned(x, exp, sig, y);
    }
    if !overflow {
      exp, sig := RoundOff(x, exp, sig);
    }
    PackFields(sign, exp, sig);
    r := Pack(sign, exp, sig);
  }

  // Toward the right; overflow reports that the result is already infinity or zero.
  method NormalizeRight(exp0: int, sig0: nat, ghost y: real) returns (exp: int, sig: nat, overflow: bool)
    requires (exp0 < 0 || sig0 >= 2 * TOP) && Tracks(sig0, y, 2)
    ensures var x := Ldexp(y, exp0 - 153);
      if overflow then 0 <= exp <= 0xff && sig < HIDDEN && Delivers(x, exp * HIDDEN + sig)
      else exists z :: Aligned(x, exp, sig, z)
  {
    hide Ldexp, Delivers, Tracks, LosesCarry;
    exp, sig, overflow := exp0, sig0, false;
    ghost var x, z := Ldexp(y, exp0 - 153), y;
    while (sig / TOP > 1 && exp < 0xff) || (sig > 4 && exp < 0)
      invariant exp0 <= exp && (exp <= 0xff || exp == exp0)
      invariant exp >= 1 ==> sig >= TOP
      invariant Tracks(sig, z, 2) && x == Ldexp(z, exp - 153)
      decreases 0xff - exp
    {
      TracksWider(sig, z);
      ShiftStickyTracks(sig, z);
      HalfScale(z, exp - 153);
      sig, exp, z := ShiftSticky(sig), exp + 1, z / 2.0;
    }
    TracksWider(sig, z);
    TracksBounds(sig, z);
    if exp >= 0xff {
      OverflowDelivers(exp, z);
      exp, sig, overflow := 0xff, 0, true;
    }
    if exp == 0 {
      ShiftStickyTracks(sig, z);
      HalfScale(z, -153);
      sig, z := ShiftSticky(sig), z / 2.0;
      TracksWider(sig, z);
    }
    if exp < 0 {
      UnderflowDelivers(exp, z);
      exp, sig, overflow := 0, 0, true;
    }
    assert !overflow ==> Aligned(x, exp, sig, z);
  }

  lemma TracksBounds(sig: nat, z: real)
    requires Tracks(sig, z, 2)
    ensures z >= 0.0 && (sig >= TOP ==> z >= TOP as real) && (sig <= 4 ==> z <= 4.0)
  {}

  // Toward the left; a subnormal result is shifted back once.
  method NormalizeLeft(exp0: int, sig0: nat, ghost y: real) returns (exp: int, sig: nat)
    requires 0 < exp0 < 0xff && sig0 < TOP
    requires Tracks(sig0, y, 2) && (y != sig0 as real ==> sig0 >= TOP / 2)
    ensures var x := Ldexp(y, exp0 - 153); exists z :: Aligned(x, exp, sig, z)
  {
    hide Ldexp, Tracks;
    exp, sig := exp0, sig0;
    ghost var x, z := Ldexp(y, exp0 - 153), y;
    TracksWider(sig, z);
    while sig / TOP == 0 && exp > 0
      invariant 0 <= exp <= 254 && sig < 2 * TOP
      invariant Tracks(sig, z, 4) && (sig < TOP ==> Tracks(sig, z, 2))
      invariant z != sig as real ==> sig >= TOP / 2
      invariant x == Ldexp(z, exp - 153)
      decreases exp
    {
      TracksDouble(sig, z);
      LdexpDouble(z, exp - 154);
      sig, exp, z := 2 * sig, exp - 1, 2.0 * z;
    }
    if exp == 0 {
      ShiftStickyTracks(sig, z);
      HalfScale(z, -153);
      sig, z := ShiftSticky(sig), z / 2.0;
      TracksWider(sig, z);
    }
    assert Aligned(x, exp, sig, z);
  }

  // Round to nearest even and drop guard, round and sticky.
  method RoundOff(ghost x: real, exp0: int, sig0: nat) returns (exp: int, sig: nat)
    requires exists z :: Aligned(x, exp0, sig0, z)
    ensures 0 <= exp <= 0xff && sig < HIDDEN && Delivers(x, exp * HIDDEN + sig)
  {
    ghost var z :| Aligned(x, exp0, sig0, z);
    RoundedDelivers(x, exp0, sig0, z);
    hide Delivers, Tracks;
    exp, sig := exp0, sig0;
    var grs := sig % 8;
    if grs > 4 {
      sig := sig + 8;
    } else if grs == 4 {
      if sig / 8 % 2 == 1 {
        sig := sig + 8;
      }
    }
    assert sig0 == 8 * (sig0 / 8) + grs;
    sig := sig / 8;
    assert sig == RoundGrs(sig0);
    PackRounded(exp0, sig);
    if sig / HIDDEN > 1 {
      sig := sig / 2;
      exp := exp + 1;
      if exp >= 0xff {
        exp, sig := 0xff, 0;
      }
    }
    sig := sig % HIDDEN;
  }

  lemma PackRounded(exp: nat, m: nat)
    requires m <= 2 * HIDDEN && (exp >= 1 ==> m >= HIDDEN) && (exp == 0 ==> m <= HIDDEN)
    ensures m / HIDDEN > 1 <==> m == 2 * HIDDEN
    ensures m < 2 * HIDDEN ==>
      exp * HIDDEN + m % HIDDEN == if exp >= 1 then Assemble(exp, m) else m % HIDDEN
    ensures m == 2 * HIDDEN ==> (m / 2) % HIDDEN == 0 && (exp + 1) * HIDDEN == Assemble(exp, m)
  {}

  lemma MulMono(x: nat, y: nat, u: nat, v: nat)
    requires x <= u && y <= v
    ensures x * y <= u * v
  {
    assert x * y <= u * y;
    assert u * y <= u * v;
  }

  lemma LostCarryIsWrong(x: real)
    requires LosesCarry(x)
    ensures !Nearest(0, x)
  {
    hide Mid, Mag;
    MidMono(0, HIDDEN - 1);
  }

  lemma MagPositive(m: nat)
    requires m > 0
    ensures Mag(m) > 0.0
  {
    hide Mag;
    MagMono(0, m);
    MagZero();
  }

  lemma RoundsToItself(b: Word)
    requires Finite(b) && !IsZero(b)
    ensures Value(b) != 0.0 && RoundsTo(Value(b), b)
  {
    hide Mag;
    var m := Magnitude(b);
    MagMono(0, m);
    MagZero();
    MidBetween(m - 1);
    MidBetween(m);
    NearestRounds(Value(b), b);
  }
}
