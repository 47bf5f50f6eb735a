/** Guard, round and sticky bits: what an integer significand must remember of an exact value for
    the last rounding step to be right. */
module Rounding {
  import opened Binary32

  /** sig stands for y when comparing with multiples of g: either they are equal, or both lie
      strictly between the same two multiples. */
  ghost predicate Tracks(sig: nat, y: real, g: nat)
    requires g > 0
  {
    var cell := sig / g * g;
    || y == sig as real
    || (sig % g != 0 && cell as real < y < (cell + g) as real)
  }

  // One right shift that keeps the sticky bit.
  function ShiftSticky(sig: nat): nat { sig / 2 + if sig % 4 == 1 then 1 else 0 }

  lemma ShiftStickyTracks(sig: nat, y: real)
    requires Tracks(sig, y, 4)
    ensures Tracks(ShiftSticky(sig), y / 2.0, 2)
  {
    assert sig == 4 * (sig / 4) + sig % 4;
  }

  lemma TracksWider(sig: nat, y: real)
    requires Tracks(sig, y, 2)
    ensures Tracks(sig, y, 4)
  {
    var k, r := sig / 4, sig % 4;
    assert sig == 4 * k + r;
    assert sig / 2 == 2 * k + r / 2;
    assert r % 2 == sig % 2;
  }

  lemma TracksDouble(sig: nat, y: real)
    requires Tracks(sig, y, 2)
    ensures Tracks(2 * sig, 2.0 * y, 4)
    ensures y == sig as real ==> Tracks(2 * sig, 2.0 * y, 2)
  {
    DoubleCell(sig);
    hide Tracks;
    TracksIn(sig, y);
    if y == sig as real {
      assert 2.0 * y == (2 * sig) as real;
      TracksEqual(2 * sig, 2.0 * y);
    } else {
      TracksBetween(2 * sig, 2.0 * y, 2 * (sig / 2 * 2));
    }
  }

  lemma DoubleCell(sig: nat)
    ensures 2 * sig / 4 * 4 == 2 * (sig / 2 * 2) && 2 * sig % 4 == 2 * (sig % 2)
  {
    assert sig == 2 * (sig / 2) + sig % 2;
  }

  lemma TracksIn(sig: nat, y: real)
    requires Tracks(sig, y, 2)
    ensures y != sig as real ==>
      sig % 2 != 0 && (sig / 2 * 2) as real < y < (sig / 2 * 2 + 2) as real
  {}

  lemma TracksEqual(sig: nat, y: real)
    requires y == sig as real
    ensures Tracks(sig, y, 4) && Tracks(sig, y, 2)
  {}

  lemma TracksBetween(sig: nat, y: real, cell: nat)
    requires cell == sig / 4 * 4 && sig % 4 != 0 && cell as real < y < (cell + 4) as real
    ensures Tracks(sig, y, 4)
  {}

  lemma ExactTracks(sig: nat)
    ensures Tracks(sig, sig as real, 2)
  {}

  // Rounding to nearest even on the three low bits.
  function RoundGrs(sig: nat): nat {
    sig / 8 + if sig % 8 > 4 || (sig % 8 == 4 && sig / 8 % 2 == 1) then 1 else 0
  }

  lemma RoundGrsNear(sig: nat, y: real)
    requires Tracks(sig, y, 4)
    ensures var m := RoundGrs(sig) as real;
      m - 0.5 <= y / 8.0 <= m + 0.5 && (y / 8.0 == m - 0.5 || y / 8.0 == m + 0.5 ==> RoundGrs(sig) % 2 == 0)
  {
    var k, r := sig / 8, sig % 8;
    assert sig == 8 * k + r;
    assert sig / 4 == 2 * k + r / 4;
    assert sig % 4 == r % 4;
    GrsCases(k, r, y - (8 * k) as real);
  }

  // d is the exact distance above the multiple 8k.
  lemma GrsCases(k: nat, r: nat, d: real)
    requires r < 8
    requires d == r as real || (r % 4 != 0 && (r / 4 * 4) as real < d < (r / 4 * 4 + 4) as real)
    ensures var up := if r > 4 || (r == 4 && k % 2 == 1) then 1 else 0;
      up as real - 0.5 <= d / 8.0 <= up as real + 0.5 &&
      (d / 8.0 == up as real - 0.5 || d / 8.0 == up as real + 0.5 ==> (k + up) % 2 == 0)
  {
    assert r == 0 || r == 1 || r == 2 || r == 3 || r == 4 || r == 5 || r == 6 || r == 7;
  }

  // The magnitude whose field is e (or subnormal when e is 1) and whose significand is m.
  function Assemble(e: nat, m: nat): nat
    requires e >= 1
  {
    (e - 1) * HIDDEN + m
  }

  lemma AssembleMag(e: nat, m: nat)
    requires e >= 1 && m <= 2 * HIDDEN && (e > 1 ==> m >= HIDDEN)
    ensures Mag(Assemble(e, m)) == Ldexp(m as real, e - 150)
    ensures m < 2 * HIDDEN ==> ScaleField(Assemble(e, m)) == e
  {
    hide Ldexp;
    var n := Assemble(e, m);
    if m < HIDDEN {
      assert Exponent(n) == 0 && Fraction(n) == m;
    } else if m < 2 * HIDDEN {
      assert Exponent(n) == e && Fraction(n) == m - HIDDEN;
    } else {
      assert Exponent(n) == e + 1 && Fraction(n) == 0;
      LdexpDouble(HIDDEN as real, e - 150);
    }
  }

  lemma EighthScale(y: real, k: int)
    ensures Ldexp(y / 8.0, k + 3) == Ldexp(y, k)
  {
    LdexpDouble(y / 2.0, k);
    LdexpDouble(y / 4.0, k + 1);
    LdexpDouble(y / 8.0, k + 2);
  }

  lemma UpperMid(e: nat, m: nat)
    requires e >= 1 && m <= 2 * HIDDEN && (e > 1 ==> m >= HIDDEN)
    ensures Mid(Assemble(e, m)) >= Ldexp(m as real + 0.5, e - 150)
    ensures m < 2 * HIDDEN ==> Mid(Assemble(e, m)) == Ldexp(m as real + 0.5, e - 150)
  {
    hide Ldexp, Mag;
    var n, k := Assemble(e, m), e - 150;
    AssembleMag(e, m);
    MagStep(n);
    LdexpAdd(m as real, 0.5, k);
    LdexpAdd(0.5, 0.5, k);
    if m == 2 * HIDDEN {
      assert ScaleField(n) == e + 1;
      LdexpDouble(1.0, k);
      LdexpStep(1.0, k);
      LdexpSign(0.5, k);
    }
  }

  /** The heart of every operation: rounding a normalised significand by its guard bits gives the
      nearest magnitude to the exact value, with the carry into the next binade included. */
  lemma RoundingIsNearest(e: nat, sig: nat, y: real)
    requires 1 <= e <= 254 && sig < 16 * HIDDEN && (e > 1 ==> sig >= 8 * HIDDEN)
    requires Tracks(sig, y, 4)
    ensures Nearest(Assemble(e, RoundGrs(sig)), Ldexp(y, e - 153))
  {
    hide Ldexp, Mid, Tracks;
    var m, k, z := RoundGrs(sig), e - 150, y / 8.0;
    RoundGrsNear(sig, y);
    EighthScale(y, k - 3);
    var x := Ldexp(z, k);
    UpperMid(e, m);
    LdexpOrder(z, m as real + 0.5, k);
    if m > HIDDEN || (e == 1 && m > 0) {
      UpperMid(e, m - 1);
      LdexpOrder(z, m as real - 0.5, k);
    } else if e > 1 {
      LowerBinade(e, sig, y);
    }
  }

  lemma LowerBinade(e: nat, sig: nat, y: real)
    requires e > 1 && sig >= 8 * HIDDEN && Tracks(sig, y, 4)
    ensures Mid(Assemble(e, HIDDEN) - 1) < Ldexp(y, e - 153)
  {
    hide Ldexp, Mid;
    var k := e - 150;
    UpperMid(e - 1, 2 * HIDDEN - 1);
    EighthScale(y, k - 3);
    LdexpDouble(HIDDEN as real - 0.25, k - 1);
    assert Assemble(e, HIDDEN) - 1 == Assemble(e - 1, 2 * HIDDEN - 1);
    assert y >= 8.0 * HIDDEN as real;
    LdexpOrder(HIDDEN as real - 0.25, y / 8.0, k);
  }
}
