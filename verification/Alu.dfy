/** Integer arithmetic and condition codes: nemu/src/cpu/alu.c, nemu/include/cpu/alu.h and
    nemu/include/cpu/instr_helper.h. */
module Alu {
  import opened Words

  const DWORD := 0x1_0000_0000_0000_0000

  predicate Width(n: nat) { n == 8 || n == 16 || n == 32 }

  // Number of values of an operand of n bits.
  function Bound(n: nat): (b: int)
    requires Width(n)
    ensures 256 <= b <= WORD
  {
    if n == 8 then 0x100 else if n == 16 then 0x1_0000 else WORD
  }

  function Wrap(x: int, n: nat): (r: int)
    requires Width(n)
    ensures 0 <= r < Bound(n)
  {
    x % Bound(n)
  }

  // The low n bits of a word.
  function Mask(x: Word, n: nat): (m: int)
    requires Width(n)
    ensures 0 <= m < Bound(n)
  {
    Wrap(x, n)
  }

  // The operand read as a two's complement number.
  function Signed(x: Word, n: nat): int
    requires Width(n)
  {
    TwosComplement(Mask(x, n), Bound(n))
  }

  function TwosComplement(m: int, bound: int): int {
    if 2 * m >= bound then m - bound else m
  }

  // sign_ext: the signed value in a 32-bit word; sign: its top bit.
  function SignExt(x: Word, n: nat): Word
    requires Width(n)
  {
    var s := Signed(x, n);
    if s < 0 then s + WORD else s
  }

  function SignBit(x: Word): nat { x / 0x8000_0000 }

  // ----- what the flags mean

  datatype Flags = Flags(cf: bool, pf: bool, zf: bool, sf: bool, of: bool)

  function Ones(x: nat): nat { if x == 0 then 0 else x % 2 + Ones(x / 2) }

  function Bit(b: bool): int { if b then 1 else 0 }

  // Too large for a two's complement number with this many values.
  predicate Overflows(x: int, bound: int) { !(-bound <= 2 * x < bound) }

  // Flags of a result together with its carry and overflow.
  function FlagsOf(result: Word, n: nat, cf: bool, of: bool): Flags
    requires Width(n)
  {
    Flags(cf, Ones(result % 256) % 2 == 0, result % Bound(n) == 0, Signed(result, n) < 0, of)
  }

  function Sum(dest: Word, src: Word, c: bool, n: nat): (r: Word)
    requires Width(n)
    ensures r < Bound(n)
  {
    Wrap(Mask(dest, n) + Mask(src, n) + Bit(c), n)
  }

  function SumFlags(dest: Word, src: Word, c: bool, n: nat): Flags
    requires Width(n)
  {
    FlagsOf(Sum(dest, src, c, n), n,
            Mask(dest, n) + Mask(src, n) + Bit(c) >= Bound(n),
            Overflows(Signed(dest, n) + Signed(src, n) + Bit(c), Bound(n)))
  }

  function Diff(dest: Word, src: Word, c: bool, n: nat): (r: Word)
    requires Width(n)
    ensures r < Bound(n)
  {
    Wrap(Mask(dest, n) - Mask(src, n) - Bit(c), n)
  }

  function DiffFlags(dest: Word, src: Word, c: bool, n: nat): Flags
    requires Width(n)
  {
    FlagsOf(Diff(dest, src, c, n), n,
            Mask(dest, n) < Mask(src, n) + Bit(c),
            Overflows(Signed(dest, n) - Signed(src, n) - Bit(c), Bound(n)))
  }

  // ----- condition codes

  predicate CondE(f: Flags) { f.zf }
  predicate CondNe(f: Flags) { !f.zf }
  predicate CondA(f: Flags) { !f.cf && !f.zf }
  predicate CondAe(f: Flags) { !f.cf }
  predicate CondB(f: Flags) { f.cf }
  predicate CondBe(f: Flags) { f.cf || f.zf }
  predicate CondG(f: Flags) { !f.zf && f.sf == f.of }
  predicate CondGe(f: Flags) { f.sf == f.of }
  predicate CondL(f: Flags) { f.sf != f.of }
  predicate CondLe(f: Flags) { f.zf || f.sf != f.of }

  /** After dest - src the condition codes decide every order of the operands: below and above
      without sign, less and greater with sign, and equality, at each size. */
  lemma ConditionsDecideOrder(dest: Word, src: Word, n: nat)
    requires Width(n)
    ensures var f, d, s := DiffFlags(dest, src, false, n), Mask(dest, n), Mask(src, n);
      && (CondB(f) <==> d < s) && (CondBe(f) <==> d <= s) && (CondA(f) <==> d > s) && (CondAe(f) <==> d >= s)
      && (CondE(f) <==> d == s) && (CondNe(f) <==> d != s)
    ensures var f, d, s := DiffFlags(dest, src, false, n), Signed(dest, n), Signed(src, n);
      && (CondL(f) <==> d < s) && (CondLe(f) <==> d <= s) && (CondG(f) <==> d > s) && (CondGe(f) <==> d >= s)
  {
    hide Ones, Mask, Bound, TwosComplement, Once, Diff;
    BoundEven(n);
    ResultOnce(dest, src, false, n);
    MaskIs(Diff(dest, src, false, n), n);
    OrderOnce(Mask(dest, n), Mask(src, n), Bound(n));
    BoundModulus(Diff(dest, src, false, n), n);
  }

  lemma BoundModulus(x: Word, n: nat)
    requires Width(n)
    ensures x % Bound(n) == Mask(x, n)
  {}

  lemma OrderOnce(d: int, s: int, bound: int)
    requires 0 <= d < bound && 0 <= s < bound && bound >= 256 && bound % 2 == 0
    ensures var r, x, y := Once(d - s, bound), TwosComplement(d, bound), TwosComplement(s, bound);
      && 0 <= r < bound && (r == 0 <==> d == s) && (x == y <==> d == s)
      && ((TwosComplement(r, bound) < 0) != Overflows(x - y, bound) <==> x < y)
  {}

  lemma WrapOnce(x: int, n: nat)
    requires Width(n) && -Bound(n) <= x < 2 * Bound(n)
    ensures Wrap(x, n) == if x < 0 then x + Bound(n) else if x < Bound(n) then x else x - Bound(n)
  {}

  lemma MaskIs(x: Word, n: nat)
    requires Width(n) && x < Bound(n)
    ensures Mask(x, n) == x
  {}

  lemma WrapShift(x: int, q: int, n: nat)
    requires Width(n)
    ensures Wrap(x + q * Bound(n), n) == Wrap(x, n)
  {
    ModShift(x, q, Bound(n));
  }

  lemma ModShift(x: int, q: int, m: nat)
    requires m > 0
    ensures (x + q * m) % m == x % m
  {
    var y, p := x + q * m, x / m + q;
    assert x == x / m * m + x % m;
    assert p * m == x / m * m + q * m;
    DivModIs(y, m, p, x % m);
    assert y == y / m * m + y % m;
  }

  // Arithmetic modulo 2^32 is arithmetic modulo every operand size.
  lemma MaskWord(x: int, n: nat)
    requires Width(n)
    ensures Mask(x % WORD, n) == Wrap(x, n)
  {
    var k := if n == 8 then 0x100_0000 else if n == 16 then 0x1_0000 else 1;
    assert x % WORD == x + (-(x / WORD) * k) * Bound(n);
    WrapShift(x, -(x / WORD) * k, n);
  }

  lemma MaskParts(x: Word, n: nat) returns (q: int)
    requires Width(n)
    ensures x == Mask(x, n) + q * Bound(n)
  {
    q := x / Bound(n);
  }

  lemma MaskAdd(a: Word, b: Word, n: nat)
    requires Width(n)
    ensures Mask((a + b) % WORD, n) == Wrap(Mask(a, n) + Mask(b, n), n)
    ensures Mask((a - b) % WORD, n) == Wrap(Mask(a, n) - Mask(b, n), n)
  {
    var p := MaskParts(a, n);
    var q := MaskParts(b, n);
    var m := Bound(n);
    MaskWord(a + b, n);
    MaskWord(a - b, n);
    Regroup(p, q, m);
    WrapShift(Mask(a, n) + Mask(b, n), p + q, n);
    WrapShift(Mask(a, n) - Mask(b, n), p - q, n);
  }

  lemma Regroup(p: int, q: int, m: int)
    ensures (p + q) * m == p * m + q * m && (p - q) * m == p * m - q * m
  {}

  // One conditional correction brings a sum or difference back into range.
  function Once(x: int, bound: int): int {
    if x < 0 then x + bound else if x < bound then x else x - bound
  }

  // Overflow as the sign comparisons see it.
  predicate AddOverflow(r: int, s: int, d: int) { (s < 0) == (d < 0) && (s < 0) != (r < 0) }

  predicate SubOverflow(r: int, s: int, d: int) { (s < 0) != (d < 0) && (d < 0) != (r < 0) }

  lemma AddStages(d: int, s: int, c: int, bound: int)
    requires 0 <= d < bound && 0 <= s < bound && 0 <= c <= 1 && bound >= 256 && bound % 2 == 0
    ensures var p := Once(d + s, bound); var r := Once(p + c, bound);
      && r == Once(d + s + c, bound)
      && ((p < s || r < c) <==> d + s + c >= bound)
      && var x, y := TwosComplement(d, bound), TwosComplement(s, bound);
      var z, w := TwosComplement(p, bound), TwosComplement(r, bound);
      (AddOverflow(z, y, x) != AddOverflow(w, c, z)) == Overflows(x + y + c, bound)
  {}

  lemma AddOnce(d: int, s: int, bound: int)
    requires 0 <= d < bound && 0 <= s < bound && bound >= 256 && bound % 2 == 0
    ensures var r := Once(d + s, bound);
      && (r < s <==> d + s >= bound)
      && var (x, y, w) := (TwosComplement(d, bound), TwosComplement(s, bound), TwosComplement(r, bound));
      AddOverflow(w, y, x) == Overflows(x + y, bound)
  {}

  lemma SubOnce(d: int, s: int, bound: int)
    requires 0 <= d < bound && 0 <= s < bound && bound >= 256 && bound % 2 == 0
    ensures var r := Once(d - s, bound);
      var (x, y, w) := (TwosComplement(d, bound), TwosComplement(s, bound), TwosComplement(r, bound));
      SubOverflow(w, y, x) == Overflows(x - y, bound)
  {}

  lemma SubStages(d: int, s: int, c: int, bound: int)
    requires 0 <= d < bound && 0 <= s < bound && 0 <= c <= 1 && bound >= 256 && bound % 2 == 0
    ensures var p := Once(d - s, bound); var r := Once(p - c, bound);
      && r == Once(d - s - c, bound)
      && ((d < s || p < c) <==> d < s + c)
      && var x, y := TwosComplement(d, bound), TwosComplement(s, bound);
      var z, w := TwosComplement(p, bound), TwosComplement(r, bound);
      (SubOverflow(z, y, x) != SubOverflow(w, c, z)) == Overflows(x - y - c, bound)
  {}

  // The 32-bit sum and difference, seen at the operand size.
  lemma MaskOnce(a: Word, b: Word, n: nat)
    requires Width(n)
    ensures Mask(Wrap32(a + b), n) == Once(Mask(a, n) + Mask(b, n), Bound(n))
    ensures Mask(Wrap32(a - b), n) == Once(Mask(a, n) - Mask(b, n), Bound(n))
  {
    hide Mask;
    MaskAdd(a, b, n);
    WrapOnce(Mask(a, n) + Mask(b, n), n);
    WrapOnce(Mask(a, n) - Mask(b, n), n);
  }

  lemma ResultOnce(dest: Word, src: Word, c: bool, n: nat)
    requires Width(n)
    ensures Sum(dest, src, c, n) == Once(Mask(dest, n) + Mask(src, n) + Bit(c), Bound(n))
    ensures Diff(dest, src, c, n) == Once(Mask(dest, n) - Mask(src, n) - Bit(c), Bound(n))
  {
    hide Mask;
    WrapOnce(Mask(dest, n) + Mask(src, n) + Bit(c), n);
    WrapOnce(Mask(dest, n) - Mask(src, n) - Bit(c), n);
  }

  // The carry bit as an operand.
  lemma CarryOperand(c: bool, n: nat)
    requires Width(n)
    ensures Mask(Bit(c), n) == Bit(c) && Signed(Bit(c), n) == Bit(c)
  {}

  lemma BoundEven(n: nat)
    requires Width(n)
    ensures Bound(n) % 2 == 0
  {}

  lemma AdcStages(dest: Word, src: Word, carry: bool, n: nat)
    requires Width(n)
    ensures var c: Word := Bit(carry); var partial: Word := Wrap32(dest + src); var res: Word := Wrap32(partial + c);
      && Mask(res, n) == Sum(dest, src, carry, n)
      && ((Mask(partial, n) < Mask(src, n) || Mask(res, n) < Mask(c, n)) <==> SumFlags(dest, src, carry, n).cf)
      && (AddOverflow(Signed(partial, n), Signed(src, n), Signed(dest, n))
          != AddOverflow(Signed(res, n), Signed(c, n), Signed(partial, n))) == SumFlags(dest, src, carry, n).of
  {
    hide Ones, Mask, Bound, TwosComplement, AddOverflow, Overflows, Once, Sum, Wrap32, Wrap;
    var c: Word := Bit(carry);
    var partial: Word := Wrap32(dest + src);
    BoundEven(n);
    CarryOperand(carry, n);
    MaskOnce(dest, src, n);
    MaskOnce(partial, c, n);
    ResultOnce(dest, src, carry, n);
    AddStages(Mask(dest, n), Mask(src, n), c, Bound(n));
  }

  lemma SbbStages(dest: Word, src: Word, borrow: bool, n: nat)
    requires Width(n)
    ensures var c: Word := Bit(borrow); var partial: Word := Wrap32(dest - src); var res: Word := Wrap32(partial - c);
      && Mask(res, n) == Diff(dest, src, borrow, n)
      && ((Mask(dest, n) < Mask(src, n) || Mask(partial, n) < Mask(c, n)) <==> DiffFlags(dest, src, borrow, n).cf)
      && (SubOverflow(Signed(partial, n), Signed(src, n), Signed(dest, n))
          != SubOverflow(Signed(res, n), Signed(c, n), Signed(partial, n))) == DiffFlags(dest, src, borrow, n).of
  {
    hide Ones, Mask, Bound, TwosComplement, SubOverflow, Overflows, Once, Diff, Wrap32, Wrap;
    var c: Word := Bit(borrow);
    var partial: Word := Wrap32(dest - src);
    BoundEven(n);
    CarryOperand(borrow, n);
    MaskOnce(dest, src, n);
    MaskOnce(partial, c, n);
    ResultOnce(dest, src, borrow, n);
    SubStages(Mask(dest, n), Mask(src, n), c, Bound(n));
  }

  lemma MaskLow(x: Word, n: nat)
    requires Width(n)
    ensures Mask(x, n) % 256 == x % 256
  {
    if n == 16 {
      var q, m := x / 0x1_0000, Mask(x, n);
      assert x == 0x1_0000 * q + m;
      hide *;
      DivModIs(x, 256, 256 * q + m / 256, m % 256);
    }
  }

  lemma MaskTwice(x: Word, n: nat)
    requires Width(n)
    ensures Mask(Mask(x, n), n) == Mask(x, n) && Signed(Mask(x, n), n) == Signed(x, n)
  {}

  // Bitwise exclusive or of non-negative integers.
  function Xor(a: nat, b: nat): nat {
    if a == 0 && b == 0 then 0 else (a + b) % 2 + 2 * Xor(a / 2, b / 2)
  }

  lemma ParityStep(val: nat, rest: nat)
    ensures (Xor(val, rest) + Ones(rest / 2)) % 2 == (val + Ones(rest)) % 2
    ensures Ones(0) == 0
  {
    ParityAdds(Xor(val, rest), val, rest, Ones(rest / 2));
  }

  lemma ParityAdds(v: nat, a: nat, b: nat, o: nat)
    requires v % 2 == (a + b) % 2
    ensures (v + o) % 2 == (a + (b % 2 + o)) % 2
  {}

  lemma SignOf(x: Word, n: nat)
    requires Width(n)
    ensures SignBit(SignExt(x, n)) == if Signed(x, n) < 0 then 1 else 0
  {}

  // ----- what sums and differences and their flags mean, from the operands

  // The ones of a byte, digit by digit.
  lemma OnesOfByte(x: nat)
    requires x < 256
    ensures Ones(x) == x % 2 + x / 2 % 2 + x / 4 % 2 + x / 8 % 2
                     + x / 16 % 2 + x / 32 % 2 + x / 64 % 2 + x / 128 % 2
  {
    var y := x / 16;
    NestedFloor(x, 16);
    NestedFloor(x, 32);
    NestedFloor(x, 64);
    NestedFloor(y, 2);
    NestedFloor(y, 4);
    OnesOfNibble(x);
    OnesOfNibble(y);
    assert y / 16 == 0 && Ones(0) == 0;
    hide Ones;
  }

  lemma OnesOfNibble(x: nat)
    ensures Ones(x) == x % 2 + x / 2 % 2 + x / 4 % 2 + x / 8 % 2 + Ones(x / 16)
  {
    NestedFloor(x, 2);
    NestedFloor(x, 4);
    NestedFloor(x, 8);
    OnesStep(x);
    OnesStep(x / 2);
    OnesStep(x / 2 / 2);
    OnesStep(x / 2 / 2 / 2);
    hide Ones;
  }

  lemma OnesStep(x: nat)
    ensures Ones(x) == x % 2 + Ones(x / 2)
  {}

  lemma SignedParts(x: Word, n: nat) returns (s: int)
    requires Width(n)
    ensures Signed(x, n) == Mask(x, n) - s * Bound(n)
  {
    s := if 2 * Mask(x, n) >= Bound(n) then 1 else 0;
  }

  lemma WrapSignedSum(x: Word, y: Word, c: int, n: nat)
    requires Width(n)
    ensures Wrap(Signed(x, n) + Signed(y, n) + c, n) == Wrap(Mask(x, n) + Mask(y, n) + c, n)
    ensures Wrap(x + y + c, n) == Wrap(Mask(x, n) + Mask(y, n) + c, n)
  {
    var s := SignedParts(x, n);
    var t := SignedParts(y, n);
    var p := MaskParts(x, n);
    var q := MaskParts(y, n);
    hide *;
    Regroup(-s, -t, Bound(n));
    Regroup(p, q, Bound(n));
    WrapShift(Mask(x, n) + Mask(y, n) + c, -s + -t, n);
    WrapShift(Mask(x, n) + Mask(y, n) + c, p + q, n);
  }

  lemma WrapSignedDiff(x: Word, y: Word, c: int, n: nat)
    requires Width(n)
    ensures Wrap(Signed(x, n) - Signed(y, n) - c, n) == Wrap(Mask(x, n) - Mask(y, n) - c, n)
    ensures Wrap(x - y - c, n) == Wrap(Mask(x, n) - Mask(y, n) - c, n)
  {
    var s := SignedParts(x, n);
    var t := SignedParts(y, n);
    var p := MaskParts(x, n);
    var q := MaskParts(y, n);
    hide *;
    Regroup(-s, -t, Bound(n));
    Regroup(p, q, Bound(n));
    WrapShift(Mask(x, n) - Mask(y, n) - c, -s - -t, n);
    WrapShift(Mask(x, n) - Mask(y, n) - c, p - q, n);
  }

  lemma ResultFlags(r: Word, n: nat, cf: bool, of: bool)
    requires Width(n) && r < Bound(n)
    ensures var f := FlagsOf(r, n, cf, of);
      && (f.zf <==> r == 0) && (f.sf <==> 2 * r >= Bound(n)) && (f.sf <==> TwosComplement(r, Bound(n)) < 0)
      && (f.pf <==> Ones(r % 256) % 2 == 0) && f.cf == cf && f.of == of
  {
    hide Ones;
    MaskIs(r, n);
  }

  lemma OtherOverflow(r: Word, n: nat, cf: bool, of: bool, of': bool)
    requires Width(n)
    ensures FlagsOf(r, n, cf, of).(of := of') == FlagsOf(r, n, cf, of') && FlagsOf(r, n, cf, of).of == of
  {}

  lemma FlagsFromStages(dest: Word, src: Word, c: bool, n: nat)
    requires Width(n)
    ensures var f := SumFlags(dest, src, c, n); f == FlagsOf(Sum(dest, src, c, n), n, f.cf, f.of)
    ensures var f := DiffFlags(dest, src, c, n); f == FlagsOf(Diff(dest, src, c, n), n, f.cf, f.of)
  {}

  lemma AdcFlagsAre(dest: Word, src: Word, carry: bool, c: Word, partial: Word, res: Word, n: nat)
    requires Width(n) && c == Bit(carry) && partial == Wrap32(dest + src) && res == Wrap32(partial + c)
    ensures Mask(res, n) == Sum(dest, src, carry, n)
    ensures SumFlags(dest, src, carry, n) ==
      FlagsOf(Mask(res, n), n, Mask(partial, n) < Mask(src, n) || Mask(res, n) < Mask(c, n),
              AddOverflow(Signed(partial, n), Signed(src, n), Signed(dest, n))
              != AddOverflow(Signed(res, n), Signed(c, n), Signed(partial, n)))
  {
    hide *;
    AdcStages(dest, src, carry, n);
    FlagsFromStages(dest, src, carry, n);
  }

  lemma SbbFlagsAre(dest: Word, src: Word, carry: bool, c: Word, partial: Word, res: Word, n: nat)
    requires Width(n) && c == Bit(carry) && partial == Wrap32(dest - src) && res == Wrap32(partial - c)
    ensures Mask(res, n) == Diff(dest, src, carry, n)
    ensures DiffFlags(dest, src, carry, n) ==
      FlagsOf(Mask(res, n), n, Mask(dest, n) < Mask(src, n) || Mask(partial, n) < Mask(c, n),
              SubOverflow(Signed(partial, n), Signed(src, n), Signed(dest, n))
              != SubOverflow(Signed(res, n), Signed(c, n), Signed(partial, n)))
  {
    hide *;
    SbbStages(dest, src, carry, n);
    FlagsFromStages(dest, src, carry, n);
  }

  lemma SumFlagsMean(dest: Word, src: Word, c: bool, n: nat)
    requires Width(n)
    ensures var r, f := Sum(dest, src, c, n), SumFlags(dest, src, c, n);
      && r == Wrap(dest + src + Bit(c), n) && (f.zf <==> r == 0) && (f.sf <==> 2 * r >= Bound(n))
      && (f.pf <==> Ones(r % 256) % 2 == 0) && (f.cf <==> Mask(dest, n) + Mask(src, n) + Bit(c) >= Bound(n))
      && var sum := Signed(dest, n) + Signed(src, n) + Bit(c);
      && (f.of <==> 2 * sum < -Bound(n) || 2 * sum >= Bound(n))
      && (f.sf <==> TwosComplement(Wrap(sum, n), Bound(n)) < 0)
  {
    hide Ones, Signed, Mask, Bound, TwosComplement, FlagsOf;
    WrapSignedSum(dest, src, Bit(c), n);
    BoundEven(n);
    ResultFlags(Sum(dest, src, c, n), n, Mask(dest, n) + Mask(src, n) + Bit(c) >= Bound(n),
                Overflows(Signed(dest, n) + Signed(src, n) + Bit(c), Bound(n)));
  }

  lemma DiffFlagsMean(dest: Word, src: Word, c: bool, n: nat)
    requires Width(n)
    ensures var r, f := Diff(dest, src, c, n), DiffFlags(dest, src, c, n);
      && r == Wrap(dest - src - Bit(c), n) && (f.zf <==> r == 0) && (f.sf <==> 2 * r >= Bound(n))
      && (f.pf <==> Ones(r % 256) % 2 == 0) && (f.cf <==> Mask(dest, n) < Mask(src, n) + Bit(c))
      && var diff := Signed(dest, n) - Signed(src, n) - Bit(c);
      && (f.of <==> 2 * diff < -Bound(n) || 2 * diff >= Bound(n))
      && (f.sf <==> TwosComplement(Wrap(diff, n), Bound(n)) < 0)
  {
    hide Ones, Signed, Mask, Bound, TwosComplement, FlagsOf;
    WrapSignedDiff(dest, src, Bit(c), n);
    BoundEven(n);
    ResultFlags(Diff(dest, src, c, n), n, Mask(dest, n) < Mask(src, n) + Bit(c),
                Overflows(Signed(dest, n) - Signed(src, n) - Bit(c), Bound(n)));
  }

  class Cpu {
    var f: Flags

    method SetCFAdd(result: Word, src: Word, n: nat)
      requires Width(n)
      modifies this
      ensures f == old(f).(cf := Mask(result, n) < Mask(src, n))
    {
      f := f.(cf := SignExt(result, n) < SignExt(src, n));
    }

    method SetCFSub(src: Word, dest: Word, n: nat)
      requires Width(n)
      modifies this
      ensures f == old(f).(cf := Mask(dest, n) < Mask(src, n))
    {
      f := f.(cf := SignExt(dest, n) < SignExt(src, n));
    }

    method SetZF(result: Word, n: nat)
      requires Width(n)
      modifies this
      ensures f == old(f).(zf := Mask(result, n) == 0)
    {
      f := f.(zf := Mask(result, n) == 0);
    }

    method SetSF(result: Word, n: nat)
      requires Width(n)
      modifies this
      ensures f == old(f).(sf := Signed(result, n) < 0)
    {
      SignOf(result, n);
      f := f.(sf := SignBit(SignExt(result, n)) == 1);
    }

    /** Folding a byte onto itself leaves the parity of its ones in the lowest bit. */
    method SetPF(result: Word)
      modifies this
      ensures f == old(f).(pf := Ones(result % 256) % 2 == 0)
    {
      hide Ones, Xor;
      var rest: nat, val: nat := result % 256, 0;
      ghost var total := Ones(rest);
      while rest != 0
        invariant f == old(f) && (val + Ones(rest)) % 2 == total % 2
        decreases rest
      {
        ParityStep(val, rest);
        val := Xor(val, rest);
        rest := rest / 2;
      }
      assert Ones(0) == 0 by {
        ParityStep(0, 0);
      }
      f := f.(pf := val % 2 == 0);
    }

    // Overflow of result = src + dest: the operands agree in sign and the result does not.
    method SetOFAdd(result: Word, src: Word, dest: Word, n: nat)
      requires Width(n)
      modifies this
      ensures f == old(f).(of := AddOverflow(Signed(result, n), Signed(src, n), Signed(dest, n)))
    {
      SignOf(result, n);
      SignOf(src, n);
      SignOf(dest, n);
      var r, s, d := SignBit(SignExt(result, n)), SignBit(SignExt(src, n)), SignBit(SignExt(dest, n));
      if s == d {
        if s != r {
          f := f.(of := true);
        } else {
          f := f.(of := false);
        }
      } else {
        f := f.(of := false);
      }
    }

    // Overflow of result = dest - src: the operands differ in sign and the result is not dest's.
    method SetOFSub(result: Word, src: Word, dest: Word, n: nat)
      requires Width(n)
      modifies this
      ensures f == old(f).(of := SubOverflow(Signed(result, n), Signed(src, n), Signed(dest, n)))
    {
      SignOf(result, n);
      SignOf(src, n);
      SignOf(dest, n);
      var r, s, d := SignBit(SignExt(result, n)), SignBit(SignExt(src, n)), SignBit(SignExt(dest, n));
      if s != d {
        if d != r {
          f := f.(of := true);
        } else {
          f := f.(of := false);
        }
      } else {
        f := f.(of := false);
      }
    }

    method SetResultFlags(res: Word, n: nat)
      requires Width(n)
      modifies this
      ensures f == FlagsOf(Mask(res, n), n, old(f).cf, old(f).of)
    {
      SetPF(res);
      SetZF(res, n);
      SetSF(res, n);
      MaskLow(res, n);
      MaskTwice(res, n);
    }

    method AluAdd(src: Word, dest: Word, n: nat) returns (r: Word)
      requires Width(n)
      modifies this
      ensures r == Sum(dest, src, false, n) && f == SumFlags(dest, src, false, n)
      ensures r == Wrap(dest + src, n) && (f.zf <==> r == 0) && (f.sf <==> 2 * r >= Bound(n))
      ensures f.pf <==> Ones(r % 256) % 2 == 0
      ensures f.cf <==> Mask(dest, n) + Mask(src, n) >= Bound(n)
      ensures var sum := Signed(dest, n) + Signed(src, n);
        && (f.of <==> 2 * sum < -Bound(n) || 2 * sum >= Bound(n))
        && (f.sf <==> TwosComplement(Wrap(sum, n), Bound(n)) < 0)
    {
      hide Ones, Mask, Bound, TwosComplement, AddOverflow, Once, Sum;
      var res: Word := Wrap32(dest + src);
      SetCFAdd(res, src, n);
      SetResultFlags(res, n);
      SetOFAdd(res, src, dest, n);
      BoundEven(n);
      MaskOnce(dest, src, n);
      ResultOnce(dest, src, false, n);
      AddOnce(Mask(dest, n), Mask(src, n), Bound(n));
      r := Mask(res, n);
      assert r == Sum(dest, src, false, n) && f == SumFlags(dest, src, false, n);
      hide *;
      SumFlagsMean(dest, src, false, n);
    }

    // Carry and overflow of the two stages, gathered.
    method AluAdcFlags(src: Word, dest: Word, c: Word, partial: Word, res: Word, n: nat)
      requires Width(n)
      modifies this
      ensures f == FlagsOf(Mask(res, n), n, Mask(partial, n) < Mask(src, n) || Mask(res, n) < Mask(c, n),
                           AddOverflow(Signed(partial, n), Signed(src, n), Signed(dest, n))
                           != AddOverflow(Signed(res, n), Signed(c, n), Signed(partial, n)))
    {
      hide Ones, Mask, Bound, Signed, AddOverflow, FlagsOf, TwosComplement, Overflows, Wrap;
      SetCFAdd(partial, src, n);
      var cf1 := f.cf;
      SetCFAdd(res, c, n);
      f := f.(cf := f.cf || cf1);
      ghost var cf, of := f.cf, f.of;
      SetResultFlags(res, n);
      SetOFAdd(partial, src, dest, n);
      var of1 := f.of;
      SetOFAdd(res, c, partial, n);
      f := f.(of := f.of != of1);
      OtherOverflow(Mask(res, n), n, cf, of, f.of);
    }

    /** Carry and overflow gathered in two stages are those of the three-way sum. */
    method AluAdc(src: Word, dest: Word, n: nat) returns (r: Word)
      requires Width(n)
      modifies this
      ensures r == Sum(dest, src, old(f).cf, n) && f == SumFlags(dest, src, old(f).cf, n)
      ensures r == Wrap(dest + src + Bit(old(f).cf), n) && (f.zf <==> r == 0) && (f.sf <==> 2 * r >= Bound(n))
      ensures f.pf <==> Ones(r % 256) % 2 == 0
      ensures f.cf <==> Mask(dest, n) + Mask(src, n) + Bit(old(f).cf) >= Bound(n)
      ensures var sum := Signed(dest, n) + Signed(src, n) + Bit(old(f).cf);
        && (f.of <==> 2 * sum < -Bound(n) || 2 * sum >= Bound(n))
        && (f.sf <==> TwosComplement(Wrap(sum, n), Bound(n)) < 0)
    {
      hide Wrap32, Wrap, Mask, Signed, TwosComplement, Bound;
      ghost var carry := f.cf;
      var c: Word := Bit(f.cf);
      var partial: Word := Wrap32(dest + src);
      var res: Word := Wrap32(partial + c);
      hide *;
      AluAdcFlags(src, dest, c, partial, res, n);
      r := Mask(res, n);
      assert r == Sum(dest, src, carry, n) && f == SumFlags(dest, src, carry, n) by {
        AdcFlagsAre(dest, src, carry, c, partial, res, n);
      }
      SumFlagsMean(dest, src, carry, n);
    }

    method AluSub(src: Word, dest: Word, n: nat) returns (r: Word)
      requires Width(n)
      modifies this
      ensures r == Diff(dest, src, false, n) && f == DiffFlags(dest, src, false, n)
      ensures r == Wrap(dest - src, n) && (f.zf <==> r == 0) && (f.sf <==> 2 * r >= Bound(n))
      ensures f.pf <==> Ones(r % 256) % 2 == 0
      ensures f.cf <==> Mask(dest, n) < Mask(src, n)
      ensures var diff := Signed(dest, n) - Signed(src, n);
        && (f.of <==> 2 * diff < -Bound(n) || 2 * diff >= Bound(n))
        && (f.sf <==> TwosComplement(Wrap(diff, n), Bound(n)) < 0)
    {
      hide Ones, Mask, Bound, TwosComplement, SubOverflow, Once, Diff;
      var res: Word := Wrap32(dest - src);
      SetCFSub(src, dest, n);
      SetResultFlags(res, n);
      SetOFSub(res, src, dest, n);
      BoundEven(n);
      MaskOnce(dest, src, n);
      ResultOnce(dest, src, false, n);
      SubOnce(Mask(dest, n), Mask(src, n), Bound(n));
      r := Mask(res, n);
      assert r == Diff(dest, src, false, n) && f == DiffFlags(dest, src, false, n);
      hide *;
      DiffFlagsMean(dest, src, false, n);
    }

    // Carry and overflow of the two stages, gathered.
    method AluSbbFlags(src: Word, dest: Word, c: Word, partial: Word, res: Word, n: nat)
      requires Width(n)
      modifies this
      ensures f == FlagsOf(Mask(res, n), n, Mask(dest, n) < Mask(src, n) || Mask(partial, n) < Mask(c, n),
                           SubOverflow(Signed(partial, n), Signed(src, n), Signed(dest, n))
                           != SubOverflow(Signed(res, n), Signed(c, n), Signed(partial, n)))
    {
      hide Ones, Mask, Bound, Signed, SubOverflow, FlagsOf, TwosComplement, Overflows, Wrap;
      SetCFSub(src, dest, n);
      var cf1 := f.cf;
      SetCFSub(c, partial, n);
      f := f.(cf := f.cf || cf1);
      ghost var cf, of := f.cf, f.of;
      SetResultFlags(res, n);
      SetOFSub(partial, src, dest, n);
      var of1 := f.of;
      SetOFSub(res, c, partial, n);
      f := f.(of := f.of != of1);
      OtherOverflow(Mask(res, n), n, cf, of, f.of);
    }

    method AluSbb(src: Word, dest: Word, n: nat) returns (r: Word)
      requires Width(n)
      modifies this
      ensures r == Diff(dest, src, old(f).cf, n) && f == DiffFlags(dest, src, old(f).cf, n)
      ensures r == Wrap(dest - src - Bit(old(f).cf), n) && (f.zf <==> r == 0) && (f.sf <==> 2 * r >= Bound(n))
      ensures f.pf <==> Ones(r % 256) % 2 == 0
      ensures f.cf <==> Mask(dest, n) < Mask(src, n) + Bit(old(f).cf)
      ensures var diff := Signed(dest, n) - Signed(src, n) - Bit(old(f).cf);
        && (f.of <==> 2 * diff < -Bound(n) || 2 * diff >= Bound(n))
        && (f.sf <==> TwosComplement(Wrap(diff, n), Bound(n)) < 0)
    {
      hide Wrap32, Wrap, Mask, Signed, TwosComplement, Bound;
      ghost var borrow := f.cf;
      var c: Word := Bit(f.cf);
      var partial: Word := Wrap32(dest - src);
      var res: Word := Wrap32(partial - c);
      hide *;
      AluSbbFlags(src, dest, c, partial, res, n);
      r := Mask(res, n);
      assert r == Diff(dest, src, borrow, n) && f == DiffFlags(dest, src, borrow, n) by {
        SbbFlagsAre(dest, src, borrow, c, partial, res, n);
      }
      DiffFlagsMean(dest, src, borrow, n);
    }

    // The loop of alu_sar on the masked operand.
    static method ShiftRight(d: int, count: int, n: nat) returns (res: int)
      requires Width(n) && 0 <= d < Bound(n) && count >= 0
      ensures res == Wrap(FloorShift(TwosComplement(d, Bound(n)), count), n)
    {
      hide BitwiseOr, Wrap, Bound, TwosComplement, Overflows, Half, FloorShift, SignPart;
      var sym := SignPart(d, n);
      res := d;
      var i := count;
      ghost var s := TwosComplement(d, Bound(n));
      ghost var q := s;
      WrapSigned(d, n);
      SignPartIs(d, n);
      FloorShiftStep(s, 0);
      while i > 0
        invariant 0 <= i <= count && res >= 0
        invariant q == FloorShift(s, count - i) && !Overflows(q, Bound(n)) && (q < 0 <==> s < 0)
        invariant res == Wrap(q, n)
      {
        SarStep(q, n);
        FloorShiftStep(s, count - i);
        res := BitwiseOr(res / 2, sym);
        i := i - 1;
        q := Half(q);
      }
    }

    /** Shifting one place at a time with the sign refilled is floor division of the signed operand.
        The carry is the bit shifted out last as long as the count is at most the width or the operand
        is not negative, and the opposite bit otherwise: it is taken from the operand extended with
        zeroes. For count 0 or above 32 it comes from an undefined shift and is arbitrary. */
    method AluSar(src: Word, dest: Word, n: nat) returns (r: Word)
      requires Width(n)
      modifies this
      ensures r == Wrap(FloorShift(Signed(dest, n), Mask(src, n)), n)
      ensures 1 <= Mask(src, n) <= 32 ==>
        (f.cf == LastOut(Signed(dest, n), Mask(src, n)) <==> Mask(src, n) <= n || Signed(dest, n) >= 0)
      ensures f == FlagsOf(r, n, f.cf, old(f).of)
    {
      hide Ones, Mask, Pow2, Wrap, FloorShift, LastOut;
      var d, count := Mask(dest, n), Mask(src, n);
      var res := ShiftRight(d, count, n);
      var bit: bool := *;
      if 1 <= count <= 32 {
        bit := d / Pow2(count - 1) % 2 == 1;
        CarryIsLastOut(d, count, n);
      }
      f := f.(cf := bit);
      MaskIs(res, n);
      SetResultFlags(res, n);
      r := res;
    }

    /** A byte holding -128 shifted by 9: the result is right, the last bit out is 1, the carry is clear. */
    method SarPastWidth() returns (r: Word)
      modifies this
      ensures r == 0xff && LastOut(-128, 9) && !f.cf
    {
      hide LastOut, FloorShift;
      SignsRunOut();
      assert Mask(9, 8) == 9 && Signed(0x80, 8) == -128;
      r := AluSar(9, 0x80, 8);
    }

    /** The 64-bit product of two operands wraps for none of them. */
    method AluMul(src: Word, dest: Word, n: nat) returns (r: nat)
      requires Width(n)
      modifies this
      ensures r == Mask(dest, n) * Mask(src, n) < DWORD
      ensures f == old(f).(cf := r >= Bound(n), of := r >= Bound(n))
    {
      ProductFits(Mask(dest, n), Mask(src, n));
      r := Mask(dest, n) * Mask(src, n) % DWORD;
      f := f.(cf := r / Bound(n) != 0);
      f := f.(of := f.cf);
    }
  }

  lemma ProductFits(x: int, y: int)
    requires 0 <= x < WORD && 0 <= y < WORD
    ensures 0 <= x * y < DWORD && x * y % DWORD == x * y
  {
    MulLe(x, WORD - 1, y);
    MulLe(0, x, y);
    var p := x * y;
    assert p <= (WORD - 1) * y;
    hide *;
    DivModIs(p, 0x1_0000_0000_0000_0000, 0, p);
  }

  // ----- arithmetic shift

  // floor(x / 2), also for negative x
  function Half(x: int): int { x / 2 }

  function FloorShift(x: int, k: nat): int { if k == 0 then x else Half(FloorShift(x, k - 1)) }

  /** k halvings are one floor division by 2^k. */
  lemma {:induction false} FloorShiftDivides(x: int, k: nat)
    ensures FloorShift(x, k) == x / Pow2(k)
  {
    if k > 0 {
      FloorShiftDivides(x, k - 1);
      NestedFloor(x, Pow2(k - 1));
    }
  }

  // Of count halvings, the bit that the last one drops.
  predicate LastOut(x: int, count: nat)
    requires count >= 1
  {
    FloorShift(x, count - 1) % 2 == 1
  }

  /** The bit taken for the carry is the one shifted out last if and only if the shift stays within
      the width or the operand is not negative. */
  lemma CarryIsLastOut(d: int, count: nat, n: nat)
    requires Width(n) && 0 <= d < Bound(n) && count >= 1
    ensures var s := TwosComplement(d, Bound(n));
      (d / Pow2(count - 1) % 2 == 1) == LastOut(s, count) <==> count <= n || s >= 0
  {
    hide Pow2, Bound, FloorShift;
    var s, p := TwosComplement(d, Bound(n)), Pow2(count - 1);
    FloorShiftDivides(s, count - 1);
    BoundIsPow2(n);
    if s < 0 {
      if count <= n {
        Pow2Sum(n - count + 1, count - 1);
        assert Pow2(n - count + 1) == 2 * Pow2(n - count) by {
          Pow2Next(n - count);
        }
        EvenMultiple(d, p, Pow2(n - count));
      } else {
        Pow2Sum(count - 1 - n, n);
        MulLe(1, Pow2(count - 1 - n), Bound(n));
        DivModIs(d, p, 0, d);
        DivModIs(s, p, -1, s + p);
      }
    }
  }

  // Taking away an even multiple of p does not change the parity of the quotient.
  lemma EvenMultiple(d: int, p: nat, k: nat)
    requires p > 0
    ensures (d - 2 * k * p) / p % 2 == d / p % 2
  {
    DivModIs(d - 2 * k * p, p, d / p - 2 * k, d % p);
  }

  lemma Pow2Next(k: nat)
    ensures Pow2(k + 1) == 2 * Pow2(k)
  {}

  lemma BoundIsPow2(n: nat)
    requires Width(n)
    ensures Bound(n) == Pow2(n)
  {
    HalfBound(n);
    Pow2Next(n - 1);
    hide Pow2;
  }

  // After eight halvings of a byte's lowest number only signs are left.
  lemma SignsRunOut()
    ensures LastOut(-128, 9) && FloorShift(-128, 9) == -1
  {
    FloorShiftDivides(-128, 8);
    Pow2Of7();
    assert Pow2(8) == 256;
    FloorShiftStep(-128, 8);
  }

  lemma NestedFloor(x: int, p: nat)
    requires p > 0
    ensures x / p / 2 == x / (2 * p)
  {
    var q, h := x / p, x / p / 2;
    assert x == q * p + x % p;
    assert q == 2 * h + q % 2;
    assert q * p == h * (2 * p) + q % 2 * p;
    DivModIs(x, 2 * p, h, q % 2 * p + x % p);
  }

  lemma WrapSigned(m: int, n: nat)
    requires Width(n) && 0 <= m < Bound(n)
    ensures Wrap(TwosComplement(m, Bound(n)), n) == m && !Overflows(TwosComplement(m, Bound(n)), Bound(n))
  {}

  // Setting the sign bit of a number that fits below it.
  lemma {:induction false} OrSign(x: nat, k: nat)
    requires x < Pow2(k)
    ensures BitwiseOr(x, Pow2(k)) == x + Pow2(k)
    decreases k
  {
    if k > 0 {
      assert Pow2(k) == 2 * Pow2(k - 1);
      OrSign(x / 2, k - 1);
    } else {
      assert BitwiseOr(0, 0) == 0;
    }
  }

  lemma {:induction false} OrZero(x: nat)
    ensures BitwiseOr(x, 0) == x
  {
    if x > 0 {
      OrZero(x / 2);
    }
  }

  // The sign bit alone, as a word.
  function SignPart(d: int, n: nat): int
    requires Width(n) && 0 <= d < Bound(n)
  {
    d / (Bound(n) / 2) * (Bound(n) / 2)
  }

  lemma SignPartIs(d: int, n: nat)
    requires Width(n) && 0 <= d < Bound(n)
    ensures SignPart(d, n) == if TwosComplement(d, Bound(n)) < 0 then Bound(n) / 2 else 0
  {
    if n == 8 {
      assert d / 0x80 == if d >= 0x80 then 1 else 0;
    } else if n == 16 {
      assert d / 0x8000 == if d >= 0x8000 then 1 else 0;
    } else {
      assert d / 0x8000_0000 == if d >= 0x8000_0000 then 1 else 0;
    }
  }

  lemma FloorShiftStep(x: int, k: nat)
    ensures FloorShift(x, 0) == x && FloorShift(x, k + 1) == Half(FloorShift(x, k))
  {}

  lemma SarStep(q: int, n: nat)
    requires Width(n) && !Overflows(q, Bound(n))
    ensures var sym := if q < 0 then Bound(n) / 2 else 0;
      BitwiseOr(Wrap(q, n) / 2, sym) == Wrap(Half(q), n)
    ensures !Overflows(Half(q), Bound(n)) && (Half(q) < 0 <==> q < 0)
  {
    hide BitwiseOr;
    WrapOnce(q, n);
    WrapOnce(Half(q), n);
    if q < 0 {
      HalfBound(n);
      OrSign(Wrap(q, n) / 2, n - 1);
    } else {
      OrZero(Wrap(q, n) / 2);
    }
  }

  lemma HalfBound(n: nat)
    requires Width(n)
    ensures Pow2(n - 1) == Bound(n) / 2
  {
    Pow2Of7();
    assert Pow2(15) == 256 * Pow2(7) by {
      Pow2Up(7);
    }
    assert Pow2(31) == 0x1_0000 * Pow2(15) by {
      Pow2Up(15);
      Pow2Up(23);
    }
  }

  lemma Pow2Of7()
    ensures Pow2(7) == 128
  {
    assert Pow2(3) == 8;
    assert Pow2(5) == 32;
  }

  lemma Pow2Up(k: nat)
    ensures Pow2(k + 8) == 256 * Pow2(k)
  {
    assert Pow2(k + 2) == 4 * Pow2(k);
    assert Pow2(k + 4) == 4 * Pow2(k + 2);
    assert Pow2(k + 6) == 4 * Pow2(k + 4);
  }
}
