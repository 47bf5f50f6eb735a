/** Arithmetic wider than a word: chains of add/adc and sub/sbb over 32-bit limbs, least significant
    limb first, as compiled code for long integers uses nemu/src/cpu/alu.c. */
module MultiLimb {
  import opened Alu
  import opened Words

  // The number a sequence of limbs stands for, and the same read as two's complement.
  function Num(a: seq<Word>): nat { if a == [] then 0 else a[0] + WORD * Num(a[1..]) }

  function Span(k: nat): (s: nat)
    ensures s > 0
  {
    if k == 0 then 1 else WORD * Span(k - 1)
  }

  function SignedNum(a: seq<Word>): int { TwosComplement(Num(a), Span(|a|)) }

  /** The limbs written by a chain of additions and the flags it leaves; the first limb takes the
      carry given (none for alu_add), every later one that of its predecessor (alu_adc). */
  function AddChain(a: seq<Word>, b: seq<Word>, f: Flags): (r: (seq<Word>, Flags))
    requires |a| == |b|
    ensures |r.0| == |a|
  {
    if a == [] then ([], f)
    else
      var rest := AddChain(a[1..], b[1..], SumFlags(a[0], b[0], f.cf, 32));
      ([Sum(a[0], b[0], f.cf, 32)] + rest.0, rest.1)
  }

  function SubChain(a: seq<Word>, b: seq<Word>, f: Flags): (r: (seq<Word>, Flags))
    requires |a| == |b|
    ensures |r.0| == |a|
  {
    if a == [] then ([], f)
    else
      var rest := SubChain(a[1..], b[1..], DiffFlags(a[0], b[0], f.cf, 32));
      ([Diff(a[0], b[0], f.cf, 32)] + rest.0, rest.1)
  }

  lemma LimbSum(a: Word, b: Word, c: bool)
    ensures Sum(a, b, c, 32) + WORD * Bit(SumFlags(a, b, c, 32).cf) == a + b + Bit(c)
    ensures SumFlags(a, b, c, 32).of <==>
      Overflows(TwosComplement(a, WORD) + TwosComplement(b, WORD) + Bit(c), WORD)
  {
    hide Ones;
    MaskIs(a, 32);
    MaskIs(b, 32);
    WrapOnce(a + b + Bit(c), 32);
  }

  lemma LimbDiff(a: Word, b: Word, c: bool)
    ensures Diff(a, b, c, 32) - WORD * Bit(DiffFlags(a, b, c, 32).cf) == a - b - Bit(c)
    ensures DiffFlags(a, b, c, 32).of <==>
      Overflows(TwosComplement(a, WORD) - TwosComplement(b, WORD) - Bit(c), WORD)
  {
    hide Ones;
    MaskIs(a, 32);
    MaskIs(b, 32);
    WrapOnce(a - b - Bit(c), 32);
  }

  /** The chain is exact: the limbs are the sum modulo 2^(32k) and the last carry is its carry. */
  lemma {:induction false} AddChainExact(a: seq<Word>, b: seq<Word>, f: Flags)
    requires |a| == |b|
    ensures var r := AddChain(a, b, f);
      Num(r.0) + Span(|a|) * Bit(r.1.cf) == Num(a) + Num(b) + Bit(f.cf)
  {
    if a != [] {
      hide Sum, SumFlags;
      var g := SumFlags(a[0], b[0], f.cf, 32);
      LimbSum(a[0], b[0], f.cf);
      AddChainExact(a[1..], b[1..], g);
      var rest := AddChain(a[1..], b[1..], g);
      assert ([Sum(a[0], b[0], f.cf, 32)] + rest.0)[1..] == rest.0;
      SpanBit(|a|, rest.1.cf);
    }
  }

  lemma SpanBit(k: nat, c: bool)
    requires k > 0
    ensures Span(k) * Bit(c) == WORD * (Span(k - 1) * Bit(c))
  {}

  lemma {:induction false} SubChainExact(a: seq<Word>, b: seq<Word>, f: Flags)
    requires |a| == |b|
    ensures var r := SubChain(a, b, f);
      Num(r.0) - Span(|a|) * Bit(r.1.cf) == Num(a) - Num(b) - Bit(f.cf)
  {
    if a != [] {
      hide Diff, DiffFlags;
      var g := DiffFlags(a[0], b[0], f.cf, 32);
      LimbDiff(a[0], b[0], f.cf);
      SubChainExact(a[1..], b[1..], g);
      var rest := SubChain(a[1..], b[1..], g);
      assert ([Diff(a[0], b[0], f.cf, 32)] + rest.0)[1..] == rest.0;
      SpanBit(|a|, rest.1.cf);
    }
  }

  // ----- overflow of the whole number is overflow of the last limb

  lemma NumBound(a: seq<Word>)
    ensures Num(a) < Span(|a|)
  {
    if a != [] {
      NumBound(a[1..]);
    }
  }

  lemma SignedStep(a: seq<Word>)
    requires |a| > 1
    ensures SignedNum(a) == a[0] + WORD * SignedNum(a[1..])
  {
    NumBound(a[1..]);
  }

  lemma OverflowStep(x: int, low: int, k: nat)
    requires k > 0 && 0 <= low < WORD
    ensures Overflows(low + WORD * x, Span(k + 1)) <==> Overflows(x, Span(k))
  {
    assert Span(k + 1) == WORD * Span(k);
    SpanEven(k);
  }

  lemma SpanEven(k: nat)
    requires k > 0
    ensures Span(k) % 2 == 0
  {
    assert Span(k) == 2 * (0x8000_0000 * Span(k - 1));
  }

  lemma {:induction false} AddChainOverflow(a: seq<Word>, b: seq<Word>, f: Flags)
    requires |a| == |b| > 0
    ensures AddChain(a, b, f).1.of <==> Overflows(SignedNum(a) + SignedNum(b) + Bit(f.cf), Span(|a|))
  {
    hide Sum, SumFlags, Overflows;
    var g := SumFlags(a[0], b[0], f.cf, 32);
    LimbSum(a[0], b[0], f.cf);
    if |a| == 1 {
      LastLimb(a);
      LastLimb(b);
      assert AddChain(a[1..], b[1..], g) == ([], g);
    } else {
      AddChainOverflow(a[1..], b[1..], g);
      SignedStep(a);
      SignedStep(b);
      var x := SignedNum(a[1..]) + SignedNum(b[1..]) + Bit(g.cf);
      OverflowStep(x, Sum(a[0], b[0], f.cf, 32), |a| - 1);
    }
  }

  lemma LastLimb(a: seq<Word>)
    requires |a| == 1
    ensures SignedNum(a) == TwosComplement(a[0], WORD) && Span(1) == WORD
  {
    assert Num(a[1..]) == 0;
    assert Span(0) == 1;
  }

  lemma {:induction false} SubChainOverflow(a: seq<Word>, b: seq<Word>, f: Flags)
    requires |a| == |b| > 0
    ensures SubChain(a, b, f).1.of <==> Overflows(SignedNum(a) - SignedNum(b) - Bit(f.cf), Span(|a|))
  {
    hide Diff, DiffFlags, Overflows;
    var g := DiffFlags(a[0], b[0], f.cf, 32);
    LimbDiff(a[0], b[0], f.cf);
    if |a| == 1 {
      LastLimb(a);
      LastLimb(b);
      assert SubChain(a[1..], b[1..], g) == ([], g);
    } else {
      SubChainOverflow(a[1..], b[1..], g);
      SignedStep(a);
      SignedStep(b);
      var x := SignedNum(a[1..]) - SignedNum(b[1..]) - Bit(g.cf);
      OverflowStep(x, Diff(a[0], b[0], f.cf, 32), |a| - 1);
    }
  }

  /** Subtracting what was added gives the limbs back, whatever the length. */
  lemma SubUndoesAdd(a: seq<Word>, b: seq<Word>, f: Flags, g: Flags)
    requires |a| == |b| && !f.cf && !g.cf
    ensures SubChain(AddChain(a, b, f).0, b, g).0 == a
  {
    var s := AddChain(a, b, f);
    var d := SubChain(s.0, b, g);
    AddChainExact(a, b, f);
    SubChainExact(s.0, b, g);
    NumBound(a);
    NumBound(d.0);
    hide *;
    SameResidue(Num(d.0), Num(a), Span(|a|), s.1.cf, d.1.cf);
    SameNumber(d.0, a);
  }

  lemma SameResidue(x: nat, y: nat, span: nat, c: bool, d: bool)
    requires x < span && y < span && x - span * Bit(d) == y - span * Bit(c)
    ensures x == y
  {
    assert span * 0 == 0 && span * 1 == span;
  }

  lemma {:induction false} SameNumber(a: seq<Word>, b: seq<Word>)
    requires |a| == |b| && Num(a) == Num(b)
    ensures a == b
  {
    if a != [] {
      assert a[0] == b[0];
      SameNumber(a[1..], b[1..]);
      assert a == [a[0]] + a[1..] && b == [b[0]] + b[1..];
    }
  }

  /** The machine's own chain: alu_add on the first limbs, alu_adc on the rest. */
  method AddLimbs(cpu: Cpu, a: seq<Word>, b: seq<Word>) returns (r: seq<Word>)
    requires |a| == |b| > 0
    modifies cpu
    ensures (r, cpu.f) == AddChain(a, b, old(cpu.f).(cf := false))
    ensures Num(r) + Span(|a|) * Bit(cpu.f.cf) == Num(a) + Num(b)
    ensures cpu.f.of <==> Overflows(SignedNum(a) + SignedNum(b), Span(|a|))
  {
    hide Sum, SumFlags;
    ghost var f := cpu.f.(cf := false);
    AddChainExact(a, b, f);
    AddChainOverflow(a, b, f);
    var first := cpu.AluAdd(b[0], a[0], 32);
    var rest := AdcLimbs(cpu, a[1..], b[1..]);
    r := [first] + rest;
  }

  method AdcLimbs(cpu: Cpu, a: seq<Word>, b: seq<Word>) returns (r: seq<Word>)
    requires |a| == |b|
    modifies cpu
    ensures (r, cpu.f) == AddChain(a, b, old(cpu.f))
  {
    hide Sum, SumFlags;
    if a == [] {
      r := [];
    } else {
      var first := cpu.AluAdc(b[0], a[0], 32);
      var rest := AdcLimbs(cpu, a[1..], b[1..]);
      r := [first] + rest;
    }
  }

  /** alu_sub on the first limbs, alu_sbb on the rest. */
  method SubLimbs(cpu: Cpu, a: seq<Word>, b: seq<Word>) returns (r: seq<Word>)
    requires |a| == |b| > 0
    modifies cpu
    ensures (r, cpu.f) == SubChain(a, b, old(cpu.f).(cf := false))
    ensures Num(r) - Span(|a|) * Bit(cpu.f.cf) == Num(a) - Num(b)
    ensures cpu.f.of <==> Overflows(SignedNum(a) - SignedNum(b), Span(|a|))
  {
    hide Diff, DiffFlags;
    ghost var f := cpu.f.(cf := false);
    SubChainExact(a, b, f);
    SubChainOverflow(a, b, f);
    var first := cpu.AluSub(b[0], a[0], 32);
    var rest := SbbLimbs(cpu, a[1..], b[1..]);
    r := [first] + rest;
  }

  method SbbLimbs(cpu: Cpu, a: seq<Word>, b: seq<Word>) returns (r: seq<Word>)
    requires |a| == |b|
    modifies cpu
    ensures (r, cpu.f) == SubChain(a, b, old(cpu.f))
  {
    hide Diff, DiffFlags;
    if a == [] {
      r := [];
    } else {
      var first := cpu.AluSbb(b[0], a[0], 32);
      var rest := SbbLimbs(cpu, a[1..], b[1..]);
      r := [first] + rest;
    }
  }
}
