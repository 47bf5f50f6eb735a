/** The interrupt controller handshake: nemu/src/device/i8259_pic.c and do_intr in
    nemu/src/cpu/cpu.c, as interleaved micro-steps of any number of device threads and the CPU. */
module Pic {
  import opened Words

  const IRQ_BASE := 32
  const NO_INTR := 255

  // Where a device thread stands inside i8259_raise_intr.
  datatype RaiserPc =
    | Idle
    | Waiting(irq: Byte)   // before the lock
    | Locked(irq: Byte)    // holds the lock, nothing written yet
    | Stored(irq: Byte)    // the number is decided
    | Signalled(irq: Byte) // cpu.intr is set, lock still held

  // Where the CPU stands inside do_intr and i8259_ack_intr.
  datatype CpuPc =
    | Running
    | Checked              // saw cpu.intr with interrupts enabled
    | Queried(no: Byte)    // has the number, the assertion held
    | AckLocked(no: Byte)
    | AckCleared(no: Byte) // the number is reset, cpu.intr not yet
    | AckReset(no: Byte)
    | Failed               // the assertion on the number failed

  datatype Holder = Free | Raiser(t: nat) | Cpu

  /** The two shared variables, the mutex and the program counters; stored and completed record,
      since the last acknowledgement, the irqs whose store step and whose whole call are done, and
      window those stored since the last query. */
  datatype State = State(
    intrNo: Byte, intr: bool, lock: Holder, raisers: map<nat, RaiserPc>, cpu: CpuPc,
    stored: set<int>, completed: set<int>, window: set<int>, delivered: seq<Byte>)

  datatype Step =
    | Call(t: nat, irq: Byte) | Acquire(t: nat) | Store(t: nat) | Signal(t: nat) | Release(t: nat)
    | Check | Query | AckAcquire | AckClear | AckSignal | AckRelease

  const INIT := State(NO_INTR, false, Free, map[], Running, {}, {}, {}, [])

  function Pc(s: State, t: nat): RaiserPc { if t in s.raisers then s.raisers[t] else Idle }

  predicate Enabled(s: State, step: Step) {
    match step
    case Call(t, _) => Pc(s, t).Idle?
    case Acquire(t) => Pc(s, t).Waiting? && s.lock.Free?
    case Store(t) => Pc(s, t).Locked?
    case Signal(t) => Pc(s, t).Stored?
    case Release(t) => Pc(s, t).Signalled?
    case Check => s.cpu.Running? && s.intr
    case Query => s.cpu.Checked?
    case AckAcquire => s.cpu.Queried? && s.lock.Free?
    case AckClear => s.cpu.AckLocked?
    case AckSignal => s.cpu.AckCleared?
    case AckRelease => s.cpu.AckReset?
  }

  // The number a raise leaves: the higher priority wins, in eight-bit arithmetic.
  function Decide(no: Byte, irq: Byte): Byte {
    if no == NO_INTR || irq > no - IRQ_BASE then (irq + IRQ_BASE) % 256 else no
  }

  // A raise that is the first or of a higher priority leaves its own number, any other the old one.
  lemma Decided(no: Byte, irq: Byte)
    ensures no == 255 || irq + 32 > no ==> (Decide(no, irq) - irq) % 256 == 32
    ensures no != 255 && irq + 32 <= no ==> Decide(no, irq) == no
  {
    var n := irq + IRQ_BASE;
    assert n == 256 * (n / 256) + n % 256;
  }

  function Apply(s: State, step: Step): State
    requires Enabled(s, step)
  {
    match step
    case Call(t, irq) => s.(raisers := s.raisers[t := Waiting(irq)])
    case Acquire(t) => s.(lock := Raiser(t), raisers := s.raisers[t := Locked(Pc(s, t).irq)])
    case Store(t) =>
      var irq := Pc(s, t).irq;
      s.(intrNo := Decide(s.intrNo, irq), raisers := s.raisers[t := Stored(irq)],
         stored := s.stored + {irq}, window := s.window + {irq})
    case Signal(t) => s.(intr := true, raisers := s.raisers[t := Signalled(Pc(s, t).irq)])
    case Release(t) => s.(lock := Free, raisers := s.raisers[t := Idle], completed := s.completed + {Pc(s, t).irq})
    case Check => s.(cpu := Checked)
    case Query => s.(cpu := if s.intrNo == NO_INTR then Failed else Queried(s.intrNo), window := {})
    case AckAcquire => s.(lock := Cpu, cpu := AckLocked(s.cpu.no))
    case AckClear => s.(intrNo := NO_INTR, cpu := AckCleared(s.cpu.no), stored := {}, completed := {}, window := {})
    case AckSignal => s.(intr := false, cpu := AckReset(s.cpu.no))
    case AckRelease => s.(lock := Free, cpu := Running, delivered := s.delivered + [s.cpu.no])
  }

  /** Runs of the program in which devices raise only irqs from the given set. */
  ghost predicate IsRun(steps: seq<Step>, irqs: set<int>, s: State)
    decreases |steps|
  {
    if steps == [] then s == INIT
    else
      var last := steps[|steps| - 1];
      exists p: State :: IsRun(steps[..|steps| - 1], irqs, p) && Takes(p, last, irqs, s)
  }

  ghost predicate Takes(p: State, step: Step, irqs: set<int>, s: State) {
    Enabled(p, step) && (step.Call? ==> step.irq in irqs) && s == Apply(p, step)
  }

  // ----- invariants

  predicate InSection(pc: RaiserPc) { pc.Locked? || pc.Stored? || pc.Signalled? }

  ghost predicate MutexHeld(s: State) {
    && (forall t: nat :: InSection(Pc(s, t)) <==> s.lock == Raiser(t))
    && ((s.cpu.AckLocked? || s.cpu.AckCleared? || s.cpu.AckReset?) <==> s.lock == Cpu)
  }

  ghost predicate OnlyIrqs(s: State, irqs: set<int>) {
    forall t: nat :: Pc(s, t) != Idle ==> Pc(s, t).irq in irqs
  }

  /** A signalled CPU always finds a number. */
  ghost predicate NumberThere(s: State) {
    && (forall t: nat :: Pc(s, t).Stored? || Pc(s, t).Signalled? ==> s.intrNo != NO_INTR)
    && (s.intr && !s.cpu.AckCleared? ==> s.intrNo != NO_INTR)
    && (s.cpu.Checked? || s.cpu.Queried? || s.cpu.AckLocked? ==> s.intr && s.intrNo != NO_INTR)
    && !s.cpu.Failed?
  }

  lemma StepKeepsMutex(s: State, step: Step)
    requires MutexHeld(s) && Enabled(s, step)
    ensures MutexHeld(Apply(s, step))
  {
    var n := Apply(s, step);
    forall t: nat
      ensures InSection(Pc(n, t)) <==> n.lock == Raiser(t)
    {
      assert InSection(Pc(s, t)) <==> s.lock == Raiser(t);
    }
  }

  lemma StepKeepsNumber(s: State, step: Step, irqs: set<int>)
    requires MutexHeld(s) && OnlyIrqs(s, irqs) && NumberThere(s) && 223 !in irqs
    requires Enabled(s, step) && (step.Call? ==> step.irq in irqs)
    ensures OnlyIrqs(Apply(s, step), irqs) && NumberThere(Apply(s, step))
  {
    var n := Apply(s, step);
    forall t: nat
      ensures Pc(n, t) != Idle ==> Pc(n, t).irq in irqs
      ensures Pc(n, t).Stored? || Pc(n, t).Signalled? ==> n.intrNo != NO_INTR
    {
      assert InSection(Pc(s, t)) <==> s.lock == Raiser(t);
    }
  }

  lemma {:induction false} RunKeepsNumber(steps: seq<Step>, irqs: set<int>, s: State)
    requires IsRun(steps, irqs, s) && 223 !in irqs
    ensures MutexHeld(s) && OnlyIrqs(s, irqs) && NumberThere(s)
    decreases |steps|
  {
    if steps != [] {
      var last := steps[|steps| - 1];
      var p :| IsRun(steps[..|steps| - 1], irqs, p) && Takes(p, last, irqs, s);
      RunKeepsNumber(steps[..|steps| - 1], irqs, p);
      StepKeepsMutex(p, last);
      StepKeepsNumber(p, last, irqs);
    }
  }

  ghost predicate CanFail(irqs: set<int>) {
    exists steps: seq<Step>, s: State :: IsRun(steps, irqs, s) && s.cpu.Failed?
  }

  lemma StartRun(irqs: set<int>)
    ensures IsRun([], irqs, INIT)
  {}

  lemma Extend(steps: seq<Step>, p: State, step: Step, irqs: set<int>)
    requires IsRun(steps, irqs, p) && Enabled(p, step) && (step.Call? ==> step.irq in irqs)
    ensures IsRun(steps + [step], irqs, Apply(p, step))
  {
    var longer := steps + [step];
    assert longer[..|longer| - 1] == steps && longer[|longer| - 1] == step;
    assert Takes(p, step, irqs, Apply(p, step));
  }

  // One thread's whole call, run without interruption.
  function RaiseSteps(t: nat, irq: Byte): seq<Step> { [Call(t, irq), Acquire(t), Store(t), Signal(t), Release(t)] }

  lemma RaiseRuns(steps: seq<Step>, p: State, t: nat, irq: Byte, irqs: set<int>) returns (all: seq<Step>, s: State)
    requires IsRun(steps, irqs, p) && Pc(p, t) == Idle && p.lock.Free? && irq in irqs
    ensures IsRun(all, irqs, s) && all == steps + RaiseSteps(t, irq)
    ensures s == p.(intrNo := Decide(p.intrNo, irq), intr := true, raisers := p.raisers[t := Idle],
                    stored := p.stored + {irq}, completed := p.completed + {irq}, window := p.window + {irq})
  {
    hide IsRun;
    Extend(steps, p, Call(t, irq), irqs);
    var s1 := Apply(p, Call(t, irq));
    var r1 := steps + [Call(t, irq)];
    Extend(r1, s1, Acquire(t), irqs);
    var s2 := Apply(s1, Acquire(t));
    var r2 := r1 + [Acquire(t)];
    Extend(r2, s2, Store(t), irqs);
    var s3 := Apply(s2, Store(t));
    var r3 := r2 + [Store(t)];
    Extend(r3, s3, Signal(t), irqs);
    var s4 := Apply(s3, Signal(t));
    var r4 := r3 + [Signal(t)];
    Extend(r4, s4, Release(t), irqs);
    s := Apply(s4, Release(t));
    all := r4 + [Release(t)];
    assert all == steps + RaiseSteps(t, irq);
    assert s.raisers == p.raisers[t := Idle];
  }

  /** In every interleaving of any number of threads the assertion holds, unless some device can
      raise irq 223: its vector is the number that means no interrupt. */
  lemma AssertionFailsIff(irqs: set<int>)
    ensures CanFail(irqs) <==> 223 in irqs
  {
    if 223 !in irqs {
      forall steps: seq<Step>, s: State | IsRun(steps, irqs, s)
        ensures !s.cpu.Failed?
      {
        RunKeepsNumber(steps, irqs, s);
      }
    } else {
      var steps, s := RaiseRuns([], INIT, 0, 223, irqs);
      var t := Apply(s, Check);
      Extend(steps, s, Check, irqs);
      Extend(steps + [Check], t, Query, irqs);
      assert Apply(t, Query).cpu.Failed?;
    }
  }

  // ----- priority

  /** The number is that of the highest irq stored since the last acknowledgement; a completed
      raise stays signalled until the CPU acknowledges. */
  ghost predicate HighestWins(s: State) {
    && s.completed <= s.stored
    && (forall i :: i in s.stored ==> 0 <= i < 223 && i + IRQ_BASE <= s.intrNo)
    && (s.stored == {} <==> s.intrNo == NO_INTR)
    && (s.stored != {} ==> s.intrNo - IRQ_BASE in s.stored)
    && (forall t: nat :: Pc(s, t).Stored? || Pc(s, t).Signalled? ==> Pc(s, t).irq in s.stored)
    && (forall t: nat :: Pc(s, t).Signalled? ==> s.intr)
    && (s.completed != {} ==> s.intr)
    && (s.cpu.AckCleared? || s.cpu.AckReset? ==> s.stored == {})
  }

  lemma StepKeepsPriority(s: State, step: Step, irqs: set<int>)
    requires MutexHeld(s) && OnlyIrqs(s, irqs) && HighestWins(s) && forall i :: i in irqs ==> 0 <= i < 223
    requires Enabled(s, step) && (step.Call? ==> step.irq in irqs)
    ensures HighestWins(Apply(s, step))
  {
    var n := Apply(s, step);
    forall t: nat
      ensures Pc(n, t).Stored? || Pc(n, t).Signalled? ==> Pc(n, t).irq in n.stored
      ensures Pc(n, t).Signalled? ==> n.intr
    {
      assert InSection(Pc(s, t)) <==> s.lock == Raiser(t);
    }
    if step.Store? {
      assert Pc(s, step.t).irq in irqs;
      assert Pc(s, step.t).irq in n.stored;
    }
    if step.Release? {
      assert InSection(Pc(s, step.t)) <==> s.lock == Raiser(step.t);
    }
  }

  lemma {:induction false} RunKeepsPriority(steps: seq<Step>, irqs: set<int>, s: State)
    requires IsRun(steps, irqs, s) && forall i :: i in irqs ==> 0 <= i < 223
    ensures HighestWins(s)
    decreases |steps|
  {
    if steps != [] {
      var last := steps[|steps| - 1];
      var p :| IsRun(steps[..|steps| - 1], irqs, p) && Takes(p, last, irqs, s);
      RunKeepsPriority(steps[..|steps| - 1], irqs, p);
      RunKeepsNumber(steps[..|steps| - 1], irqs, p);
      StepKeepsPriority(p, last, irqs);
    }
  }

  /** What the query returns in any run: a raised irq, at least as high as every raise completed
      (indeed stored) since the previous acknowledgement. */
  lemma QueryReturnsHighest(steps: seq<Step>, irqs: set<int>, s: State)
    requires IsRun(steps, irqs, s) && Enabled(s, Query) && forall i :: i in irqs ==> 0 <= i < 223
    ensures var n := Apply(s, Query);
      && n.cpu.Queried? && n.cpu.no - IRQ_BASE in s.stored
      && (forall i :: i in s.stored ==> i + IRQ_BASE <= n.cpu.no)
      && (forall i :: i in s.completed ==> i + IRQ_BASE <= n.cpu.no)
  {
    RunKeepsNumber(steps, irqs, s);
    RunKeepsPriority(steps, irqs, s);
  }

  /** No completed raise is forgotten before an acknowledgement: the CPU is still signalled, with a
      number at least as high. */
  lemma CompletedStaysPending(steps: seq<Step>, irqs: set<int>, s: State, i: int)
    requires IsRun(steps, irqs, s) && i in s.completed && forall i :: i in irqs ==> 0 <= i < 223
    ensures s.intr && s.intrNo != NO_INTR && i + IRQ_BASE <= s.intrNo
  {
    RunKeepsPriority(steps, irqs, s);
  }

  // ----- what an acknowledgement erases

  /** Between the query and the acknowledgement: the delivered number is a stored irq, and every
      stored irq above it came after the query. */
  ghost predicate WindowKnown(s: State) {
    && s.window <= s.stored
    && (s.cpu.Queried? || s.cpu.AckLocked? ==>
          && s.cpu.no - IRQ_BASE in s.stored
          && forall i :: i in s.stored && i !in s.window ==> i + IRQ_BASE <= s.cpu.no)
  }

  lemma StepKeepsWindow(s: State, step: Step)
    requires WindowKnown(s) && HighestWins(s) && NumberThere(s) && Enabled(s, step)
    ensures WindowKnown(Apply(s, step))
  {}

  lemma {:induction false} RunKeepsWindow(steps: seq<Step>, irqs: set<int>, s: State)
    requires IsRun(steps, irqs, s) && forall i :: i in irqs ==> 0 <= i < 223
    ensures WindowKnown(s)
    decreases |steps|
  {
    if steps != [] {
      var last := steps[|steps| - 1];
      var p :| IsRun(steps[..|steps| - 1], irqs, p) && Takes(p, last, irqs, s);
      RunKeepsWindow(steps[..|steps| - 1], irqs, p);
      RunKeepsNumber(steps[..|steps| - 1], irqs, p);
      RunKeepsPriority(steps[..|steps| - 1], irqs, p);
      StepKeepsWindow(p, last);
    }
  }

  // The irqs stored since the last acknowledgement that are left, once the number is reset, neither
  // as the number on its way to the CPU nor as the pending one.
  ghost function Erased(s: State): set<int>
    requires Enabled(s, AckClear)
  {
    var n := Apply(s, AckClear);
    set i | i in s.stored && i + IRQ_BASE != n.cpu.no && i + IRQ_BASE != n.intrNo
  }

  /** In every run an acknowledgement loses exactly the stored irqs other than the delivered one: none
      if and only if no other was stored since the one before. Those above the delivered one are
      lost if and only if they were stored after the query. */
  lemma AckErases(steps: seq<Step>, irqs: set<int>, s: State)
    requires IsRun(steps, irqs, s) && Enabled(s, AckClear) && forall i :: i in irqs ==> 0 <= i < 223
    ensures s.cpu.no - IRQ_BASE in s.stored
    ensures Erased(s) == s.stored - {s.cpu.no - IRQ_BASE}
    ensures Erased(s) == {} <==> forall i :: i in s.stored ==> i + IRQ_BASE == s.cpu.no
    ensures forall i :: i + IRQ_BASE > s.cpu.no ==> (i in Erased(s) <==> i in s.window)
  {
    RunKeepsWindow(steps, irqs, s);
    RunKeepsNumber(steps, irqs, s);
    RunKeepsPriority(steps, irqs, s);
    assert forall i :: i in s.stored && i + IRQ_BASE != s.cpu.no ==> i in Erased(s);
  }

  /** No raise in the window is needed: irq 0 completes after irq 1 and before the query, and the
      acknowledgement of irq 1 erases it. */
  lemma LowerRaiseErased() returns (steps: seq<Step>, s: State)
    ensures IsRun(steps, {0, 1}, s)
    ensures RaiseSteps(0, 1) + RaiseSteps(1, 0) + [Check, Query] <= steps
    ensures s.cpu.Running? && s.delivered == [33] && !s.intr && s.intrNo == NO_INTR && s.completed == {}
    ensures Pc(s, 0).Idle? && Pc(s, 1).Idle?
  {
    hide IsRun;
    var irqs := {0, 1};
    StartRun(irqs);
    var r0, s0 := RaiseRuns([], INIT, 0, 1, irqs);
    var r1, s1 := RaiseRuns(r0, s0, 1, 0, irqs);
    Extend(r1, s1, Check, irqs);
    var s2 := Apply(s1, Check);
    Extend(r1 + [Check], s2, Query, irqs);
    var s3 := Apply(s2, Query);
    var r3 := r1 + [Check] + [Query];
    assert r3 == RaiseSteps(0, 1) + RaiseSteps(1, 0) + [Check, Query];
    steps, s := Acknowledge(r3, s3, irqs);
  }

  /** The window of the unlocked query: a raise of irq 1 that completes after the query and before
      the acknowledgement is erased by it. Both calls returned, only vector 32 is delivered, and
      nothing is pending. */
  lemma RaiseLostInWindow() returns (steps: seq<Step>, s: State)
    ensures IsRun(steps, {0, 1}, s)
    ensures RaiseSteps(0, 0) + [Check, Query] + RaiseSteps(1, 1) <= steps
    ensures s.cpu.Running? && s.delivered == [32] && !s.intr && s.intrNo == NO_INTR && s.completed == {}
    ensures Pc(s, 0).Idle? && Pc(s, 1).Idle?
  {
    hide IsRun;
    var irqs := {0, 1};
    StartRun(irqs);
    var r0, s0 := RaiseRuns([], INIT, 0, 0, irqs);
    Extend(r0, s0, Check, irqs);
    var s1 := Apply(s0, Check);
    Extend(r0 + [Check], s1, Query, irqs);
    var s2 := Apply(s1, Query);
    var r2 := r0 + [Check] + [Query];
    assert r2 == RaiseSteps(0, 0) + [Check, Query];
    var r3, s3 := RaiseRuns(r2, s2, 1, 1, irqs);
    steps, s := Acknowledge(r3, s3, irqs);
  }

  // The CPU's side from the query to the delivery, run without interruption.
  lemma Acknowledge(steps: seq<Step>, p: State, irqs: set<int>) returns (all: seq<Step>, s: State)
    requires IsRun(steps, irqs, p) && p.cpu.Queried? && p.lock.Free?
    ensures IsRun(all, irqs, s) && steps <= all
    ensures s == p.(intrNo := NO_INTR, intr := false, cpu := Running, stored := {}, completed := {}, window := {},
                    delivered := p.delivered + [p.cpu.no])
  {
    hide IsRun;
    Extend(steps, p, AckAcquire, irqs);
    var s1 := Apply(p, AckAcquire);
    var r1 := steps + [AckAcquire];
    Extend(r1, s1, AckClear, irqs);
    var s2 := Apply(s1, AckClear);
    var r2 := r1 + [AckClear];
    Extend(r2, s2, AckSignal, irqs);
    var s3 := Apply(s2, AckSignal);
    var r3 := r2 + [AckSignal];
    Extend(r3, s3, AckRelease, irqs);
    s := Apply(s3, AckRelease);
    all := r3 + [AckRelease];
  }

  // ----- the calls as the source writes them, run without interruption

  // s becomes n by these steps, nothing in between.
  ghost predicate Steps(s: State, steps: seq<Step>, n: State)
    decreases |steps|
  {
    if steps == [] then n == s
    else Enabled(s, steps[0]) && Steps(Apply(s, steps[0]), steps[1..], n)
  }

  const ACK_STEPS := [AckAcquire, AckClear, AckSignal, AckRelease]

  lemma {:induction false} StepsSnoc(s: State, steps: seq<Step>, m: State, last: Step)
    requires Steps(s, steps, m) && Enabled(m, last)
    ensures Steps(s, steps + [last], Apply(m, last))
    decreases |steps|
  {
    var longer := steps + [last];
    if steps == [] {
      assert longer[1..] == [];
    } else {
      StepsSnoc(Apply(s, steps[0]), steps[1..], m, last);
      assert longer[1..] == steps[1..] + [last];
    }
  }

  class Controller {
    var intrNo: Byte
    var intr: bool
    ghost var st: State

    /** The two variables are those of the state machine. */
    ghost predicate Shows()
      reads this
    {
      intrNo == st.intrNo && intr == st.intr
    }

    constructor ()
      ensures Shows() && st == INIT
    {
      intrNo, intr, st := NO_INTR, false, INIT;
    }

    // The machine takes one more of its steps.
    ghost method Step(from: State, done: seq<Step>, step: Step)
      requires Steps(from, done, st) && Enabled(st, step)
      modifies this`st
      ensures st == Apply(old(st), step) && Steps(from, done + [step], st)
    {
      StepsSnoc(from, done, st, step);
      st := Apply(st, step);
    }

    /** The call goes through RaiseSteps: at its end both variables are what those steps leave. */
    method RaiseIntr(ghost t: nat, irq: Byte)
      requires Shows() && Pc(st, t) == Idle && st.lock.Free?
      modifies this
      ensures Shows() && Steps(old(st), RaiseSteps(t, irq), st)
      ensures intrNo == Decide(old(intrNo), irq) && intr && st.lock.Free? && Pc(st, t) == Idle
    {
      ghost var from := st;
      Step(from, [], Call(t, irq));
      Step(from, [Call(t, irq)], Acquire(t));
      if intrNo == NO_INTR || (intrNo != NO_INTR && irq > intrNo - IRQ_BASE) {
        intrNo := (irq + IRQ_BASE) % 256;
      }
      Step(from, [Call(t, irq)] + [Acquire(t)], Store(t));
      intr := true;
      Step(from, [Call(t, irq)] + [Acquire(t)] + [Store(t)], Signal(t));
      Step(from, [Call(t, irq)] + [Acquire(t)] + [Store(t)] + [Signal(t)], Release(t));
      assert [Call(t, irq)] + [Acquire(t)] + [Store(t)] + [Signal(t)] + [Release(t)] == RaiseSteps(t, irq);
    }

    /** The call goes through ACK_STEPS. */
    method AckIntr(ghost from: State, ghost done: seq<Step>)
      requires Shows() && st.cpu.Queried? && st.lock.Free? && Steps(from, done, st)
      modifies this
      ensures Shows() && Steps(from, done + ACK_STEPS, st)
      ensures st == old(st).(intrNo := NO_INTR, intr := false, cpu := Running, stored := {}, completed := {},
                             window := {}, delivered := old(st).delivered + [old(st).cpu.no])
    {
      Step(from, done, AckAcquire);
      intrNo := NO_INTR;
      Step(from, done + [AckAcquire], AckClear);
      intr := false;
      Step(from, done + [AckAcquire] + [AckClear], AckSignal);
      Step(from, done + [AckAcquire] + [AckClear] + [AckSignal], AckRelease);
      assert done + [AckAcquire] + [AckClear] + [AckSignal] + [AckRelease] == done + ACK_STEPS;
    }

    /** The CPU's turn, in any state that a run can reach: nothing, or one number delivered by
        Check, Query and ACK_STEPS. */
    method DoIntr(interruptFlag: bool) returns (delivered: seq<Byte>)
      requires Shows() && NumberThere(st) && st.cpu.Running? && st.lock.Free?
      modifies this
      ensures Shows() && st.delivered == old(st).delivered + delivered
      ensures delivered == if old(intr) && interruptFlag then [old(intrNo)] else []
      ensures delivered != [] ==> intrNo == NO_INTR && !intr && Steps(old(st), [Check, Query] + ACK_STEPS, st)
      ensures delivered == [] ==> st == old(st)
    {
      delivered := [];
      if intr && interruptFlag {
        ghost var from := st;
        Step(from, [], Check);
        var no := intrNo;
        Step(from, [Check], Query);
        assert no != NO_INTR;
        assert [Check] + [Query] == [Check, Query];
        AckIntr(from, [Check, Query]);
        delivered := [no];
      }
    }
  }

  /** Any burst of raises from an idle controller leaves the highest of them, so the number is there
      and do_intr delivers it. */
  lemma {:induction false} BurstKeepsHighest(irqs: seq<Byte>)
    requires irqs != [] && forall k :: 0 <= k < |irqs| ==> irqs[k] < 223
    ensures Burst(irqs) != NO_INTR && Burst(irqs) - IRQ_BASE in irqs
    ensures forall k :: 0 <= k < |irqs| ==> irqs[k] + IRQ_BASE <= Burst(irqs)
    decreases |irqs|
  {
    var n := |irqs| - 1;
    if n > 0 {
      BurstKeepsHighest(irqs[..n]);
      assert forall k :: 0 <= k < n ==> irqs[k] == irqs[..n][k];
    }
    assert irqs[n] in irqs;
  }

  function Burst(irqs: seq<Byte>): Byte
    decreases |irqs|
  {
    if irqs == [] then NO_INTR else Decide(Burst(irqs[..|irqs| - 1]), irqs[|irqs| - 1])
  }
}
