/** The monitor's breakpoint pool and the log of bytes it patches into memory:
    nemu/src/monitor/breakpoint.c. */
module Breakpoints {
  import opened Linklist
  import opened Words

  const NR_BP := 32
  const INT3: Byte := 0xf1

  datatype Kind = Breakpoint | Watchpoint

  datatype BP = BP(no: nat, inUse: bool, enable: bool, kind: Kind, addr: nat, oriByte: Byte, next: int)

  // ----- linked lists through a static pool

  ghost predicate Chain(ls: seq<BP>, p: int, s: seq<nat>)
    decreases |s|
  {
    if s == [] then p == NULL
    else p == s[0] && s[0] < |ls| && Chain(ls, ls[s[0]].next, s[1..])
  }

  lemma {:induction false} ChainFrame(ls: seq<BP>, ks: seq<BP>, p: int, s: seq<nat>)
    requires Chain(ls, p, s) && |ks| == |ls|
    requires forall i :: i in s && i < |ls| ==> ks[i].next == ls[i].next
    ensures Chain(ks, p, s)
    decreases |s|
  {
    if s != [] {
      assert s[0] in s;
      ChainFrame(ls, ks, ls[s[0]].next, s[1..]);
    }
  }

  lemma {:induction false} ChainBound(ls: seq<BP>, p: int, s: seq<nat>)
    requires Chain(ls, p, s)
    ensures forall i :: i in s ==> i < |ls|
    decreases |s|
  {
    if s != [] {
      ChainBound(ls, ls[s[0]].next, s[1..]);
      assert forall i :: i in s ==> i == s[0] || i in s[1..];
    }
  }

  lemma {:induction false} ChainSuffix(ls: seq<BP>, p: int, s: seq<nat>, k: nat)
    requires Chain(ls, p, s) && 0 < k <= |s|
    ensures s[k - 1] < |ls| && Chain(ls, ls[s[k - 1]].next, s[k..])
    decreases |s|
  {
    if k > 1 {
      ChainSuffix(ls, ls[s[0]].next, s[1..], k - 1);
      assert s[1..][k - 1..] == s[k..];
    }
  }

  // Linking around element k leaves it out.
  lemma {:induction false} Unchain(ls: seq<BP>, p: int, s: seq<nat>, k: nat)
    requires Chain(ls, p, s) && Distinct(s) && 0 < k < |s| && s[k - 1] < |ls| && s[k] < |ls|
    ensures var prev := ls[s[k - 1]].(next := ls[s[k]].next);
      Chain(ls[s[k - 1] := prev], p, s[..k] + s[k + 1..])
    decreases |s|
  {
    var ks := ls[s[k - 1] := ls[s[k - 1]].(next := ls[s[k]].next)];
    var rest := s[..k] + s[k + 1..];
    assert rest[1..] == s[1..][..k - 1] + s[1..][k..];
    if k == 1 {
      ChainSuffix(ls, p, s, 2);
      assert rest[1..] == s[2..];
      ChainFrame(ls, ks, ls[s[1]].next, s[2..]);
    } else {
      Unchain(ls, ls[s[0]].next, s[1..], k - 1);
      assert s[1..][k - 2] == s[k - 1] && s[1..][k - 1] == s[k];
    }
  }

  // ----- the patches that the list remembers, newest first

  datatype Patch = Patch(addr: nat, ori: Byte)

  ghost predicate InMemory(mem: seq<Byte>, log: seq<Patch>) { forall p :: p in log ==> p.addr < |mem| }

  // mask_breakpoints on memory: put every remembered byte back, newest first.
  function Mask(mem: seq<Byte>, log: seq<Patch>): (m: seq<Byte>)
    requires InMemory(mem, log)
    ensures |m| == |mem|
    decreases |log|
  {
    if log == [] then mem
    else
      assert log[0] in log;
      Mask(mem[log[0].addr := log[0].ori], log[1..])
  }

  // resume_breakpoints: remember and patch every address again, newest first.
  function Resume(mem: seq<Byte>, addrs: seq<nat>): (r: (seq<Byte>, seq<Patch>))
    requires forall a :: a in addrs ==> a < |mem|
    ensures |r.0| == |mem| && InMemory(mem, r.1) && |r.1| == |addrs|
    ensures forall k :: 0 <= k < |addrs| ==> r.1[k].addr == addrs[k]
    decreases |addrs|
  {
    if addrs == [] then (mem, [])
    else
      assert addrs[0] in addrs && forall a :: a in addrs[1..] ==> a in addrs;
      var rest := Resume(mem[addrs[0] := INT3], addrs[1..]);
      (rest.0, [Patch(addrs[0], mem[addrs[0]])] + rest.1)
  }

  /** Setting a breakpoint can always be undone: masking the longer log undoes the patch first. */
  lemma SetThenMask(mem: seq<Byte>, log: seq<Patch>, addr: nat)
    requires addr < |mem| && InMemory(mem, log)
    ensures InMemory(mem[addr := INT3], [Patch(addr, mem[addr])] + log)
    ensures Mask(mem[addr := INT3], [Patch(addr, mem[addr])] + log) == Mask(mem, log)
  {
    var longer := [Patch(addr, mem[addr])] + log;
    assert longer[1..] == log;
    assert mem[addr := INT3][addr := mem[addr]] == mem;
  }

  function Occurrences(addrs: seq<nat>, x: nat): nat {
    if addrs == [] then 0 else (if addrs[0] == x then 1 else 0) + Occurrences(addrs[1..], x)
  }

  lemma {:induction false} ResumedMemory(mem: seq<Byte>, addrs: seq<nat>, x: nat)
    requires x < |mem| && forall a :: a in addrs ==> a < |mem|
    ensures Resume(mem, addrs).0[x] == if x in addrs then INT3 else mem[x]
    decreases |addrs|
  {
    if addrs != [] {
      assert addrs[0] in addrs && forall a :: a in addrs[1..] ==> a in addrs;
      ResumedMemory(mem[addrs[0] := INT3], addrs[1..], x);
    }
  }

  lemma {:induction false} MaskElsewhere(mem: seq<Byte>, log: seq<Patch>, x: nat)
    requires InMemory(mem, log) && x < |mem| && forall p :: p in log ==> p.addr != x
    ensures Mask(mem, log)[x] == mem[x]
    decreases |log|
  {
    if log != [] {
      assert log[0] in log;
      MaskElsewhere(mem[log[0].addr := log[0].ori], log[1..], x);
    }
  }

  /** Resuming and masking again gives every address its byte back, except that an address listed
      more than once is left holding the trap instruction. */
  lemma {:induction false} ResumeThenMask(mem: seq<Byte>, addrs: seq<nat>, m: seq<Byte>, x: nat)
    requires |m| == |mem| && x < |mem| && forall a :: a in addrs ==> a < |mem|
    requires m[x] == if x in addrs then INT3 else mem[x]
    ensures Mask(m, Resume(mem, addrs).1)[x] == if Occurrences(addrs, x) >= 2 then INT3 else mem[x]
    decreases |addrs|
  {
    if addrs != [] {
      assert addrs[0] in addrs && forall a :: a in addrs[1..] ==> a in addrs;
      var a, rest := addrs[0], addrs[1..];
      var log := Resume(mem, addrs).1;
      assert log[0] == Patch(a, mem[a]) && log[1..] == Resume(mem[a := INT3], rest).1;
      InOccurrences(rest, x);
      if a == x && x !in rest {
        NotLogged(mem[a := INT3], rest, x);
        MaskElsewhere(m[a := mem[a]], log[1..], x);
      } else if a == x {
        MaskLast(mem[a := INT3], rest, m[a := mem[a]], x);
      } else {
        ResumeThenMask(mem[a := INT3], rest, m[a := mem[a]], x);
      }
    }
  }

  lemma InOccurrences(addrs: seq<nat>, x: nat)
    ensures x in addrs <==> Occurrences(addrs, x) >= 1
  {}

  lemma NotLogged(mem: seq<Byte>, addrs: seq<nat>, x: nat)
    requires x !in addrs && forall a :: a in addrs ==> a < |mem|
    ensures forall p :: p in Resume(mem, addrs).1 ==> p.addr != x
  {
    var log := Resume(mem, addrs).1;
    forall p | p in log
      ensures p.addr != x
    {
      var k :| 0 <= k < |log| && log[k] == p;
      assert log[k].addr == addrs[k];
    }
  }

  // When memory already traps at x, every remembered byte for x is the trap.
  lemma {:induction false} MaskLast(mem: seq<Byte>, addrs: seq<nat>, m: seq<Byte>, x: nat)
    requires |m| == |mem| && x < |mem| && x in addrs && mem[x] == INT3 && forall a :: a in addrs ==> a < |mem|
    ensures Mask(m, Resume(mem, addrs).1)[x] == INT3
    decreases |addrs|
  {
    assert addrs[0] in addrs && forall a :: a in addrs[1..] ==> a in addrs;
    var a, rest := addrs[0], addrs[1..];
    var log := Resume(mem, addrs).1;
    assert log[0] == Patch(a, mem[a]) && log[1..] == Resume(mem[a := INT3], rest).1;
    if x in rest {
      MaskLast(mem[a := INT3], rest, m[a := mem[a]], x);
    } else {
      NotLogged(mem[a := INT3], rest, x);
      MaskElsewhere(m[a := mem[a]], log[1..], x);
    }
  }

  /** Resume then mask is the identity on memory exactly when no address is listed twice, unless the
      byte there is the trap instruction anyway. */
  lemma ResumeMaskIdentity(mem: seq<Byte>, addrs: seq<nat>)
    requires forall a :: a in addrs ==> a < |mem|
    ensures InMemory(Resume(mem, addrs).0, Resume(mem, addrs).1)
    ensures Mask(Resume(mem, addrs).0, Resume(mem, addrs).1) == mem <==>
      forall x :: 0 <= x < |mem| && Occurrences(addrs, x) >= 2 ==> mem[x] == INT3
  {
    var r := Resume(mem, addrs);
    forall x | 0 <= x < |mem|
      ensures Mask(r.0, r.1)[x] == if Occurrences(addrs, x) >= 2 then INT3 else mem[x]
    {
      ResumedMemory(mem, addrs, x);
      ResumeThenMask(mem, addrs, r.0, x);
    }
  }

  // ----- which entry decides what masking leaves at an address: the oldest for it

  predicate Listed(log: seq<Patch>, x: nat) { exists j :: 0 <= j < |log| && log[j].addr == x }

  function LastByte(log: seq<Patch>, x: nat, b: Byte): Byte {
    if log == [] then b else LastByte(log[1..], x, if log[0].addr == x then log[0].ori else b)
  }

  lemma {:induction false} MaskAt(mem: seq<Byte>, log: seq<Patch>, x: nat)
    requires InMemory(mem, log) && x < |mem|
    ensures Mask(mem, log)[x] == LastByte(log, x, mem[x])
    decreases |log|
  {
    if log != [] {
      MaskTail(mem, log);
      MaskAt(mem[log[0].addr := log[0].ori], log[1..], x);
    }
  }

  lemma {:induction false} LastJoin(a: seq<Patch>, c: seq<Patch>, x: nat, b: Byte)
    ensures LastByte(a + c, x, b) == LastByte(c, x, LastByte(a, x, b))
    decreases |a|
  {
    if a == [] {
      assert a + c == c;
    } else {
      assert (a + c)[1..] == a[1..] + c;
      LastJoin(a[1..], c, x, if a[0].addr == x then a[0].ori else b);
    }
  }

  // Entry j is the last for x: its byte is the one, whatever was there before.
  lemma LastIs(log: seq<Patch>, x: nat, b: Byte, j: nat)
    requires j < |log| && log[j].addr == x && forall i :: j < i < |log| ==> log[i].addr != x
    ensures LastByte(log, x, b) == log[j].ori
  {
    hide LastByte;
    var a, c := log[..j], log[j + 1..];
    assert log == a + ([log[j]] + c);
    LastJoin(a, [log[j]] + c, x, b);
    LastJoin([log[j]], c, x, LastByte(a, x, b));
    LastOne(log[j], LastByte(a, x, b));
    LastNone(c, x, log[j].ori);
  }

  lemma LastOne(p: Patch, b: Byte)
    ensures LastByte([p], p.addr, b) == p.ori
  {
    assert [p][1..] == [];
  }

  lemma {:induction false} LastNone(log: seq<Patch>, x: nat, b: Byte)
    requires forall i :: 0 <= i < |log| ==> log[i].addr != x
    ensures LastByte(log, x, b) == b
    decreases |log|
  {
    if log != [] {
      LastNone(log[1..], x, b);
    }
  }

  lemma {:induction false} LastAmong(log: seq<Patch>, x: nat) returns (j: nat)
    requires Listed(log, x)
    ensures j < |log| && log[j].addr == x && forall i :: j < i < |log| ==> log[i].addr != x
    decreases |log|
  {
    j := |log| - 1;
    if log[j].addr != x {
      var k :| 0 <= k < |log| && log[k].addr == x;
      assert log[..j][k] == log[k];
      j := LastAmong(log[..j], x);
    }
  }

  /** The entry for the address of entry k that is the next newer one. */
  predicate NextNewer(log: seq<Patch>, k: nat, j: int)
    requires k < |log|
  {
    0 <= j < k && log[j].addr == log[k].addr && forall i :: j < i < k ==> log[i].addr != log[k].addr
  }

  /** When taking entry k off the log does no harm: an older entry has the address, or the next newer
      one remembers the same byte, or it is the only one and memory holds its byte already. */
  ghost predicate DeletionHarmless(mem: seq<Byte>, log: seq<Patch>, k: nat)
    requires InMemory(mem, log) && k < |log|
  {
    || (exists j :: k < j < |log| && log[j].addr == log[k].addr)
    || (exists j :: NextNewer(log, k, j) && log[j].ori == log[k].ori)
    || ((forall j :: 0 <= j < |log| && j != k ==> log[j].addr != log[k].addr)
        && log[k] in log && mem[log[k].addr] == log[k].ori)
  }

  // Without entry k: the other addresses keep their deciding entry.
  lemma DeletedElsewhere(log: seq<Patch>, k: nat, x: nat, b: Byte)
    requires k < |log| && (x != log[k].addr || exists j :: k < j < |log| && log[j].addr == x)
    ensures LastByte(log[..k] + log[k + 1..], x, b) == LastByte(log, x, b)
  {
    hide LastByte;
    var a, c := log[..k], log[k + 1..];
    assert log == a + ([log[k]] + c);
    LastJoin(a, [log[k]] + c, x, b);
    LastJoin([log[k]], c, x, LastByte(a, x, b));
    LastJoin(a, c, x, b);
    if x != log[k].addr {
      LastNone([log[k]], x, LastByte(a, x, b));
    } else {
      var j :| k < j < |log| && log[j].addr == x;
      assert c[j - k - 1] == log[j];
      var m := LastAmong(c, x);
      LastIs(c, x, LastByte(a, x, b), m);
      LastIs(c, x, LastByte([log[k]], x, LastByte(a, x, b)), m);
    }
  }

  // At its own address, once no older entry is there, the newer entries decide.
  lemma DeletedHere(log: seq<Patch>, k: nat, b: Byte)
    requires k < |log| && forall j :: k < j < |log| ==> log[j].addr != log[k].addr
    ensures LastByte(log, log[k].addr, b) == log[k].ori
    ensures LastByte(log[..k] + log[k + 1..], log[k].addr, b) == LastByte(log[..k], log[k].addr, b)
    ensures forall j :: NextNewer(log, k, j) ==> LastByte(log[..k], log[k].addr, b) == log[j].ori
    ensures (forall j :: 0 <= j < k ==> log[j].addr != log[k].addr) ==> LastByte(log[..k], log[k].addr, b) == b
  {
    hide LastByte;
    var a, c, x := log[..k], log[k + 1..], log[k].addr;
    LastIs(log, x, b, k);
    LastJoin(a, c, x, b);
    LastNone(c, x, LastByte(a, x, b));
    forall j | NextNewer(log, k, j)
      ensures LastByte(a, x, b) == log[j].ori
    {
      LastIs(a, x, b, j);
    }
    if forall j :: 0 <= j < k ==> log[j].addr != x {
      LastNone(a, x, b);
    }
  }

  lemma NewerOrNone(log: seq<Patch>, k: nat)
    requires k < |log|
    ensures (exists j :: NextNewer(log, k, j)) || forall j :: 0 <= j < k ==> log[j].addr != log[k].addr
  {
    if Listed(log[..k], log[k].addr) {
      var j := LastAmong(log[..k], log[k].addr);
      assert NextNewer(log, k, j);
    } else {
      assert forall j :: 0 <= j < k ==> log[..k][j] == log[j];
    }
  }

  /** Deleting an entry does not put its byte back. The next mask, with the shorter log, restores
      every other address as before, and the deleted one exactly when the deletion was harmless;
      otherwise it leaves there what the newer entries remember, or what memory holds. */
  lemma DeleteLeavesPatch(mem: seq<Byte>, log: seq<Patch>, k: nat)
    requires InMemory(mem, log) && k < |log|
    ensures InMemory(mem, log[..k] + log[k + 1..]) && log[k].addr < |mem|
    ensures forall x :: 0 <= x < |mem| && x != log[k].addr ==>
      Mask(mem, log[..k] + log[k + 1..])[x] == Mask(mem, log)[x]
    ensures var x := log[k].addr; !(exists j :: k < j < |log| && log[j].addr == x) ==>
      Mask(mem, log[..k] + log[k + 1..])[x] == LastByte(log[..k], x, mem[x])
    ensures Mask(mem, log[..k] + log[k + 1..]) == Mask(mem, log) <==> DeletionHarmless(mem, log, k)
  {
    hide Mask, LastByte;
    var less, x := log[..k] + log[k + 1..], log[k].addr;
    assert log[k] in log && forall p :: p in less ==> p in log;
    forall y | 0 <= y < |mem| && y != x
      ensures Mask(mem, less)[y] == Mask(mem, log)[y]
    {
      MaskAt(mem, less, y);
      MaskAt(mem, log, y);
      DeletedElsewhere(log, k, y, mem[y]);
    }
    MaskAt(mem, less, x);
    MaskAt(mem, log, x);
    if exists j :: k < j < |log| && log[j].addr == x {
      DeletedElsewhere(log, k, x, mem[x]);
      assert Mask(mem, less) == Mask(mem, log);
    } else {
      DeletedHere(log, k, mem[x]);
      NewerOrNone(log, k);
      assert Mask(mem, less) == Mask(mem, log) <==> LastByte(log[..k], x, mem[x]) == log[k].ori;
    }
  }

  /** Patching a byte matters to a later mask exactly where the log does not list it. */
  lemma MaskPatched(mem: seq<Byte>, log: seq<Patch>, addr: nat, b: Byte)
    requires InMemory(mem, log) && addr < |mem|
    ensures InMemory(mem[addr := b], log)
    ensures Mask(mem[addr := b], log) == if Listed(log, addr) then Mask(mem, log) else Mask(mem, log)[addr := b]
  {
    hide Mask, LastByte;
    var m := mem[addr := b];
    forall x | 0 <= x < |mem|
      ensures Mask(m, log)[x] == if x == addr && !Listed(log, addr) then b else Mask(mem, log)[x]
    {
      MaskAt(m, log, x);
      MaskAt(mem, log, x);
      if x == addr && Listed(log, addr) {
        var j := LastAmong(log, x);
        LastIs(log, x, mem[x], j);
        LastIs(log, x, b, j);
      } else if x == addr {
        LastNone(log, x, b);
      }
    }
  }

  // ----- a hit puts back one byte, and the next resume remembers the others as traps

  ghost predicate Armed(mem: seq<Byte>, log: seq<Patch>)
    requires InMemory(mem, log)
  {
    forall p :: p in log ==> mem[p.addr] == INT3
  }

  // Entry j is the newest for its address: the one that a hit finds.
  predicate Newest(log: seq<Patch>, j: nat) {
    j < |log| && forall i :: 0 <= i < j ==> log[i].addr != log[j].addr
  }

  lemma {:induction false} OnceOnly(addrs: seq<nat>, i: nat, j: nat)
    requires i < |addrs| && j < |addrs| && i != j && addrs[i] == addrs[j]
    ensures Occurrences(addrs, addrs[i]) >= 2
    decreases |addrs|
  {
    if i > 0 && j > 0 {
      OnceOnly(addrs[1..], i - 1, j - 1);
    } else {
      var k := if i == 0 then j else i;
      assert addrs[1..][k - 1] == addrs[k];
      InOccurrences(addrs[1..], addrs[k]);
    }
  }

  /** A hit at entry j, a resume and a mask, from armed memory: every address gets the byte it had
      before only if it is the hit one, listed once, or held the trap from the start. */
  lemma HitResumeMask(mem: seq<Byte>, log: seq<Patch>, j: nat)
    requires InMemory(mem, log) && Newest(log, j) && Armed(mem, log)
    ensures log[j] in log && InMemory(mem[log[j].addr := log[j].ori], log)
    ensures var m, addrs := mem[log[j].addr := log[j].ori], Addrs(log);
      && (forall a :: a in addrs ==> a < |m|) && InMemory(Resume(m, addrs).0, Resume(m, addrs).1)
      && (Mask(Resume(m, addrs).0, Resume(m, addrs).1) == Mask(mem, log) <==>
          forall x :: 0 <= x < |mem| && Listed(log, x) ==>
            (x == log[j].addr && Occurrences(addrs, x) == 1) || Mask(mem, log)[x] == INT3)
  {
    hide Mask, Resume;
    var hit, addrs := log[j].addr, Addrs(log);
    assert log[j] in log;
    var m := mem[hit := log[j].ori];
    AddrsInMemory(m, log);
    var r := Resume(m, addrs);
    forall x | 0 <= x < |mem|
      ensures Mask(r.0, r.1)[x] == Mask(mem, log)[x] <==>
        (Listed(log, x) ==> (x == hit && Occurrences(addrs, x) == 1) || Mask(mem, log)[x] == INT3)
    {
      ResumedMemory(m, addrs, x);
      ResumeThenMask(m, addrs, r.0, x);
      HitByte(mem, log, j, x);
    }
  }

  lemma HitByte(mem: seq<Byte>, log: seq<Patch>, j: nat, x: nat)
    requires InMemory(mem, log) && Newest(log, j) && Armed(mem, log) && x < |mem| && log[j] in log
    ensures var m := mem[log[j].addr := log[j].ori];
      var left := if Occurrences(Addrs(log), x) >= 2 then INT3 else m[x];
      left == Mask(mem, log)[x] <==>
      (Listed(log, x) ==> (x == log[j].addr && Occurrences(Addrs(log), x) == 1) || Mask(mem, log)[x] == INT3)
  {
    hide Mask, LastByte, Occurrences;
    var addrs, hit := Addrs(log), log[j].addr;
    InOccurrences(addrs, x);
    MaskAt(mem, log, x);
    if !Listed(log, x) {
      assert x !in addrs;
      LastNone(log, x, mem[x]);
    } else {
      var i :| 0 <= i < |log| && log[i].addr == x;
      assert addrs[i] == x && log[i] in log;
      if x == hit && Occurrences(addrs, x) == 1 {
        forall k | j < k < |log|
          ensures log[k].addr != x
        {
          if addrs[k] == x {
            OnceOnly(addrs, j, k);
          }
        }
        LastIs(log, x, mem[x], j);
      }
    }
  }

  // ----- any number of hits, each followed by the resume

  // The byte that the newest entry for x remembers: what a hit at x puts back.
  function FirstByte(log: seq<Patch>, x: nat): Byte {
    if log == [] then INT3 else if log[0].addr == x then log[0].ori else FirstByte(log[1..], x)
  }

  lemma {:induction false} NewestByte(log: seq<Patch>, j: nat)
    requires Newest(log, j)
    ensures FirstByte(log, log[j].addr) == log[j].ori
    decreases |log|
  {
    if j > 0 {
      assert log[0].addr != log[j].addr;
      assert forall i :: 0 <= i < |log| - 1 ==> log[1..][i] == log[i + 1];
      NewestByte(log[1..], j - 1);
    }
  }

  // A resume remembers for each address what memory holds there.
  lemma {:induction false} ResumedByte(mem: seq<Byte>, addrs: seq<nat>, x: nat)
    requires x in addrs && forall a :: a in addrs ==> a < |mem|
    ensures FirstByte(Resume(mem, addrs).1, x) == mem[x]
    decreases |addrs|
  {
    if addrs[0] != x {
      assert addrs[0] in addrs && forall a :: a in addrs[1..] ==> a in addrs;
      ResumedByte(mem[addrs[0] := INT3], addrs[1..], x);
    }
  }

  ghost predicate AllAt(hits: seq<nat>, x: nat) { forall h :: h in hits ==> h == x }

  // What the newest entries remember after the hits and resumes.
  ghost predicate KeepsHit(log: seq<Patch>, after: seq<Patch>, hits: seq<nat>) {
    forall x: nat :: Listed(log, x) ==> FirstByte(after, x) == if AllAt(hits, x) then FirstByte(log, x) else INT3
  }

  /** A hit and the resume after it, from armed memory: the traps stand as before, the entries have
      the same addresses, and only the hit address keeps its remembered byte. */
  lemma HitThenResume(mem: seq<Byte>, log: seq<Patch>, j: nat)
    requires InMemory(mem, log) && Newest(log, j) && Armed(mem, log) && log[j].addr < |mem|
    requires forall a :: a in Addrs(log) ==> a < |mem|
    ensures var r := Resume(mem[log[j].addr := log[j].ori], Addrs(log));
      && r.0 == mem && Addrs(r.1) == Addrs(log) && Armed(r.0, r.1)
      && KeepsHit(log, r.1, [log[j].addr])
  {
    hide Resume, FirstByte;
    var hit, addrs := log[j].addr, Addrs(log);
    var m := mem[hit := log[j].ori];
    var r := Resume(m, addrs);
    NewestByte(log, j);
    ListedAddrs(log);
    forall x | 0 <= x < |mem|
      ensures r.0[x] == mem[x]
    {
      ResumedMemory(m, addrs, x);
    }
    assert Addrs(r.1) == addrs;
    forall p | p in r.1
      ensures mem[p.addr] == INT3
    {
      var k :| 0 <= k < |r.1| && r.1[k] == p;
      assert addrs[k] == p.addr && log[k] in log;
    }
    forall x: nat | Listed(log, x)
      ensures FirstByte(r.1, x) == if AllAt([hit], x) then FirstByte(log, x) else INT3
    {
      ResumedByte(m, addrs, x);
      assert hit in [hit];
    }
  }

  lemma ListedAddrs(log: seq<Patch>)
    ensures forall x: nat :: Listed(log, x) <==> x in Addrs(log)
    ensures forall i :: 0 <= i < |log| ==> Listed(log, log[i].addr)
  {
    assert forall k :: 0 <= k < |log| ==> Addrs(log)[k] == log[k].addr;
  }

  // One more hit on top of some.
  lemma KeepsHitStep(log: seq<Patch>, mid: seq<Patch>, after: seq<Patch>, hits: seq<nat>, h: nat)
    requires KeepsHit(log, mid, hits) && KeepsHit(mid, after, [h]) && Addrs(mid) == Addrs(log)
    ensures KeepsHit(log, after, hits + [h])
  {
    hide FirstByte, Listed;
    ListedAddrs(log);
    ListedAddrs(mid);
    forall x: nat | Listed(log, x)
      ensures FirstByte(after, x) == if AllAt(hits + [h], x) then FirstByte(log, x) else INT3
    {
      AllAtStep(hits, h, x);
      assert AllAt([h], x) <==> h == x by {
        assert h in [h];
      }
    }
  }

  lemma AllAtStep(hits: seq<nat>, h: nat, x: nat)
    ensures AllAt(hits + [h], x) <==> AllAt(hits, x) && h == x
  {
    assert h in hits + [h] && forall i :: i in hits ==> i in hits + [h];
  }

  // ----- memory and entries after setting breakpoints from an empty list

  /** Every address in the list traps, and its newest entry remembers the byte from before exactly
      when the address was set once. */
  ghost predicate SetSoFar(m0: seq<Byte>, mem: seq<Byte>, log: seq<Patch>, addrs: seq<nat>) {
    && |mem| == |m0|
    && (forall x :: 0 <= x < |m0| ==> mem[x] == if x in addrs then INT3 else m0[x])
    && (forall x :: 0 <= x < |m0| && x in addrs ==>
          FirstByte(log, x) == if Occurrences(addrs, x) == 1 then m0[x] else INT3)
  }

  lemma SetSoFarStep(m0: seq<Byte>, mem: seq<Byte>, log: seq<Patch>, addrs: seq<nat>, a: nat)
    requires SetSoFar(m0, mem, log, addrs) && a < |mem|
    ensures SetSoFar(m0, mem[a := INT3], [Patch(a, mem[a])] + log, addrs + [a])
  {
    hide Occurrences;
    var longer := [Patch(a, mem[a])] + log;
    assert longer[1..] == log;
    forall x | 0 <= x < |m0| && x in addrs + [a]
      ensures FirstByte(longer, x) == if Occurrences(addrs + [a], x) == 1 then m0[x] else INT3
    {
      OccurrencesSnoc(addrs, a, x);
      InOccurrences(addrs, x);
    }
  }

  lemma MaskTail(mem: seq<Byte>, log: seq<Patch>)
    requires InMemory(mem, log) && log != []
    ensures log[0].addr < |mem| && InMemory(mem, log[1..])
    ensures var m := mem[log[0].addr := log[0].ori];
      InMemory(m, log[1..]) && Mask(mem, log) == Mask(m, log[1..])
  {
    assert log[0] in log && forall p :: p in log[1..] ==> p in log;
  }

  // ----- the pool

  // The breakpoints among the listed entries, in list order.
  function LogOf(ls: seq<BP>, s: seq<nat>): seq<Patch>
    requires Within(s, |ls|)
  {
    if s == [] then []
    else
      PatchesOf(ls[s[0]]) + LogOf(ls, s[1..])
  }

  function PatchesOf(bp: BP): seq<Patch> {
    if bp.kind.Breakpoint? then [Patch(bp.addr, bp.oriByte)] else []
  }

  function Addrs(log: seq<Patch>): (r: seq<nat>)
    ensures |r| == |log|
  {
    seq(|log|, i requires 0 <= i < |log| => log[i].addr)
  }

  lemma {:induction false} LogFrame(ls: seq<BP>, ks: seq<BP>, s: seq<nat>)
    requires |ls| == |ks| && Within(s, |ls|)
    requires forall i :: i in s ==>
      ks[i].kind == ls[i].kind && ks[i].addr == ls[i].addr && ks[i].oriByte == ls[i].oriByte
    ensures LogOf(ks, s) == LogOf(ls, s)
    decreases |s|
  {
    if s != [] {
      assert s[0] in s && forall i :: i in s[1..] ==> i in s;
      LogFrame(ls, ks, s[1..]);
    }
  }

  lemma AddrsInMemory(mem: seq<Byte>, log: seq<Patch>)
    requires InMemory(mem, log)
    ensures forall a :: a in Addrs(log) ==> a < |mem|
  {
    forall a | a in Addrs(log)
      ensures a < |mem|
    {
      var k :| 0 <= k < |log| && log[k].addr == a;
      assert log[k] in log;
    }
  }

  // Part of the addresses have been resumed: what is left to do completes the whole.
  ghost predicate ResumedSoFar(m0: seq<Byte>, addrs: seq<nat>, m: seq<Byte>, done: seq<Patch>, left: seq<Patch>) {
    && (forall a :: a in addrs ==> a < |m0|) && (forall a :: a in Addrs(left) ==> a < |m|)
    && var rest := Resume(m, Addrs(left));
    Resume(m0, addrs) == (rest.0, done + rest.1)
  }

  lemma ResumeStart(m0: seq<Byte>, log: seq<Patch>)
    requires InMemory(m0, log)
    ensures ResumedSoFar(m0, Addrs(log), m0, [], log)
  {
    AddrsInMemory(m0, log);
    var rest := Resume(m0, Addrs(log));
    assert [] + rest.1 == rest.1;
  }

  lemma ResumeEnd(m0: seq<Byte>, addrs: seq<nat>, m: seq<Byte>, done: seq<Patch>)
    requires ResumedSoFar(m0, addrs, m, done, [])
    ensures Resume(m0, addrs) == (m, done)
  {
    assert Addrs([]) == [] && done + [] == done;
  }

  lemma ResumeHead(m0: seq<Byte>, addrs: seq<nat>, m: seq<Byte>, done: seq<Patch>, log: seq<Patch>)
    requires log != [] && InMemory(m, log) && ResumedSoFar(m0, addrs, m, done, log)
    ensures log[0].addr < |m|
    ensures var a := log[0].addr; ResumedSoFar(m0, addrs, m[a := INT3], done + [Patch(a, m[a])], log[1..])
  {
    var a := log[0].addr;
    assert log[0] in log;
    assert Addrs(log)[1..] == Addrs(log[1..]) && Addrs(log)[0] == a;
    assert forall p :: p in log[1..] ==> p in log;
    AddrsInMemory(m, log[1..]);
    var rest := Resume(m[a := INT3], Addrs(log[1..]));
    assert Resume(m, Addrs(log)) == (rest.0, [Patch(a, m[a])] + rest.1);
    assert done + ([Patch(a, m[a])] + rest.1) == (done + [Patch(a, m[a])]) + rest.1;
  }

  lemma LogHead(ls: seq<BP>, s: seq<nat>)
    requires s != [] && Within(s, |ls|)
    ensures ls[s[0]].kind.Watchpoint? ==> LogOf(ls, s) == LogOf(ls, s[1..])
    ensures ls[s[0]].kind.Breakpoint? ==>
      && LogOf(ls, s) == [Patch(ls[s[0]].addr, ls[s[0]].oriByte)] + LogOf(ls, s[1..])
      && LogOf(ls, s)[1..] == LogOf(ls, s[1..])
  {}

  lemma {:induction false} LogSnoc(ls: seq<BP>, s: seq<nat>, p: nat)
    requires Within(s, |ls|) && p < |ls|
    ensures LogOf(ls, s + [p]) == LogOf(ls, s) + PatchesOf(ls[p])
    decreases |s|
  {
    hide PatchesOf;
    if s == [] {
      assert s + [p] == [p];
      assert PatchesOf(ls[p]) + LogOf(ls, [p][1..]) == PatchesOf(ls[p]);
    } else {
      assert (s + [p])[1..] == s[1..] + [p];
      LogSnoc(ls, s[1..], p);
      var first, rest, last := PatchesOf(ls[s[0]]), LogOf(ls, s[1..]), PatchesOf(ls[p]);
      assert first + (rest + last) == (first + rest) + last;
    }
  }

  lemma {:induction false} LogJoin(ls: seq<BP>, a: seq<nat>, c: seq<nat>)
    requires Within(a, |ls|) && Within(c, |ls|)
    ensures Within(a + c, |ls|) && LogOf(ls, a + c) == LogOf(ls, a) + LogOf(ls, c)
    decreases |a|
  {
    if a == [] {
      assert a + c == c;
    } else {
      assert (a + c)[1..] == a[1..] + c;
      LogJoin(ls, a[1..], c);
      var first := PatchesOf(ls[a[0]]);
      assert first + (LogOf(ls, a[1..]) + LogOf(ls, c)) == (first + LogOf(ls, a[1..])) + LogOf(ls, c);
    }
  }

  // Where the patch of entry k of the list stands in the log.
  function LogIndex(ls: seq<BP>, s: seq<nat>, k: nat): nat
    requires Within(s, |ls|) && k <= |s|
  {
    |LogOf(ls, s[..k])|
  }

  lemma LogWithout(ls: seq<BP>, s: seq<nat>, k: nat)
    requires Within(s, |ls|) && k < |s|
    ensures Within(s[..k] + s[k + 1..], |ls|)
    ensures var log, less, p, i := LogOf(ls, s), LogOf(ls, s[..k] + s[k + 1..]), ls[s[k]], LogIndex(ls, s, k);
      if p.kind.Watchpoint? then less == log
      else
        && i < |log| && log[..i] == LogOf(ls, s[..k])
        && log[i] == Patch(p.addr, p.oriByte) && less == log[..i] + log[i + 1..]
  {
    hide LogOf;
    LogJoin(ls, s[..k], s[k..]);
    assert s[..k] + s[k..] == s && s[k..][1..] == s[k + 1..];
    LogHead(ls, s[k..]);
    LogJoin(ls, s[..k], s[k + 1..]);
  }

  lemma HeadInMemory(m: seq<Byte>, log: seq<Patch>)
    requires log != [] && InMemory(m, log)
    ensures log[0].addr < |m| && forall n: seq<Byte> :: |n| == |m| ==> InMemory(n, log[1..])
  {
    assert log[0] in log;
    assert forall p :: p in log[1..] ==> p in log;
  }

  lemma ChainHead(ls: seq<BP>, p: int, s: seq<nat>)
    requires Chain(ls, p, s) && p != NULL
    ensures s != [] && p == s[0] < |ls| && Chain(ls, ls[p].next, s[1..])
  {}

  lemma MaskNone(mem: seq<Byte>, ls: seq<BP>)
    ensures InMemory(mem, LogOf(ls, [])) && Mask(mem, LogOf(ls, [])) == mem
  {}

  lemma LogNone(ls: seq<BP>)
    ensures LogOf(ls, []) == []
  {}

  lemma ChainHeadOrNull(ls: seq<BP>, p: int, s: seq<nat>)
    requires Chain(ls, p, s)
    ensures if p == NULL then s == [] else s != [] && p == s[0] < |ls| && Chain(ls, ls[p].next, s[1..])
  {}

  lemma ChainNone(ls: seq<BP>)
    ensures Chain(ls, NULL, [])
  {}

  lemma ChainEnds(ls: seq<BP>, s: seq<nat>)
    requires Chain(ls, NULL, s)
    ensures s == []
  {}

  lemma MaskHead(mem: seq<Byte>, ls: seq<BP>, s: seq<nat>)
    requires s != [] && Within(s, |ls|) && InMemory(mem, LogOf(ls, s))
    ensures InMemory(mem, LogOf(ls, s[1..]))
    ensures ls[s[0]].kind.Breakpoint? ==>
      && ls[s[0]].addr < |mem|
      && Mask(mem, LogOf(ls, s)) == Mask(mem[ls[s[0]].addr := ls[s[0]].oriByte], LogOf(ls, s[1..]))
    ensures ls[s[0]].kind.Watchpoint? ==> LogOf(ls, s) == LogOf(ls, s[1..])
  {
    hide Mask, InMemory, LogOf;
    LogStep(ls, s);
    if ls[s[0]].kind.Breakpoint? {
      MaskTail(mem, LogOf(ls, s));
    }
  }

  lemma LogStep(ls: seq<BP>, s: seq<nat>)
    requires s != [] && Within(s, |ls|)
    ensures Within(s[1..], |ls|)
    ensures var b := ls[s[0]]; var log, rest := LogOf(ls, s), LogOf(ls, s[1..]);
      if b.kind.Breakpoint? then log != [] && log[0] == Patch(b.addr, b.oriByte) && log[1..] == rest else log == rest
  {}

  class Monitor {
    const list: array<BP>
    const mem: array<Byte>
    var head: int
    var free: int
    ghost var active: seq<nat>
    ghost var idle: seq<nat>

    /** Both lists are well linked, together they are the whole pool without repetition, and
        in_use is true exactly on the active one. */
    ghost predicate Valid()
      reads this, list
    {
      && list.Length == NR_BP
      && Chain(list[..], head, active) && Chain(list[..], free, idle)
      && Distinct(active + idle)
      && (forall i: nat :: i < NR_BP <==> i in active + idle)
      && (forall i: nat :: i < NR_BP ==> list[i].no == i && (list[i].inUse <==> i in active))
    }

    /** The patches of the active breakpoints, newest first. */
    ghost function Log(): seq<Patch>
      requires Valid()
      reads this, list
    {
      assert forall k :: 0 <= k < |active| ==> active[k] in active + idle;
      LogOf(list[..], active)
    }

    ghost predicate Sound()
      requires Valid()
      reads this, list, mem
    {
      InMemory(mem[..], Log())
    }

    constructor (mem: array<Byte>)
      ensures Valid() && this.mem == mem && fresh(list)
      ensures active == [] && idle == seq(NR_BP, i => i) && Sound()
    {
      this.mem := mem;
      list := new BP[NR_BP]((i: nat) => BP(i, false, false, Breakpoint, 0, 0, if i < NR_BP - 1 then i + 1 else NULL));
      head := NULL;
      free := 0;
      active := [];
      idle := seq(NR_BP, i => i);
      new;
      FreshChain(list[..], 0);
      assert active + idle == idle;
      forall i: nat
        ensures i < NR_BP <==> i in idle
      {
        if i < NR_BP {
          assert idle[i] == i;
        }
      }
      assert seq(NR_BP, i => i)[0..] == idle;
    }

    /** Slot p is in use but on neither list yet. */
    ghost predicate Taken(p: nat)
      reads this, list
    {
      && list.Length == NR_BP && p < NR_BP
      && Chain(list[..], head, active) && Chain(list[..], free, idle)
      && Distinct(active + [p] + idle)
      && (forall i: nat :: i < NR_BP <==> i in active + [p] + idle)
      && (forall i: nat :: i < NR_BP ==> list[i].no == i && (list[i].inUse <==> i in active + [p]))
    }

    // Take the first free entry; the program stops when there is none.
    method NewBP() returns (p: nat)
      requires Valid() && idle != []
      modifies this`free, this`idle, list
      ensures Taken(p) && p == old(idle)[0] && idle == old(idle)[1..]
      ensures forall i :: 0 <= i < NR_BP && i != p ==> list[i] == old(list[i])
    {
      p := free;
      free := list[p].next;
      list[p] := list[p].(inUse := true);
      idle := idle[1..];
      assert active + [p] + idle == old(active + idle);
      NotAmong(active, p, idle);
      ChainFrame(old(list[..]), list[..], head, active);
      ChainFrame(old(list[..]), list[..], free, idle);
    }

    // Fill in the data fields of a taken slot.
    method Describe(p: nat, kind: Kind, addr: nat, oriByte: Byte)
      requires Taken(p)
      modifies list
      ensures Taken(p)
      ensures list[p].kind == kind && list[p].addr == addr && list[p].oriByte == oriByte && list[p].enable
      ensures forall i :: 0 <= i < NR_BP && i != p ==> list[i] == old(list[i])
    {
      NotAmong(active, p, idle);
      list[p] := list[p].(kind := kind, addr := addr);
      list[p] := list[p].(oriByte := oriByte);
      list[p] := list[p].(enable := true);
      ChainFrame(old(list[..]), list[..], head, active);
      ChainFrame(old(list[..]), list[..], free, idle);
    }

    // Link a taken slot at the head of the active list.
    method Insert(p: nat)
      requires Taken(p)
      modifies this`head, this`active, list
      ensures Valid() && active == [p] + old(active)
      ensures list[p] == old(list[p]).(next := old(head))
      ensures forall i :: 0 <= i < NR_BP && i != p ==> list[i] == old(list[i])
    {
      ghost var was := active;
      NotAmong(was, p, idle);
      Moved(was, p, idle);
      list[p] := list[p].(next := head);
      head := p;
      active := [p] + active;
      ChainFrame(old(list[..]), list[..], old(head), was);
      ChainFrame(old(list[..]), list[..], free, idle);
      assert active[1..] == was;
    }

    /** A new entry takes the next free slot, remembers the byte and patches it; masking still
        restores the same memory, whatever addresses repeat. */
    method SetBreakpoint(addr: nat) returns (no: nat)
      requires Valid() && Sound() && idle != [] && addr < mem.Length
      modifies this`free, this`idle, this`head, this`active, list, mem
      ensures Valid() && Sound()
      ensures no == old(idle)[0] && active == [no] + old(active) && idle == old(idle)[1..]
      ensures mem[..] == old(mem[..])[addr := INT3]
      ensures list.Length == NR_BP && no < NR_BP && list[no].kind.Breakpoint? && list[no].addr == addr
      ensures Log() == [Patch(addr, old(mem[addr]))] + old(Log())
      ensures Mask(mem[..], Log()) == old(Mask(mem[..], Log()))
      ensures old(Armed(mem[..], Log())) ==> Armed(mem[..], Log())
    {
      ghost var m, log := mem[..], Log();
      ActiveInPool();
      no := NewBP();
      NotAmong(active, no, idle);
      Describe(no, Breakpoint, addr, mem[addr]);
      mem[addr] := INT3;
      Insert(no);
      LogFrame(old(list[..]), list[..], old(active));
      assert active[1..] == old(active);
      SetThenMask(m, log, addr);
    }

    // A watchpoint shares the pool and patches nothing.
    method SetWatchpoint() returns (no: nat)
      requires Valid() && Sound() && idle != []
      modifies this`free, this`idle, this`head, this`active, list
      ensures Valid() && Sound()
      ensures no == old(idle)[0] && active == [no] + old(active) && idle == old(idle)[1..]
      ensures Log() == old(Log())
    {
      ActiveInPool();
      no := NewBP();
      NotAmong(active, no, idle);
      Describe(no, Watchpoint, 0, 0);
      Insert(no);
      LogFrame(old(list[..]), list[..], old(active));
      assert active[1..] == old(active);
    }

    // Put a slot in use that is on no list back on the free list.
    method FreeBP(p: nat)
      requires list.Length == NR_BP && p < NR_BP && list[p].inUse
      requires Chain(list[..], free, idle) && p !in idle
      modifies list, this`free, this`idle
      ensures idle == [p] + old(idle) && free == p && Chain(list[..], free, idle)
      ensures list[p] == old(list[p]).(inUse := false, next := old(free))
      ensures forall i :: 0 <= i < NR_BP && i != p ==> list[i] == old(list[i])
    {
      list[p] := list[p].(inUse := false);
      list[p] := list[p].(next := free);
      free := p;
      ghost var was := idle;
      idle := [p] + idle;
      ChainFrame(old(list[..]), list[..], old(free), was);
      assert idle[1..] == was;
    }

    // Walk the active list to the named entry and its predecessor.
    method FindEntry(no: int) returns (p: int, prev: int, ghost k: nat)
      requires Valid()
      ensures k <= |active| && no !in active[..k] && Chain(list[..], p, active[k..])
      ensures p == NULL <==> no !in active
      ensures p != NULL ==> k < |active| && active[k] == no == p
      ensures prev == if k == 0 then NULL else active[k - 1]
    {
      ActiveInPool();
      p, prev, k := head, NULL, 0;
      while p != NULL
        invariant k <= |active| && Chain(list[..], p, active[k..])
        invariant prev == if k == 0 then NULL else active[k - 1]
        invariant no !in active[..k]
        decreases |active| - k
      {
        assert active[k] == p;
        if list[p].no == no {
          return;
        }
        prev, p := p, list[p].next;
        k := k + 1;
      }
      assert active[..k] == active;
    }

    /** Deleting removes just the named entry, and its patch from the log, and frees its slot; memory
        is not in the frame. */
    method DeleteBreakpoint(no: int) returns (found: bool, ghost at: nat)
      requires Valid()
      modifies list, this`head, this`free, this`active, this`idle
      ensures Valid()
      ensures found <==> no in old(active)
      ensures !found ==> active == old(active) && idle == old(idle)
      ensures found ==> active == Without(old(active), no) && idle == [no] + old(idle)
      ensures forall i :: 0 <= i < NR_BP ==> SameData(list[i], old(list[i]))
      ensures !found || list[no].kind.Watchpoint? ==> Log() == old(Log())
      ensures found && list[no].kind.Breakpoint? ==>
        && at < |old(Log())| && old(Log())[at] == Patch(list[no].addr, list[no].oriByte)
        && Log() == old(Log())[..at] + old(Log())[at + 1..]
      ensures found && old(active)[0] == no ==> at == 0
    {
      hide LogOf, Without;
      ActiveInPool();
      var p, prev, k := FindEntry(no);
      if p == NULL {
        return false, 0;
      }
      ghost var s, t, ls := active, idle, list[..];
      LogWithout(ls, s, k);
      at := LogIndex(ls, s, k);
      LogNone(ls);
      assert s[..0] == [];
      TakenOut(s, t, k);
      WithoutIs(s, k);
      Unhook(p, prev, k);
      ghost var linked := list[..];
      FreeBP(p);
      active := s[..k] + s[k + 1..];
      ChainFrame(linked, list[..], head, active);
      LogFrame(ls, list[..], active);
      found := true;
    }

    // Link around entry k of the active list.
    method Unhook(p: nat, prev: int, ghost k: nat)
      requires Valid() && k < |active| && active[k] == p && prev == if k == 0 then NULL else active[k - 1]
      modifies list, this`head
      ensures Chain(list[..], head, active[..k] + active[k + 1..]) && Chain(list[..], free, idle)
      ensures forall i :: 0 <= i < NR_BP ==> SameData(list[i], old(list[i])) && list[i].inUse == old(list[i]).inUse
    {
      hide Without;
      ActiveInPool();
      ghost var before, rest := list[..], active[..k] + active[k + 1..];
      ChainSuffix(before, head, active, k + 1);
      TakenOut(active, idle, k);
      DistinctPrefix(active, idle);
      if prev == NULL {
        head := list[p].next;
        assert rest == active[1..];
      } else {
        Unchain(before, head, active, k);
        list[prev] := list[prev].(next := list[p].next);
        assert list[..] == before[prev := before[prev].(next := before[p].next)];
        ChainFrame(before, list[..], free, idle);
      }
    }

    // delete_all_breakpoint_recursively: the tail is freed before the head.
    method FreeFrom(p: int, ghost s: seq<nat>)
      requires list.Length == NR_BP && Chain(list[..], p, s) && Chain(list[..], free, idle)
      requires Distinct(s + idle) && Within(s, NR_BP) && forall k :: 0 <= k < |s| ==> list[s[k]].inUse
      modifies list, this`free, this`idle
      ensures idle == s + old(idle) && Chain(list[..], free, idle)
      ensures forall i :: 0 <= i < NR_BP && i !in s ==> list[i] == old(list[i])
      ensures forall i :: 0 <= i < NR_BP && i in s ==> SameData(list[i], old(list[i])) && !list[i].inUse
      decreases |s|
    {
      hide Distinct, Chain;
      ChainHeadOrNull(list[..], p, s);
      if p == NULL {
        assert s + idle == idle;
        return;
      }
      ghost var rest, t := s[1..], idle;
      HeadApart(s, t);
      if list[p].next != NULL {
        FreeFrom(list[p].next, rest);
      } else {
        ChainEnds(list[..], rest);
        assert rest == [] && rest + t == t;
      }
      FreeBP(p);
      assert s == [s[0]] + rest;
      assert s + t == [s[0]] + (rest + t);
    }

    method DeleteAll()
      requires Valid()
      modifies list, this`head, this`free, this`active, this`idle
      ensures Valid() && active == [] && idle == old(active + idle)
    {
      hide Chain, Distinct;
      ActiveInPool();
      ActiveInUse();
      ghost var all := active + idle;
      FreeFrom(head, active);
      head := NULL;
      active := [];
      assert active + idle == all;
      ChainNone(list[..]);
    }

    /** Masking puts the remembered bytes back, newest entry first. */
    method MaskBreakpoints()
      requires Valid() && Sound()
      modifies mem
      ensures mem[..] == old(Mask(mem[..], Log()))
    {
      hide Distinct, Mask, LogOf, Chain;
      ActiveInPool();
      var p := head;
      ghost var k := 0;
      assert active[0..] == active;
      while p != NULL
        invariant 0 <= k <= |active| && Chain(list[..], p, active[k..])
        invariant InMemory(mem[..], LogOf(list[..], active[k..]))
        invariant Mask(mem[..], LogOf(list[..], active[k..])) == old(Mask(mem[..], Log()))
        decreases |active| - k
      {
        ChainHead(list[..], p, active[k..]);
        assert active[k..][1..] == active[k + 1..];
        MaskHead(mem[..], list[..], active[k..]);
        if list[p].kind.Breakpoint? {
          ghost var before := mem[..];
          mem[list[p].addr] := list[p].oriByte;
          assert mem[..] == before[list[p].addr := list[p].oriByte];
        }
        p := list[p].next;
        k := k + 1;
      }
      ChainEnds(list[..], active[k..]);
      MaskNone(mem[..], list[..]);
    }

    /** Resuming reads every address again and patches it, newest entry first. */
    method ResumeBreakpoints()
      requires Valid() && Sound()
      modifies mem, list
      ensures Valid() && active == old(active) && idle == old(idle)
      ensures (mem[..], Log()) == Resume(old(mem[..]), Addrs(old(Log())))
    {
      hide Distinct, ResumedSoFar, Resume, Addrs, LogOf, Chain;
      ActiveInPool();
      ghost var m0, ls0 := mem[..], list[..];
      ghost var addrs := Addrs(Log());
      AddrsInMemory(m0, Log());
      var p := head;
      ghost var k := 0;
      assert active[0..] == active && active[..0] == [];
      LogNone(ls0);
      ResumeStart(m0, Log());
      while p != NULL
        invariant 0 <= k <= |active| && Valid() && Chain(list[..], p, active[k..])
        invariant ResumedTo(m0, addrs, ls0, k)
        decreases |active| - k
      {
        ChainHead(list[..], p, active[k..]);
        Fresh(k);
        ghost var ls := list[..];
        ResumeEntry(p, m0, addrs, ls0, k);
        ChainFrame(ls, list[..], list[p].next, active[k + 1..]);
        p := list[p].next;
        k := k + 1;
      }
      ChainEnds(list[..], active[k..]);
      assert active[..k] == active && active[k..] == [];
      LogNone(ls0);
      ResumeEnd(m0, addrs, mem[..], Log());
    }

    /** The first k entries are resumed, the others are as they were. */
    ghost predicate ResumedTo(m0: seq<Byte>, addrs: seq<nat>, ls0: seq<BP>, k: nat)
      requires Valid() && k <= |active|
      reads this, list, mem
    {
      && |ls0| == NR_BP && Within(active, NR_BP)
      && (forall i :: 0 <= i < NR_BP && i !in active[..k] ==> list[i] == ls0[i])
      && InMemory(mem[..], LogOf(ls0, active[k..]))
      && ResumedSoFar(m0, addrs, mem[..], LogOf(list[..], active[..k]), LogOf(ls0, active[k..]))
    }

    // One turn of the loop.
    method ResumeEntry(p: nat, ghost m0: seq<Byte>, ghost addrs: seq<nat>, ghost ls0: seq<BP>, ghost k: nat)
      requires Valid() && k < |active| && active[k] == p < NR_BP && ResumedTo(m0, addrs, ls0, k)
      modifies mem, list
      ensures Valid() && ResumedTo(m0, addrs, ls0, k + 1)
      ensures forall i :: 0 <= i < NR_BP ==> list[i].next == old(list[i]).next
    {
      hide ResumedSoFar, Addrs, Resume, Chain, LogOf, Distinct;
      ghost var m, ls, done, left := mem[..], list[..], active[..k], active[k..];
      Fresh(k);
      LogHead(ls0, left);
      if list[p].kind.Breakpoint? {
        ResumeHead(m0, addrs, m, LogOf(ls, done), LogOf(ls0, left));
        HeadInMemory(m, LogOf(ls0, left));
        Repatch(p);
        LogFrame(ls, list[..], done);
      }
      LogSnoc(list[..], done, p);
      assert LogOf(ls, done) + [] == LogOf(ls, done);
      assert ls[p] == ls0[p] && active[..k + 1] == done + [p];
    }

    lemma Fresh(k: nat)
      requires Valid() && k < |active|
      ensures Within(active, NR_BP) && active[k] !in active[..k]
      ensures active[k..][1..] == active[k + 1..] && active[..k + 1] == active[..k] + [active[k]]
    {
      ActiveInPool();
      DistinctPrefix(active, idle);
    }

    method Repatch(p: nat)
      requires Valid() && p < NR_BP && list[p].addr < mem.Length
      modifies mem, list
      ensures Valid()
      ensures list[..] == old(list[..])[p := old(list[p]).(oriByte := old(mem[list[p].addr]), enable := true)]
      ensures mem[..] == old(mem[..])[old(list[p]).addr := INT3]
    {
      list[p] := list[p].(oriByte := mem[list[p].addr]);
      mem[list[p].addr] := INT3;
      list[p] := list[p].(enable := true);
      ChainFrame(old(list[..]), list[..], head, active);
      ChainFrame(old(list[..]), list[..], free, idle);
    }

    // Any breakpoints, repeated addresses included, from an empty list.
    method SetAll(addrs: seq<nat>)
      requires Valid() && active == [] && |addrs| <= |idle| && forall a :: a in addrs ==> a < mem.Length
      modifies this`free, this`idle, this`head, this`active, list, mem
      ensures Valid() && Sound() && |active| == |addrs|
      ensures Mask(mem[..], Log()) == old(mem[..]) && Armed(mem[..], Log())
      ensures SameList(Addrs(Log()), addrs) && SetSoFar(old(mem[..]), mem[..], Log(), addrs)
    {
      hide Mask, LogOf, Occurrences, SetSoFar, FirstByte;
      LogNone(list[..]);
      assert Log() == [];
      MaskNone(mem[..], list[..]);
      SameListStart();
      assert SetSoFar(mem[..], mem[..], Log(), []) by {
        SetNone(mem[..], Log());
      }
      for i := 0 to |addrs|
        invariant Valid() && Sound() && |active| == i && |idle| == old(|idle|) - i
        invariant Mask(mem[..], Log()) == old(mem[..]) && Armed(mem[..], Log())
        invariant SameList(Addrs(Log()), addrs[..i]) && SetSoFar(old(mem[..]), mem[..], Log(), addrs[..i])
      {
        assert addrs[i] in addrs;
        ghost var m, log := mem[..], Log();
        var _ := SetBreakpoint(addrs[i]);
        assert Addrs(Log()) == [addrs[i]] + Addrs(log);
        SameListStep(Addrs(log), addrs[..i], addrs[i]);
        SetSoFarStep(old(mem[..]), m, log, addrs[..i], addrs[i]);
        assert addrs[..i] + [addrs[i]] == addrs[..i + 1];
      }
      assert addrs[..|addrs|] == addrs;
    }

    /** One mask after any sequence of sets, repeated addresses included, restores memory. */
    method SetAllThenMask(addrs: seq<nat>)
      requires Valid() && active == [] && |addrs| <= |idle| && forall a :: a in addrs ==> a < mem.Length
      modifies this`free, this`idle, this`head, this`active, list, mem
      ensures Valid() && |active| == |addrs| && mem[..] == old(mem[..])
    {
      SetAll(addrs);
      MaskBreakpoints();
    }

    /** What a stop and a resume do together: memory survives exactly when no address with another
        byte than the trap is listed twice. */
    method ResumeAndMask()
      requires Valid() && Sound()
      modifies mem, list
      ensures Valid() && active == old(active) && idle == old(idle)
      ensures mem[..] == old(mem[..]) <==>
        forall x :: 0 <= x < mem.Length && Occurrences(Addrs(old(Log())), x) >= 2 ==> old(mem[..])[x] == INT3
    {
      ghost var m0, addrs := mem[..], Addrs(Log());
      AddrsInMemory(m0, Log());
      ResumeMaskIdentity(m0, addrs);
      ResumeBreakpoints();
      MaskBreakpoints();
    }

    /** Set, delete, mask: the trap stays in memory, unless another entry has the address. */
    method SetDeleteMask(addr: nat)
      requires Valid() && Sound() && idle != [] && addr < mem.Length
      modifies this`free, this`idle, this`head, this`active, list, mem
      ensures Valid() && active == old(active) && Log() == old(Log())
      ensures var clean := old(Mask(mem[..], Log()));
        mem[..] == if Listed(old(Log()), addr) then clean else clean[addr := INT3]
    {
      hide Mask, LogOf, Without;
      ghost var s, log, m := active, Log(), mem[..];
      var no := SetBreakpoint(addr);
      ghost var longer := Log();
      assert longer[1..] == log && active[0] == no;
      WithoutIs(active, 0);
      MaskPatched(m, log, addr, INT3);
      var found, at := DeleteBreakpoint(no);
      assert longer[..0] + longer[1..] == log;
      MaskBreakpoints();
    }

    /** Deleting an active breakpoint and masking: the whole log is undone exactly when the deletion
        is harmless. */
    method DeleteAndMask(no: nat) returns (ghost at: nat)
      requires Valid() && Sound() && no in active && list.Length == NR_BP && no < NR_BP && list[no].kind.Breakpoint?
      modifies list, this`head, this`free, this`active, this`idle, mem
      ensures Valid()
      ensures at < |old(Log())| && old(Log())[at] == Patch(old(list[no].addr), old(list[no].oriByte))
      ensures mem[..] == old(Mask(mem[..], Log())) <==> DeletionHarmless(old(mem[..]), old(Log()), at)
    {
      hide Mask, LogOf, DeletionHarmless;
      ghost var m, log := mem[..], Log();
      var found;
      found, at := DeleteBreakpoint(no);
      DeleteLeavesPatch(m, log, at);
      MaskBreakpoints();
    }

    // The newest breakpoint at an address.
    method FindBreakpoint(addr: nat) returns (p: int, ghost j: nat)
      requires Valid()
      ensures p == NULL <==> !Listed(Log(), addr)
      ensures p != NULL ==> 0 <= p < NR_BP && Newest(Log(), j) && Log()[j] == Patch(addr, list[p].oriByte)
    {
      hide LogOf, Chain;
      ActiveInPool();
      ghost var ls, k := list[..], 0;
      p := head;
      assert active[0..] == active && active[..0] == [];
      LogNone(ls);
      while p != NULL
        invariant k <= |active| && Chain(ls, p, active[k..])
        invariant !Listed(LogOf(ls, active[..k]), addr)
        decreases |active| - k
      {
        ChainHead(ls, p, active[k..]);
        Fresh(k);
        LogWithout(ls, active, k);
        if list[p].kind.Breakpoint? && list[p].addr == addr {
          j := LogIndex(ls, active, k);
          FoundNewest(Log(), j);
          return;
        }
        LogSnoc(ls, active[..k], p);
        StillUnlisted(LogOf(ls, active[..k]), PatchesOf(ls[p]), addr);
        p := list[p].next;
        k := k + 1;
      }
      ChainEnds(ls, active[k..]);
      assert active[..k] == active;
      j := 0;
    }

    /** The part of exec that handles a hit: the byte of the newest breakpoint there goes back. */
    method HitBreakpoint(addr: nat) returns (found: bool, ghost j: nat)
      requires Valid() && Sound()
      modifies mem
      ensures Valid() && Sound() && (found <==> Listed(Log(), addr))
      ensures found ==> Newest(Log(), j) && Log()[j].addr == addr && addr < mem.Length
      ensures mem[..] == if found then old(mem[..])[addr := Log()[j].ori] else old(mem[..])
    {
      hide LogOf;
      var p;
      p, j := FindBreakpoint(addr);
      found := p != NULL;
      if found {
        assert Log()[j] in Log();
        mem[addr] := list[p].oriByte;
      }
    }

    /** A stop at addr, the resume after it and a mask: memory is what it was before the breakpoints
        exactly when every other listed byte was a trap from the start, and addr too if listed twice. */
    method HitThenMask(addr: nat)
      requires Valid() && Sound() && Armed(mem[..], Log()) && Listed(Log(), addr)
      modifies mem, list
      ensures Valid() && active == old(active) && idle == old(idle)
      ensures mem[..] == old(Mask(mem[..], Log())) <==>
        forall x :: 0 <= x < mem.Length && Listed(old(Log()), x) ==>
          (x == addr && Occurrences(Addrs(old(Log())), x) == 1) || old(Mask(mem[..], Log()))[x] == INT3
    {
      hide Mask, LogOf, Resume, Addrs, Occurrences;
      ghost var m, log := mem[..], Log();
      var found, j := HitBreakpoint(addr);
      HitResumeMask(m, log, j);
      ResumeBreakpoints();
      MaskBreakpoints();
    }

    /** The whole cycle from an empty list: set any breakpoints, hit one, resume, mask. With two
        breakpoints on bytes that are not traps, memory is never restored. */
    method SetAllHitMask(addrs: seq<nat>, hit: nat)
      requires Valid() && active == [] && |addrs| <= |idle| && forall a :: a in addrs ==> a < mem.Length
      requires hit in addrs
      modifies this`free, this`idle, this`head, this`active, list, mem
      ensures Valid() && |active| == |addrs|
      ensures mem[..] == old(mem[..]) <==>
        forall x :: x in addrs ==> (x == hit && Occurrences(addrs, x) == 1) || old(mem[..])[x] == INT3
    {
      hide Mask, LogOf, Occurrences, SetSoFar;
      SetAll(addrs);
      ghost var log := Log();
      SameListed(log, addrs);
      HitThenMask(hit);
    }

    /** Stops at any addresses, each followed by the resume: the same traps stand again, and an
        address keeps its remembered byte exactly as long as every stop was there. */
    method HitAndResume(hits: seq<nat>)
      requires Valid() && Sound() && Armed(mem[..], Log()) && forall h :: h in hits ==> Listed(Log(), h)
      modifies mem, list
      ensures Valid() && Sound() && active == old(active) && idle == old(idle)
      ensures mem[..] == old(mem[..]) && Armed(mem[..], Log()) && Addrs(Log()) == Addrs(old(Log()))
      ensures KeepsHit(old(Log()), Log(), hits)
    {
      hide Mask, LogOf, Resume, KeepsHit, FirstByte;
      ghost var m, log := mem[..], Log();
      KeepsNone(log);
      for i := 0 to |hits|
        modifies mem, list
        invariant Valid() && Sound() && active == old(active) && idle == old(idle)
        invariant mem[..] == m && Armed(m, Log()) && Addrs(Log()) == Addrs(log)
        invariant KeepsHit(log, Log(), hits[..i])
      {
        assert hits[i] in hits;
        ghost var mid := Log();
        ListedAddrs(log);
        ListedAddrs(mid);
        var found, j := HitBreakpoint(hits[i]);
        AddrsInMemory(m, mid);
        HitThenResume(m, mid, j);
        ResumeBreakpoints();
        KeepsHitStep(log, mid, Log(), hits[..i], hits[i]);
        assert hits[..i] + [hits[i]] == hits[..i + 1];
      }
      assert hits[..|hits|] == hits;
    }

    /** Set any breakpoints, stop and resume any number of times, stop once more: the last stop puts
        the original byte back only if all earlier ones were at the same address, set once, or the
        byte was a trap from the start. Otherwise the trap is put back, and running on stops again. */
    method SetAllHitAll(addrs: seq<nat>, hits: seq<nat>, last: nat)
      requires Valid() && active == [] && |addrs| <= |idle| && forall a :: a in addrs ==> a < mem.Length
      requires last in addrs && forall h :: h in hits ==> h in addrs
      modifies this`free, this`idle, this`head, this`active, list, mem
      ensures Valid() && |active| == |addrs|
      ensures mem[last] == old(mem[last]) <==>
        (AllAt(hits, last) && Occurrences(addrs, last) == 1) || old(mem[last]) == INT3
      ensures mem[last] == old(mem[last]) || mem[last] == INT3
      ensures forall x :: 0 <= x < mem.Length && x != last ==>
        mem[x] == if x in addrs then INT3 else old(mem[x])
    {
      hide Mask, LogOf, Occurrences, FirstByte, Newest;
      SetAll(addrs);
      ghost var log := Log();
      SameListed(log, addrs);
      HitAndResume(hits);
      ListedAddrs(log);
      ListedAddrs(Log());
      var found, j := HitBreakpoint(last);
      NewestByte(Log(), j);
    }

    lemma ActiveInUse()
      requires Valid()
      ensures Within(active, NR_BP) && forall k :: 0 <= k < |active| ==> list[active[k]].inUse
      ensures forall i :: 0 <= i < NR_BP && i !in active ==> !list[i].inUse
    {
      hide Chain, Distinct;
      ActiveInPool();
      assert forall k :: 0 <= k < |active| ==> active[k] in active;
    }

    lemma ActiveInPool()
      requires Valid()
      ensures Within(active, NR_BP) && Within(idle, NR_BP)
    {
      assert forall k :: 0 <= k < |active| ==> active[k] in active + idle;
      assert forall k :: 0 <= k < |idle| ==> idle[k] in active + idle;
    }
  }

  // The same addresses equally often.
  ghost predicate SameList(a: seq<nat>, b: seq<nat>) { forall x: nat :: Occurrences(a, x) == Occurrences(b, x) }

  lemma SetNone(mem: seq<Byte>, log: seq<Patch>)
    ensures SetSoFar(mem, mem, log, [])
  {}

  lemma KeepsNone(log: seq<Patch>)
    ensures KeepsHit(log, log, [])
  {}

  lemma SameListStart()
    ensures SameList(Addrs([]), [])
  {}

  lemma {:induction false} OccurrencesSnoc(a: seq<nat>, x: nat, y: nat)
    ensures Occurrences(a + [x], y) == Occurrences(a, y) + if x == y then 1 else 0
    decreases |a|
  {
    if a == [] {
      assert (a + [x])[1..] == [];
    } else {
      assert (a + [x])[1..] == a[1..] + [x];
      OccurrencesSnoc(a[1..], x, y);
    }
  }

  lemma SameListStep(a: seq<nat>, b: seq<nat>, x: nat)
    requires SameList(a, b)
    ensures SameList([x] + a, b + [x])
  {
    assert ([x] + a)[1..] == a;
    forall y: nat
      ensures Occurrences([x] + a, y) == Occurrences(b + [x], y)
    {
      OccurrencesSnoc(b, x, y);
    }
  }

  lemma SameListed(log: seq<Patch>, addrs: seq<nat>)
    requires SameList(Addrs(log), addrs)
    ensures forall x: nat :: Listed(log, x) <==> x in addrs
    ensures forall x: nat :: Occurrences(Addrs(log), x) == Occurrences(addrs, x)
  {
    hide Occurrences;
    forall x: nat
      ensures Listed(log, x) <==> x in addrs
    {
      InOccurrences(Addrs(log), x);
      InOccurrences(addrs, x);
      assert x in Addrs(log) <==> Listed(log, x) by {
        assert forall k :: 0 <= k < |log| ==> Addrs(log)[k] == log[k].addr;
      }
    }
  }

  lemma FoundNewest(log: seq<Patch>, j: nat)
    requires j < |log| && !Listed(log[..j], log[j].addr)
    ensures Newest(log, j) && Listed(log, log[j].addr)
  {
    assert forall i :: 0 <= i < j ==> log[..j][i] == log[i];
  }

  lemma StillUnlisted(a: seq<Patch>, c: seq<Patch>, x: nat)
    requires !Listed(a, x) && forall p :: p in c ==> p.addr != x
    ensures !Listed(a + c, x)
  {}

  predicate SameData(a: BP, b: BP) {
    a.no == b.no && a.kind == b.kind && a.addr == b.addr && a.oriByte == b.oriByte && a.enable == b.enable
  }

  // The sequence without one element.
  function Without(s: seq<nat>, x: int): seq<nat> {
    if s == [] then [] else if s[0] == x then s[1..] else [s[0]] + Without(s[1..], x)
  }

  lemma {:induction false} WithoutIs(s: seq<nat>, k: nat)
    requires k < |s| && s[k] !in s[..k]
    ensures Without(s, s[k]) == s[..k] + s[k + 1..]
  {
    if k > 0 {
      assert s[0] == s[..k][0] && s[1..][..k - 1] == s[..k][1..];
      WithoutIs(s[1..], k - 1);
      assert s[..k] + s[k + 1..] == [s[0]] + (s[1..][..k - 1] + s[1..][k..]);
    }
  }

  lemma DistinctPrefix(s: seq<nat>, t: seq<nat>)
    requires Distinct(s + t)
    ensures Distinct(s)
  {
    assert forall i :: 0 <= i < |s| ==> (s + t)[i] == s[i];
  }

  lemma HeadApart(s: seq<nat>, t: seq<nat>)
    requires s != [] && Distinct(s + t)
    ensures s[0] !in s[1..] + t && Distinct(s[1..] + t) && s[0] !in t && s[0] !in s[1..]
  {
    var all, rest := s + t, s[1..] + t;
    forall i | 0 <= i < |rest|
      ensures rest[i] == all[i + 1] && rest[i] != s[0]
    {
      assert all[0] == s[0];
    }
    assert forall x :: x in t || x in s[1..] ==> x in rest;
  }

  // Element k leaves the first list and heads the second.
  lemma TakenOut(s: seq<nat>, t: seq<nat>, k: nat)
    requires k < |s| && Distinct(s + t)
    ensures var rest := s[..k] + s[k + 1..];
      && Distinct(rest + ([s[k]] + t)) && s[k] !in rest && s[k] !in t && s[k] !in s[..k]
      && (forall i: nat :: i in rest + ([s[k]] + t) <==> i in s + t)
      && (forall i: nat :: i in rest <==> i in s && i != s[k])
      && (forall i: nat :: i in rest || i in s ==> i !in t)
  {
    var rest, all := s[..k] + s[k + 1..], s + t;
    var moved := rest + ([s[k]] + t);
    forall i, j | 0 <= i < j < |moved|
      ensures moved[i] != moved[j]
    {
      var x := if i < k then i else if i < |rest| then i + 1 else if i == |rest| then k else i;
      var y := if j < k then j else if j < |rest| then j + 1 else if j == |rest| then k else j;
      assert moved[i] == all[x] && moved[j] == all[y] && x != y;
    }
    forall i: nat
      ensures i in rest <==> i in s && i != s[k]
    {
      if i in s && i != s[k] {
        var x :| 0 <= x < |s| && s[x] == i;
        assert rest[if x < k then x else x - 1] == i;
      }
      if i in rest {
        var x :| 0 <= x < |rest| && rest[x] == i;
        assert moved[x] == i && moved[|rest|] == s[k];
      }
    }
    forall i: nat | i in s
      ensures i !in t
    {
      var x :| 0 <= x < |s| && s[x] == i;
      assert all[x] == i;
      assert forall y :: 0 <= y < |t| ==> all[|s| + y] == t[y];
    }
  }

  lemma NotAmong(s: seq<nat>, p: nat, t: seq<nat>)
    requires Distinct(s + [p] + t)
    ensures p !in s && p !in t
  {
    var all := s + [p] + t;
    assert all[|s|] == p;
    forall i | 0 <= i < |s|
      ensures s[i] != p
    {
      assert all[i] == s[i];
    }
    forall i | 0 <= i < |t|
      ensures t[i] != p
    {
      assert all[|s| + 1 + i] == t[i];
    }
  }

  // Moving the middle element to the front keeps the elements and their distinctness.
  lemma Moved(s: seq<nat>, p: nat, t: seq<nat>)
    requires Distinct(s + [p] + t)
    ensures Distinct([p] + s + t)
    ensures forall i: nat :: i in [p] + s + t <==> i in s + [p] + t
    ensures forall i: nat :: i in [p] + s <==> i in s + [p]
  {
    var all := s + [p] + t;
    NotAmong(s, p, t);
    forall i, j | 0 <= i < j < |s| + 1 + |t|
      ensures ([p] + s + t)[i] != ([p] + s + t)[j]
    {
      var x, y := if i == 0 then |s| else if i <= |s| then i - 1 else i, if j <= |s| then j - 1 else j;
      assert ([p] + s + t)[i] == all[x] && ([p] + s + t)[j] == all[y] && x != y;
    }
  }

  lemma {:induction false} FreshChain(ls: seq<BP>, k: nat)
    requires |ls| == NR_BP && k < NR_BP
    requires forall i :: 0 <= i < NR_BP ==> ls[i].next == if i < NR_BP - 1 then i + 1 else NULL
    ensures Chain(ls, k, seq(NR_BP, i => i)[k..])
    decreases NR_BP - k
  {
    var s: seq<nat> := seq(NR_BP, i => i);
    assert s[k..][1..] == s[k + 1..];
    if k + 1 < NR_BP {
      FreshChain(ls, k + 1);
    }
  }
}
