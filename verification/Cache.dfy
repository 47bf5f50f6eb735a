/** The data cache in front of physical memory: nemu/src/memory/cache.c. */
module Cache {
  import opened Bytes
  import opened Memory
  import opened Words

  const NR_LINE := 1024

  datatype CacheLine = CacheLine(valid: bool, sign: nat, data: seq<Byte>)

  // Fields of a physical address.
  function Tag(paddr: nat): nat { paddr / 8192 }

  function Group(paddr: nat): nat { paddr / 64 % 128 }

  function Offset(paddr: nat): nat { paddr % 64 }

  predicate Straddles(paddr: nat, len: nat) { Offset(paddr) + len > 64 }

  predicate InRange(paddr: nat, len: nat) { 1 <= len <= 4 && paddr + len <= MEM_SIZE }

  // Thirteen bits of set and place in the block, the rest is the tag.
  lemma AddressFields(paddr: nat)
    ensures paddr == Tag(paddr) * 8192 + Group(paddr) * 64 + Offset(paddr) && Group(paddr) < 128 && Offset(paddr) < 64
  {
    var block := paddr / 64;
    assert paddr == block * 64 + Offset(paddr);
    assert block == block / 128 * 128 + Group(paddr);
    assert Tag(paddr) == block / 128;
  }

  // The address of the block that the line at an index holds.
  function BlockOf(index: nat, sign: nat): nat { (sign * 128 + index / 8) * 64 }

  lemma BlockFields(paddr: nat, t: nat)
    requires 8 * Group(paddr) <= t < 8 * Group(paddr) + 8
    ensures t / 8 == Group(paddr) && BlockOf(t, Tag(paddr)) == paddr - Offset(paddr)
  {
    var block := paddr / 64;
    assert paddr == block * 64 + Offset(paddr);
    assert block == block / 128 * 128 + Group(paddr);
    assert Tag(paddr) == block / 128;
    SetOf(t, Group(paddr));
  }

  lemma OtherSet(g: nat, h: nat)
    requires g != h
    ensures forall t :: 8 * g <= t < 8 * g + 8 ==> t / 8 != h
  {}

  lemma SetOf(t: nat, g: nat)
    requires 8 * g <= t < 8 * g + 8
    ensures t / 8 == g
  {}

  /** A straddling access continues in the next block, which belongs to another set. */
  lemma NextBlock(paddr: nat, len: nat)
    requires Straddles(paddr, len) && len <= 4
    ensures var high := paddr + 64 - Offset(paddr);
      && Group(high) == (Group(paddr) + 1) % 128 && Offset(high) == 0
      && Group(paddr) == Group(paddr + 64 - Offset(paddr) - 1)
      && !Straddles(paddr, 64 - Offset(paddr)) && !Straddles(high, len - (64 - Offset(paddr)))
  {
    var block := paddr / 64;
    assert paddr == block * 64 + Offset(paddr);
    assert (paddr + 64 - Offset(paddr)) / 64 == block + 1;
  }

  lemma SameBlock(paddr: nat, len: nat)
    requires !Straddles(paddr, len) && len > 0
    ensures Group(paddr + len - 1) == Group(paddr) && Tag(paddr + len - 1) == Tag(paddr)
  {
    assert paddr == paddr / 64 * 64 + Offset(paddr);
  }

  /** A valid line holds the bytes of its block. */
  ghost predicate Fresh(line: CacheLine, t: nat, mem: seq<Byte>) {
    var base := BlockOf(t, line.sign);
    line.valid ==> base + 64 <= |mem| && line.data == mem[base..base + 64]
  }

  // Writing inside one block does not touch the bytes of another.
  lemma PatchElsewhere(line: CacheLine, t: nat, mem: seq<Byte>, addr: nat, bs: seq<Byte>)
    requires Fresh(line, t, mem) && addr + |bs| <= |mem| && !Straddles(addr, |bs|)
    requires BlockOf(t, line.sign) != addr - Offset(addr)
    ensures Fresh(line, t, Patch(mem, addr, bs))
  {
    if line.valid {
      var base, k, m := BlockOf(t, line.sign), line.sign * 128 + t / 8, addr / 64;
      assert base == 64 * k && addr - Offset(addr) == 64 * m;
      assert k < m || m < k;
      assert Patch(mem, addr, bs)[base..base + 64] == mem[base..base + 64];
    }
  }

  lemma PatchInside(line: CacheLine, t: nat, mem: seq<Byte>, addr: nat, bs: seq<Byte>)
    requires Fresh(line, t, mem) && addr + |bs| <= |mem| && !Straddles(addr, |bs|)
    requires BlockOf(t, line.sign) == addr - Offset(addr) && |line.data| == 64
    ensures Fresh(line.(data := Patch(line.data, Offset(addr), bs)), t, Patch(mem, addr, bs))
  {
    if line.valid {
      var base := BlockOf(t, line.sign);
      assert Patch(mem, addr, bs)[base..base + 64] == Patch(mem[base..base + 64], Offset(addr), bs);
    }
  }

  lemma PatchJoin(mem: seq<Byte>, addr: nat, lo: seq<Byte>, hi: seq<Byte>)
    requires addr + |lo| + |hi| <= |mem|
    ensures Patch(Patch(mem, addr, lo), addr + |lo|, hi) == Patch(mem, addr, lo + hi)
  {}

  lemma BlockIs(t: nat, sign: nat, paddr: nat)
    requires t < NR_LINE && BlockOf(t, sign) == paddr - Offset(paddr)
    ensures 8 * Group(paddr) <= t < 8 * Group(paddr) + 8 && sign == Tag(paddr)
  {
    var group := t / 8;
    var block := sign * 128 + group;
    assert t == 8 * group + t % 8;
    assert paddr == 64 * block + Offset(paddr);
    assert paddr / 64 == block;
    assert block % 128 == group && block / 128 == sign;
    assert paddr == 8192 * sign + (64 * group + Offset(paddr));
  }

  /** A line of the block after addr whose bytes the straddling write changes. */
  ghost predicate StaleAfter(line: CacheLine, t: nat, mem: seq<Byte>, addr: nat, bs: seq<Byte>)
    requires addr + |bs| <= |mem|
  {
    var high := addr + 64 - Offset(addr);
    line.valid && Straddles(addr, |bs|) && BlockOf(t, line.sign) == high && mem[high..addr + |bs|] != bs[high - addr..]
  }

  lemma MissLine(line: CacheLine, t: nat, mem: seq<Byte>, addr: nat, bs: seq<Byte>)
    requires Fresh(line, t, mem) && 1 <= |bs| <= 4 && addr + |bs| <= |mem|
    requires line.valid ==> BlockOf(t, line.sign) != addr - Offset(addr)
    ensures Fresh(line, t, Patch(mem, addr, bs)) <==> !StaleAfter(line, t, mem, addr, bs)
  {
    if line.valid {
      if Straddles(addr, |bs|) {
        NextBlock(addr, |bs|);
        var high := addr + 64 - Offset(addr);
        var lo, hi := bs[..high - addr], bs[high - addr..];
        assert lo + hi == bs;
        PatchJoin(mem, addr, lo, hi);
        PatchElsewhere(line, t, mem, addr, lo);
        var half := Patch(mem, addr, lo);
        if BlockOf(t, line.sign) != high {
          PatchElsewhere(line, t, half, high, hi);
        } else {
          assert mem[high..addr + |bs|] == mem[high..high + 64][..|hi|];
          assert Patch(mem, addr, bs)[high..high + 64] == hi + mem[high..high + 64][|hi|..];
          assert mem[high..high + 64] == mem[high..high + 64][..|hi|] + mem[high..high + 64][|hi|..];
          if line.data == hi + mem[high..high + 64][|hi|..] {
            assert line.data[..|hi|] == hi;
          }
        }
      } else {
        PatchElsewhere(line, t, mem, addr, bs);
      }
    }
  }

  lemma Halves(paddr: nat, len: nat)
    requires InRange(paddr, len) && Straddles(paddr, len)
    ensures var lenL := 64 - Offset(paddr);
      && 1 <= lenL < len <= 4 && paddr + len <= MEM_SIZE
      && InRange(paddr, lenL) && InRange(paddr + lenL, len - lenL)
      && !Straddles(paddr, lenL) && !Straddles(paddr + lenL, len - lenL)
      && Group(paddr + lenL - 1) == Group(paddr) && Tag(paddr + lenL - 1) == Tag(paddr)
      && Group(paddr + lenL) == Group(paddr + len - 1) && Tag(paddr + lenL) == Tag(paddr + len - 1)
      && Group(paddr) != Group(paddr + len - 1)
      && Group(paddr) < 128
  {
    NextBlock(paddr, len);
    var lenL := 64 - Offset(paddr);
    SameBlock(paddr, lenL);
    SameBlock(paddr + lenL, len - lenL);
  }

  lemma SplitLoad(all: seq<Byte>, lo: seq<Byte>, hi: seq<Byte>)
    requires |all| == |lo| + |hi| <= 4 && all[..|lo|] == lo && all[|lo|..] == hi
    ensures LittleEndian(all) == Joined(LittleEndian(lo), LittleEndian(hi), |lo|)
  {
    hide LittleEndian, Joined;
    ShiftedJoin(lo, hi);
    assert all == lo + hi;
  }

  // Line t holds the block of p.
  predicate InBlock(line: CacheLine, t: nat, p: nat) { line.valid && line.sign == Tag(p) && t / 8 == Group(p) }

  class Machine {
    const hwMem: array<Byte>
    const lines: array<CacheLine>

    ghost predicate Valid()
      reads this, lines
    {
      && hwMem.Length == MEM_SIZE && lines.Length == NR_LINE
      && forall t :: 0 <= t < NR_LINE ==> |lines[t].data| == 64
    }

    ghost predicate LineFresh(t: nat)
      requires Valid() && t < NR_LINE
      reads this, lines, hwMem
    {
      Fresh(lines[t], t, hwMem[..])
    }

    ghost predicate Distinct()
      requires Valid()
      reads this, lines
    {
      forall t, u :: 0 <= t < u < NR_LINE && t / 8 == u / 8 && lines[t].valid && lines[u].valid ==>
        lines[t].sign != lines[u].sign
    }

    ghost predicate Coherent()
      requires Valid()
      reads this, lines, hwMem
    {
      && Distinct()
      && forall t :: 0 <= t < NR_LINE ==> LineFresh(t)
    }

    predicate Holds(t: nat, paddr: nat)
      requires t < lines.Length
      reads this, lines
    {
      lines[t].valid && lines[t].sign == Tag(paddr)
    }

    predicate Resident(paddr: nat)
      requires Valid()
      reads this, lines
    {
      exists t :: 8 * Group(paddr) <= t < 8 * Group(paddr) + 8 && Holds(t, paddr)
    }

    constructor ()
      ensures Valid() && Coherent() && fresh(hwMem) && fresh(lines)
      ensures forall i :: 0 <= i < MEM_SIZE ==> hwMem[i] == 0
      ensures forall t :: 0 <= t < NR_LINE ==> !lines[t].valid
    {
      hwMem := new Byte[MEM_SIZE](_ => 0);
      lines := new CacheLine[NR_LINE](_ => CacheLine(false, 0, seq(64, _ => 0)));
    }

    // ----- reading

    // The bytes of a resident block, most significant first.
    method ReadLine(t: nat, offset: nat, len: nat) returns (res: nat)
      requires t < lines.Length && offset + len <= |lines[t].data|
      ensures res == LittleEndian(lines[t].data[offset..offset + len])
    {
      res := 0;
      var j := len;
      while j > 0
        invariant 0 <= j <= len
        invariant res == LittleEndian(lines[t].data[offset + j..offset + len])
      {
        j := j - 1;
        assert lines[t].data[offset + j..offset + len][1..] == lines[t].data[offset + j + 1..offset + len];
        res := res * 256 + lines[t].data[offset + j];
      }
    }

    // Fill one line from memory.
    method Fill(t: nat, paddr: nat)
      requires Valid() && t < NR_LINE && paddr < MEM_SIZE
      modifies lines
      ensures Valid()
      ensures lines[t].valid && lines[t].sign == Tag(paddr)
      ensures var base := paddr - Offset(paddr); lines[t].data == hwMem[base..base + 64]
      ensures forall u :: 0 <= u < NR_LINE && u != t ==> lines[u] == old(lines[u])
    {
      var base := paddr - Offset(paddr);
      for i := 0 to 64
        invariant Valid()
        invariant lines[t].data[..i] == hwMem[base..base + i]
        invariant forall u :: 0 <= u < NR_LINE && u != t ==> lines[u] == old(lines[u])
      {
        var byte := HwMemRead(hwMem, base + i, 1);
        assert LittleEndian(hwMem[base + i..base + i + 1]) == hwMem[base + i];
        lines[t] := lines[t].(data := lines[t].data[i := byte]);
      }
      lines[t] := lines[t].(valid := true);
      lines[t] := lines[t].(sign := Tag(paddr));
    }

    // Filling a line of the right set with a block that is not resident keeps the cache coherent.
    method FillMiss(t: nat, paddr: nat)
      requires Valid() && Coherent() && !Resident(paddr)
      requires 8 * Group(paddr) <= t < 8 * Group(paddr) + 8 && paddr < MEM_SIZE
      modifies lines
      ensures Valid() && Coherent() && Resident(paddr) && InBlock(lines[t], t, paddr)
      ensures forall u :: 0 <= u < NR_LINE && u != t ==> lines[u] == old(lines[u])
    {
      ghost var before := lines[..];
      Fill(t, paddr);
      BlockFields(paddr, t);
      forall u | 0 <= u < NR_LINE
        ensures LineFresh(u)
      {
        if u != t {
          assert lines[u] == before[u];
          assert old(LineFresh(u));
        }
      }
      forall u, w | 0 <= u < w < NR_LINE && u / 8 == w / 8 && lines[u].valid && lines[w].valid
        ensures lines[u].sign != lines[w].sign
      {
        if u == t {
          assert old(!Holds(w, paddr));
        } else if w == t {
          assert old(!Holds(u, paddr));
        }
      }
      assert Holds(t, paddr);
    }

    lemma HitIsMemory(t: nat, paddr: nat, len: nat)
      requires Valid() && Coherent() && InRange(paddr, len) && !Straddles(paddr, len)
      requires 8 * Group(paddr) <= t < 8 * Group(paddr) + 8 && Holds(t, paddr)
      ensures lines[t].data[Offset(paddr)..Offset(paddr) + len] == hwMem[paddr..paddr + len]
    {
      BlockFields(paddr, t);
      assert LineFresh(t);
      var base := paddr - Offset(paddr);
      assert hwMem[..][base..base + 64] == hwMem[base..base + 64];
    }

    lemma OneHit(t: nat, u: nat, paddr: nat)
      requires Valid() && Coherent()
      requires 8 * Group(paddr) <= t < u < 8 * Group(paddr) + 8
      ensures !(Holds(t, paddr) && Holds(u, paddr))
    {
      SetOf(t, Group(paddr));
      SetOf(u, Group(paddr));
    }

    // Nothing has changed but lines that now hold one of two blocks.
    twostate predicate OnlyBlocks(p: nat, q: nat)
      requires lines.Length == NR_LINE
      reads this, lines
    {
      forall t :: 0 <= t < NR_LINE ==> lines[t] == old(lines[t]) || InBlock(lines[t], t, p) || InBlock(lines[t], t, q)
    }

    method CacheRead(paddr: nat, len: nat) returns (res: nat)
      requires Valid() && Coherent() && InRange(paddr, len)
      modifies lines
      ensures Valid() && Coherent()
      ensures res == LittleEndian(hwMem[paddr..paddr + len])
      ensures OnlyBlocks(paddr, paddr + len - 1)
      ensures !Straddles(paddr, len) && old(Resident(paddr)) ==> lines[..] == old(lines[..])
      ensures Resident(paddr) && Resident(paddr + len - 1)
      decreases Straddles(paddr, len), !Resident(paddr), 1
    {
      hide LineFresh, Distinct, Coherent, LittleEndian;
      var group, offset, hit := Group(paddr), Offset(paddr), false;
      ghost var at, resident := 0, Resident(paddr);
      res := 0;
      for i := 0 to 8
        invariant Valid() && Coherent()
        invariant !hit ==> res == 0 && lines[..] == old(lines[..])
        invariant !hit ==> (Resident(paddr) <==> resident)
        invariant !hit ==> forall t :: 8 * group <= t < 8 * group + i ==> !Holds(t, paddr)
        invariant hit ==> 8 * group <= at < 8 * group + i && Holds(at, paddr)
        invariant hit ==> ReadDone(paddr, len, res)
        invariant hit && !Straddles(paddr, len) ==> lines[..] == old(lines[..])
        invariant OnlyBlocks(paddr, paddr + len - 1)
      {
        var target := 8 * group + i;
        if hit {
          OneHit(at, target, paddr);
        }
        if Holds(target, paddr) {
          hit, at := true, target;
          if !Straddles(paddr, len) {
            SameBlock(paddr, len);
            HitIsMemory(target, paddr, len);
            assert Holds(target, paddr + len - 1);
            res := ReadLine(target, offset, len);
          } else {
            res := ReadAcross(paddr, len);
          }
        }
      }

      if !hit {
        var way: nat :| way < 8;
        assert !resident;
        FillMiss(8 * group + way, paddr);
        if !Straddles(paddr, len) {
          SameBlock(paddr, len);
          res := CacheRead(paddr, len);
        } else {
          res := ReadAcross(paddr, len);
        }
      }
    }

    ghost predicate ReadDone(paddr: nat, len: nat, res: nat)
      requires Valid() && InRange(paddr, len)
      reads this, lines, hwMem
    {
      && res == LittleEndian(hwMem[paddr..paddr + len])
      && Resident(paddr) && Resident(paddr + len - 1)
    }

    // The two halves of an access that crosses into the next block; the first block stays put.
    method ReadAcross(paddr: nat, len: nat) returns (res: nat)
      requires Valid() && Coherent() && InRange(paddr, len)
      requires Straddles(paddr, len) && Resident(paddr)
      modifies lines
      ensures Valid() && Coherent()
      ensures ReadDone(paddr, len, res)
      ensures OnlyBlocks(paddr + len - 1, paddr + len - 1)
      ensures Group(paddr) != Group(paddr + len - 1)
      ensures forall t :: 8 * Group(paddr) <= t < 8 * Group(paddr) + 8 ==> lines[t] == old(lines[t])
      decreases Straddles(paddr, len), !Resident(paddr), 0
    {
      hide LineFresh, Distinct, Coherent, LittleEndian, Joined, Pow256;
      hide Group, Offset, Straddles, Tag, InRange;
      Halves(paddr, len);
      var lenL := 64 - Offset(paddr);
      var lenH := len - lenL;
      var dataL := CacheRead(paddr, lenL);
      ghost var way :| 8 * Group(paddr) <= way < 8 * Group(paddr) + 8 && Holds(way, paddr);
      var high := paddr + lenL;
      OtherSet(Group(paddr), Group(high));
      var dataH := CacheRead(high, lenH);
      assert Holds(way, paddr);
      assert high + lenH == paddr + len;
      SplitLoad(hwMem[paddr..paddr + len], hwMem[paddr..high], hwMem[high..paddr + len]);
      res := Joined(dataL, dataH, lenL);
    }

    // ----- writing

    twostate predicate TagsKept()
      requires lines.Length == NR_LINE
      reads this, lines
    {
      forall t :: 0 <= t < NR_LINE ==> lines[t].valid == old(lines[t].valid) && lines[t].sign == old(lines[t].sign)
    }

    /** The write that goes past a stale copy: it straddles, its low block is not resident, its
        high block is, and the high bytes change. */
    predicate LeavesStale(paddr: nat, len: nat, data: nat)
      requires Valid() && InRange(paddr, len)
      reads this, lines, hwMem
    {
      && Straddles(paddr, len) && !Resident(paddr) && Resident(paddr + len - 1)
      && var lenL := 64 - Offset(paddr);
      hwMem[paddr + lenL..paddr + len] != ToBytes(data, len)[lenL..]
    }

    // Least significant byte first into one line.
    method WriteLine(t: nat, offset: nat, len: nat, data: nat)
      requires Valid() && t < NR_LINE && offset + len <= 64
      modifies lines
      ensures lines[t] == old(lines[t]).(data := Patch(old(lines[t]).data, offset, ToBytes(data, len)))
      ensures forall u :: 0 <= u < NR_LINE && u != t ==> lines[u] == old(lines[u])
    {
      ghost var line, bytes := lines[t], ToBytes(data, len);
      var temp := data;
      for j := 0 to len
        invariant ToBytes(temp, len - j) == bytes[j..]
        invariant lines[t] == line.(data := Patch(line.data, offset, bytes[..j]))
        invariant forall u :: 0 <= u < NR_LINE && u != t ==> lines[u] == old(lines[u])
      {
        assert bytes[j] == temp % 256;
        lines[t] := lines[t].(data := lines[t].data[offset + j := temp % 256]);
        temp := temp / 256;
      }
      assert bytes[..len] == bytes;
    }

    method WriteHit(t: nat, paddr: nat, len: nat, data: nat)
      requires Valid() && Coherent() && InRange(paddr, len) && !Straddles(paddr, len)
      requires 8 * Group(paddr) <= t < 8 * Group(paddr) + 8 && Holds(t, paddr)
      modifies lines, hwMem
      ensures Valid() && Coherent() && TagsKept()
      ensures hwMem[..] == Patch(old(hwMem[..]), paddr, ToBytes(data, len))
    {
      hide LittleEndian, ToBytes;
      ghost var mem, before, bytes := hwMem[..], lines[..], ToBytes(data, len);
      BlockFields(paddr, t);
      WriteLine(t, Offset(paddr), len, data);
      HwMemWrite(hwMem, paddr, len, data);
      forall u | 0 <= u < NR_LINE
        ensures LineFresh(u)
      {
        assert old(LineFresh(u));
        if u == t {
          PatchInside(before[t], t, mem, paddr, bytes);
        } else if before[u].valid {
          DistinctBlocks(before, u, t);
          PatchElsewhere(before[u], u, mem, paddr, bytes);
        }
      }
    }

    lemma NotHeld(t: nat, paddr: nat)
      requires Valid() && t < NR_LINE && !Resident(paddr)
      ensures !(lines[t].valid && BlockOf(t, lines[t].sign) == paddr - Offset(paddr))
    {
      if BlockOf(t, lines[t].sign) == paddr - Offset(paddr) {
        BlockIs(t, lines[t].sign, paddr);
        assert !Holds(t, paddr);
      }
    }

    // A write that finds no line goes to memory alone.
    method WriteMiss(paddr: nat, len: nat, data: nat)
      requires Valid() && Coherent() && InRange(paddr, len) && !Resident(paddr)
      modifies hwMem
      ensures Coherent() <==> !old(LeavesStale(paddr, len, data))
      ensures hwMem[..] == Patch(old(hwMem[..]), paddr, ToBytes(data, len))
    {
      hide LittleEndian, ToBytes;
      ghost var mem, bytes := hwMem[..], ToBytes(data, len);
      StaleLines(paddr, len, data);
      HwMemWrite(hwMem, paddr, len, data);
      forall u | 0 <= u < NR_LINE
        ensures LineFresh(u) <==> !StaleAfter(lines[u], u, mem, paddr, bytes)
      {
        assert old(LineFresh(u));
        NotHeld(u, paddr);
        MissLine(lines[u], u, mem, paddr, bytes);
      }
    }

    // The stale line, if there is one, is the resident line of the high block.
    lemma StaleLines(paddr: nat, len: nat, data: nat)
      requires Valid() && InRange(paddr, len) && !Resident(paddr)
      ensures LeavesStale(paddr, len, data) <==>
        exists u :: 0 <= u < NR_LINE && StaleAfter(lines[u], u, hwMem[..], paddr, ToBytes(data, len))
    {
      hide ToBytes;
      var mem, bytes, last := hwMem[..], ToBytes(data, len), paddr + len - 1;
      if Straddles(paddr, len) {
        NextBlock(paddr, len);
        var high := paddr + 64 - Offset(paddr);
        SameBlock(high, len - (64 - Offset(paddr)));
        assert mem[high..paddr + len] == hwMem[high..paddr + len];
        if Resident(last) {
          var h :| 8 * Group(last) <= h < 8 * Group(last) + 8 && Holds(h, last);
          BlockFields(high, h);
          assert lines[h].valid && BlockOf(h, lines[h].sign) == high;
        }
        forall u | 0 <= u < NR_LINE && StaleAfter(lines[u], u, mem, paddr, bytes)
          ensures Resident(last)
        {
          BlockIs(u, lines[u].sign, high);
          assert Holds(u, last);
        }
      }
    }

    method CacheWrite(paddr: nat, len: nat, data: nat)
      requires Valid() && Coherent() && InRange(paddr, len) && data < 0x1_0000_0000
      modifies lines, hwMem
      ensures Valid() && TagsKept()
      ensures hwMem[..] == Patch(old(hwMem[..]), paddr, ToBytes(data, len))
      ensures Coherent() <==> !old(LeavesStale(paddr, len, data))
      ensures old(!Resident(paddr)) ==> lines[..] == old(lines[..])
      decreases Straddles(paddr, len), 1
    {
      hide LineFresh, Distinct, Coherent, ToBytes, LittleEndian;
      var group, hit := Group(paddr), false;
      ghost var at, resident, stale := 0, Resident(paddr), LeavesStale(paddr, len, data);
      for i := 0 to 8
        invariant Valid() && Coherent() && TagsKept()
        invariant !hit ==> lines[..] == old(lines[..]) && hwMem[..] == old(hwMem[..])
        invariant !hit ==> (Resident(paddr) <==> resident) && (LeavesStale(paddr, len, data) <==> stale)
        invariant !hit ==> forall t :: 8 * group <= t < 8 * group + i ==> !Holds(t, paddr)
        invariant hit ==> 8 * group <= at < 8 * group + i && Holds(at, paddr) && resident
        invariant hit ==> hwMem[..] == Patch(old(hwMem[..]), paddr, ToBytes(data, len))
      {
        var target := 8 * group + i;
        if hit {
          OneHit(at, target, paddr);
        }
        if Holds(target, paddr) {
          hit, at := true, target;
          if !Straddles(paddr, len) {
            WriteHit(target, paddr, len, data);
          } else {
            WriteAcross(paddr, len, data);
          }
        }
      }
      if !hit {
        assert !resident;
        WriteMiss(paddr, len, data);
      }
    }

    // A straddling write whose first block is resident is split and stays coherent.
    method WriteAcross(paddr: nat, len: nat, data: nat)
      requires Valid() && Coherent() && InRange(paddr, len) && data < 0x1_0000_0000
      requires Straddles(paddr, len) && Resident(paddr)
      modifies lines, hwMem
      ensures Valid() && Coherent() && TagsKept()
      ensures hwMem[..] == Patch(old(hwMem[..]), paddr, ToBytes(data, len))
      decreases Straddles(paddr, len), 0
    {
      hide LineFresh, Distinct, Coherent, ToBytes, LittleEndian;
      NextBlock(paddr, len);
      var lenL := 64 - Offset(paddr);
      var lenH := len - lenL;
      ToBytesSplit(data, lenL, lenH);
      PatchJoin(hwMem[..], paddr, ToBytes(Low(data, lenL), lenL), ToBytes(High(data, lenL), lenH));
      HalvesFit(data, lenL);
      CacheWrite(paddr, lenL, Low(data, lenL));
      CacheWrite(paddr + lenL, lenH, High(data, lenL));
    }

    predicate Empty()
      requires Valid()
      reads this, lines
    {
      forall t :: 0 <= t < NR_LINE ==> !lines[t].valid
    }

    /** Whole runs, under any choice of victims. Operations are performed until one would leave a
        stale copy; up to there everything is as with a flat memory. A run goes through to its end
        if each of its straddling writes is safe by what the program has read before. */
    method Run(ops: seq<Op>) returns (outs: seq<nat>, done: nat)
      requires Valid() && Coherent() && forall op :: op in ops ==> OpInRange(op)
      modifies lines, hwMem
      ensures Valid() && Coherent() && done <= |ops| && forall op :: op in ops[..done] ==> OpInRange(op)
      ensures outs == FlatReads(old(hwMem[..]), ops[..done]) <= FlatReads(old(hwMem[..]), ops)
      ensures hwMem[..] == FlatMemory(old(hwMem[..]), ops[..done])
      ensures done < |ops| ==>
        ops[done].Write? && OpInRange(ops[done]) && LeavesStale(ops[done].paddr, ops[done].len, ops[done].data)
      ensures (forall k :: 0 <= k < |ops| ==> Safe(ops, k, old(Empty()))) ==> done == |ops|
    {
      hide Coherent, OnlyRead, Safe, FlatReads, FlatMemory;
      outs := [];
      ghost var mem, empty := hwMem[..], Empty();
      FlatStart(mem);
      NothingRead(lines[..], ops);
      for i := 0 to |ops|
        invariant Valid() && Coherent()
        invariant outs == FlatReads(mem, ops[..i]) && hwMem[..] == FlatMemory(mem, ops[..i])
        invariant empty ==> OnlyRead(lines[..], ops, i)
        invariant JustRead(ops, i)
      {
        assert ops[i] in ops;
        if ops[i].Write? && LeavesStale(ops[i].paddr, ops[i].len, ops[i].data) {
          StaleNotSafe(ops, i, empty, ops[i].data);
          FlatReadsPrefix(mem, ops, i);
          return outs, i;
        }
        ghost var m, before := hwMem[..], lines[..];
        var out := Perform(ops[i]);
        outs := outs + out;
        FlatStep(mem, ops, i);
        if empty {
          ReadMore(before, lines[..], ops, i);
        }
      }
      assert ops[..|ops|] == ops;
      done := |ops|;
    }

    // The block of the operation before is resident if it was a read.
    ghost predicate JustRead(ops: seq<Op>, i: nat)
      requires Valid() && i <= |ops|
      reads this, lines
    {
      i > 0 && ops[i - 1].Read? ==> Resident(ops[i - 1].paddr) && Resident(Last(ops[i - 1]))
    }

    // One operation that leaves no stale copy.
    method Perform(op: Op) returns (out: seq<nat>)
      requires Valid() && Coherent() && OpInRange(op) && (op.Write? ==> !LeavesStale(op.paddr, op.len, op.data))
      modifies lines, hwMem
      ensures Valid() && Coherent()
      ensures hwMem[..] == FlatEffect(old(hwMem[..]), op) && out == FlatRead(old(hwMem[..]), op)
      ensures NewLines(old(lines[..]), lines[..], op)
      ensures op.Read? ==> Resident(op.paddr) && Resident(Last(op))
    {
      hide LineFresh, Distinct, Coherent, ToBytes, LittleEndian;
      out := [];
      match op {
        case Read(paddr, len) =>
          var byte := CacheRead(paddr, len);
          assert hwMem[..][paddr..paddr + len] == hwMem[paddr..paddr + len];
          out := [byte];
        case Write(paddr, len, data) =>
          CacheWrite(paddr, len, data);
      }
    }

    lemma StaleNotSafe(ops: seq<Op>, k: nat, empty: bool, data: nat)
      requires Valid() && k < |ops| && ops[k].Write? && InRange(ops[k].paddr, ops[k].len)
      requires LeavesStale(ops[k].paddr, ops[k].len, data)
      requires empty ==> OnlyRead(lines[..], ops, k)
      requires JustRead(ops, k)
      ensures !Safe(ops, k, empty)
    {
      var low, high := ops[k].paddr, Last(ops[k]);
      if k > 0 && ops[k - 1].Read? && Touches(ops[k - 1], low) {
        SameResident(if low / 64 == ops[k - 1].paddr / 64 then ops[k - 1].paddr else Last(ops[k - 1]), low);
      }
      if empty {
        var t :| 8 * Group(high) <= t < 8 * Group(high) + 8 && Holds(t, high);
        BlockFields(high, t);
        assert BlockOf(t, lines[..][t].sign) / 64 == high / 64;
        assert ReadSince(ops, k, BlockOf(t, lines[..][t].sign));
      }
    }

    lemma SameResident(p: nat, q: nat)
      requires Valid() && p / 64 == q / 64 && Resident(p)
      ensures Resident(q)
    {
      SameTag(p, q);
      var t :| 8 * Group(p) <= t < 8 * Group(p) + 8 && Holds(t, p);
      assert Holds(t, q);
    }
  }

  lemma SameTag(p: nat, q: nat)
    requires p / 64 == q / 64
    ensures Tag(p) == Tag(q) && Group(p) == Group(q)
  {
    assert Tag(p) == p / 64 / 128 && Tag(q) == q / 64 / 128;
  }

  // The access covers a byte of the block of p.
  predicate Touches(op: Op, p: nat) { p / 64 == op.paddr / 64 || p / 64 == Last(op) / 64 }

  function Last(op: Op): nat { if op.len == 0 then op.paddr else op.paddr + op.len - 1 }

  predicate ReadSince(ops: seq<Op>, i: nat, p: nat)
    requires i <= |ops|
  {
    exists j :: 0 <= j < i && ops[j].Read? && Touches(ops[j], p)
  }

  /** Safe by the program text alone: operation k does not straddle, or is the write-back of a block
      just read, or its second block was never read since the cache was empty. */
  predicate Safe(ops: seq<Op>, k: nat, empty: bool)
    requires k < |ops|
  {
    ops[k].Write? && Straddles(ops[k].paddr, ops[k].len) ==>
      || (k > 0 && ops[k - 1].Read? && Touches(ops[k - 1], ops[k].paddr))
      || (empty && !ReadSince(ops, k, Last(ops[k])))
  }

  // Only blocks that the first i operations have read are resident.
  ghost predicate OnlyRead(ls: seq<CacheLine>, ops: seq<Op>, i: nat)
    requires i <= |ops|
  {
    forall t :: 0 <= t < |ls| && ls[t].valid ==> ReadSince(ops, i, BlockOf(t, ls[t].sign))
  }

  lemma NothingRead(ls: seq<CacheLine>, ops: seq<Op>)
    ensures (forall t :: 0 <= t < |ls| ==> !ls[t].valid) ==> OnlyRead(ls, ops, 0)
  {}

  lemma InBlockIs(line: CacheLine, t: nat, p: nat)
    requires InBlock(line, t, p)
    ensures BlockOf(t, line.sign) / 64 == p / 64
  {
    assert p / 64 == p / 64 / 128 * 128 + Group(p) && Tag(p) == p / 64 / 128;
  }

  // Lines change only to hold a block that the operation reads.
  ghost predicate NewLines(before: seq<CacheLine>, after: seq<CacheLine>, op: Op) {
    && |after| == |before|
    && forall t :: 0 <= t < |after| ==> NewLine(before[t], after[t], t, op)
  }

  predicate NewLine(before: CacheLine, after: CacheLine, t: nat, op: Op) {
    || (after.valid == before.valid && after.sign == before.sign)
    || (op.Read? && (InBlock(after, t, op.paddr) || InBlock(after, t, Last(op))))
  }

  lemma ReadMore(before: seq<CacheLine>, after: seq<CacheLine>, ops: seq<Op>, i: nat)
    requires i < |ops| && OnlyRead(before, ops, i) && NewLines(before, after, ops[i])
    ensures OnlyRead(after, ops, i + 1)
  {
    forall t | 0 <= t < |after| && after[t].valid
      ensures ReadSince(ops, i + 1, BlockOf(t, after[t].sign))
    {
      assert NewLine(before[t], after[t], t, ops[i]);
      if after[t].valid == before[t].valid && after[t].sign == before[t].sign {
        assert ReadSince(ops, i, BlockOf(t, before[t].sign));
      } else {
        InBlockIs(after[t], t, if InBlock(after[t], t, ops[i].paddr) then ops[i].paddr else Last(ops[i]));
        assert Touches(ops[i], BlockOf(t, after[t].sign));
      }
    }
  }

  datatype Op = Read(paddr: nat, len: nat) | Write(paddr: nat, len: nat, data: nat)

  predicate OpInRange(op: Op) {
    InRange(op.paddr, op.len) && (op.Write? ==> op.data < 0x1_0000_0000)
  }

  // One operation on flat memory: its effect, and what it reads.
  function FlatEffect(mem: seq<Byte>, op: Op): (r: seq<Byte>)
    requires |mem| == MEM_SIZE && OpInRange(op)
    ensures |r| == MEM_SIZE
  {
    if op.Write? then Patch(mem, op.paddr, ToBytes(op.data, op.len)) else mem
  }

  function FlatRead(mem: seq<Byte>, op: Op): seq<nat>
    requires |mem| == MEM_SIZE && OpInRange(op)
  {
    if op.Read? then [LittleEndian(mem[op.paddr..op.paddr + op.len])] else []
  }

  // A flat memory after a sequence of operations, and what its reads return.
  function FlatMemory(mem: seq<Byte>, ops: seq<Op>): (r: seq<Byte>)
    requires |mem| == MEM_SIZE && forall op :: op in ops ==> OpInRange(op)
    ensures |r| == MEM_SIZE
  {
    if ops == [] then mem
    else
      assert OpInRange(ops[|ops| - 1]);
      FlatEffect(FlatMemory(mem, ops[..|ops| - 1]), ops[|ops| - 1])
  }

  function FlatReads(mem: seq<Byte>, ops: seq<Op>): seq<nat>
    requires |mem| == MEM_SIZE && forall op :: op in ops ==> OpInRange(op)
  {
    if ops == [] then []
    else
      assert OpInRange(ops[|ops| - 1]);
      var last, before := ops[|ops| - 1], ops[..|ops| - 1];
      FlatReads(mem, before) + FlatRead(FlatMemory(mem, before), last)
  }

  // The operation writes byte a.
  predicate Writes(op: Op, a: nat) { op.Write? && op.paddr <= a < op.paddr + op.len }

  /** A byte of flat memory is the one that the last write to it has put there, or the first one. */
  lemma {:induction false} LastWriteWins(mem: seq<Byte>, ops: seq<Op>, a: nat, k: int)
    requires |mem| == MEM_SIZE && a < MEM_SIZE && -1 <= k < |ops| && forall op :: op in ops ==> OpInRange(op)
    requires k >= 0 ==> ops[k].Write? && ops[k].paddr <= a < ops[k].paddr + ops[k].len
    requires forall j :: k < j < |ops| ==> !Writes(ops[j], a)
    ensures FlatMemory(mem, ops)[a] ==
      if k == -1 then mem[a] else ToBytes(ops[k].data, ops[k].len)[a - ops[k].paddr]
    decreases |ops|
  {
    hide ToBytes, InRange;
    if ops != [] {
      var n := |ops| - 1;
      assert OpInRange(ops[n]);
      if k < n {
        assert !Writes(ops[n], a);
        LastWriteWins(mem, ops[..n], a, k);
      }
    }
  }

  /** A read returns the little-endian value of the bytes of flat memory at that moment and changes
      nothing; a write returns nothing. */
  lemma LastOperation(mem: seq<Byte>, ops: seq<Op>, op: Op)
    requires |mem| == MEM_SIZE && OpInRange(op) && forall o :: o in ops ==> OpInRange(o)
    ensures FlatReads(mem, ops + [op]) == FlatReads(mem, ops) +
      if op.Read? then [LittleEndian(FlatMemory(mem, ops)[op.paddr..op.paddr + op.len])] else []
    ensures op.Read? ==> FlatMemory(mem, ops + [op]) == FlatMemory(mem, ops)
  {
    var all := ops + [op];
    assert all[..|ops|] == ops && all[..|ops| + 1] == all && all[|ops|] == op;
    hide LittleEndian, ToBytes, FlatReads, FlatMemory, InRange;
    FlatStep(mem, all, |ops|);
  }

  lemma FlatStart(mem: seq<Byte>)
    requires |mem| == MEM_SIZE
    ensures FlatMemory(mem, []) == mem && FlatReads(mem, []) == []
  {}

  lemma FlatStep(mem: seq<Byte>, ops: seq<Op>, i: nat)
    requires |mem| == MEM_SIZE && i < |ops| && forall op :: op in ops ==> OpInRange(op)
    ensures OpInRange(ops[i])
    ensures FlatMemory(mem, ops[..i + 1]) == FlatEffect(FlatMemory(mem, ops[..i]), ops[i])
    ensures FlatReads(mem, ops[..i + 1]) == FlatReads(mem, ops[..i]) + FlatRead(FlatMemory(mem, ops[..i]), ops[i])
  {
    hide FlatEffect, FlatRead;
    assert ops[i] in ops && ops[..i + 1][..i] == ops[..i];
  }

  lemma {:induction false} FlatReadsPrefix(mem: seq<Byte>, ops: seq<Op>, i: nat)
    requires |mem| == MEM_SIZE && i <= |ops| && forall op :: op in ops ==> OpInRange(op)
    ensures FlatReads(mem, ops[..i]) <= FlatReads(mem, ops)
    decreases |ops|
  {
    if i < |ops| {
      var before := ops[..|ops| - 1];
      FlatReadsPrefix(mem, before, i);
      assert before[..i] == ops[..i];
    } else {
      assert ops[..i] == ops;
    }
  }

  /** A stale copy does arise: block 1 is resident in line t, block 0 is not, and a write across the
      two reaches memory only. The line still holds, and a hit would still return, the old byte. */
  method StaleReadWitness() returns (m: Machine, t: nat, cached: nat)
    ensures fresh(m) && m.Valid() && !m.Coherent()
    ensures t < NR_LINE && m.Holds(t, 64) && m.lines[t].data[0] == 0 && m.hwMem[64] == 2
    ensures cached == 0
  {
    m := new Machine();
    var first := m.CacheRead(64, 1);
    assert !m.Resident(63);
    assert m.Resident(64);
    t :| 8 <= t < 16 && m.Holds(t, 64);
    m.HitIsMemory(t, 64, 1);
    assert m.lines[t].data[0..1] == [0];
    StaleBytes();
    assert m.LeavesStale(63, 2, 0x0200);
    m.CacheWrite(63, 2, 0x0200);
    assert m.hwMem[64] == m.hwMem[..][64];
    assert m.lines[t].data[0] == m.lines[t].data[0..1][0];
    SingleByte(0);
    cached := m.ReadLine(t, 0, 1);
  }

  lemma StaleBytes()
    ensures ToBytes(0x0200, 2) == [0, 2]
  {
    assert ToBytes(0x0200, 2) == [0] + ToBytes(2, 1);
    assert ToBytes(2, 1) == [2] + ToBytes(0, 0);
  }

  lemma SingleByte(b: Byte)
    ensures LittleEndian([b]) == b
  {
    assert LittleEndian([b][1..]) == 0;
  }

  lemma DistinctBlocks(ls: seq<CacheLine>, t: nat, u: nat)
    requires t < |ls| && u < |ls| && |ls| == NR_LINE
    requires t / 8 != u / 8 || ls[t].sign != ls[u].sign
    ensures BlockOf(t, ls[t].sign) != BlockOf(u, ls[u].sign)
  {}
}
