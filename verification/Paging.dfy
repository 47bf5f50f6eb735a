/** Linear memory: page_translate in nemu/src/memory/mmu/page.c and the page-splitting accesses
    laddr_read and laddr_write in nemu/src/memory/memory.c. */
module Paging {
  import opened Bytes
  import opened Memory
  import opened Words

  const WORD_SIZE := 0x1_0000_0000

  datatype Option<T> = None | Some(value: T)

  function Dir(laddr: nat): nat { laddr / 0x40_0000 }

  function Page(laddr: nat): nat { laddr / 4096 % 1024 }

  function PageOffset(laddr: nat): nat { laddr % 4096 }

  predicate Present(entry: nat) { entry % 2 == 1 }

  function FrameBase(entry: nat): nat { entry / 4096 * 4096 }

  // Linear addresses wrap at 32 bits.
  function Next(laddr: nat, i: nat): nat { (laddr + i) % WORD_SIZE }

  // The 32-bit entry i of a table at a physical address.
  function Entry(m: seq<Byte>, table: nat, i: nat): nat
    requires table + 4 * i + 4 <= |m|
  {
    LittleEndian(m[table + 4 * i..table + 4 * i + 4])
  }

  /** The two-level walk; None where the program would stop on an absent entry. */
  function Walk(m: seq<Byte>, base: nat, laddr: nat): Option<nat> {
    if base + 4 * Dir(laddr) + 4 > |m| || !Present(Entry(m, base, Dir(laddr))) then None
    else
      var table := FrameBase(Entry(m, base, Dir(laddr)));
      if table + 4 * Page(laddr) + 4 > |m| || !Present(Entry(m, table, Page(laddr))) then None
      else Some(FrameBase(Entry(m, table, Page(laddr))) + PageOffset(laddr))
  }

  // Ten bits, ten bits and twelve bits make an address, and come apart again.
  lemma AddressFormat(d: nat, p: nat, o: nat)
    requires d < 1024 && p < 1024 && o < 4096
    ensures var laddr := d * 0x40_0000 + p * 4096 + o; Dir(laddr) == d && Page(laddr) == p && PageOffset(laddr) == o
  {
    var laddr := d * 0x40_0000 + p * 4096 + o;
    DivModIs(laddr, 0x40_0000, d, p * 4096 + o);
    DivModIs(laddr, 4096, d * 1024 + p, o);
    DivModIs(d * 1024 + p, 1024, d, p);
  }

  // A frame and twelve bits of flags, the lowest of which says that the entry is present.
  lemma EntryFormat(frame: nat, flags: nat)
    requires frame % 4096 == 0 && flags < 4096
    ensures FrameBase(frame + flags) == frame && (Present(frame + flags) <==> flags % 2 == 1)
  {
    DivModIs(frame + flags, 4096, frame / 4096, flags);
  }

  /** The walk, from the two entries that it reads: both must be present, whatever their other flags. */
  lemma WalkIs(m: seq<Byte>, base: nat, d: nat, p: nat, o: nat, table: nat, f: nat, frame: nat, g: nat)
    requires d < 1024 && p < 1024 && o < 4096 && base + 4 * d + 4 <= |m| && table + 4 * p + 4 <= |m|
    requires table % 4096 == 0 && f < 4096 && LittleEndian(m[base + 4 * d..base + 4 * d + 4]) == table + f
    requires frame % 4096 == 0 && g < 4096 && LittleEndian(m[table + 4 * p..table + 4 * p + 4]) == frame + g
    ensures Walk(m, base, d * 0x40_0000 + p * 4096 + o) == if f % 2 == 1 && g % 2 == 1 then Some(frame + o) else None
  {
    hide Dir, Page, PageOffset, FrameBase, Present, LittleEndian;
    AddressFormat(d, p, o);
    EntryFormat(table, f);
    EntryFormat(frame, g);
  }

  lemma NextWraps(laddr: nat, i: nat)
    requires laddr < WORD_SIZE && i <= 4
    ensures Next(laddr, i) == if laddr + i < WORD_SIZE then laddr + i else laddr + i - WORD_SIZE
  {}

  // How the machine sees linear addresses: paging off, or on with a directory base.
  datatype View = Flat | Paged(base: nat)

  function Translate(m: seq<Byte>, v: View, laddr: nat): Option<nat> {
    match v
    case Flat => Some(laddr)
    case Paged(base) => Walk(m, base, laddr)
  }

  // Every byte of the access has a physical address inside memory.
  predicate Mapped(m: seq<Byte>, v: View, laddr: nat, len: nat) {
    forall i :: 0 <= i < len ==> ByteMapped(m, v, laddr, i)
  }

  predicate ByteMapped(m: seq<Byte>, v: View, laddr: nat, i: nat) {
    var p := Translate(m, v, Next(laddr, i));
    p.Some? && p.value < |m|
  }

  function AddressOf(m: seq<Byte>, v: View, laddr: nat, i: nat): nat
    requires ByteMapped(m, v, laddr, i)
  {
    Translate(m, v, Next(laddr, i)).value
  }

  /** The bytes of an access, each looked up through its own translation. */
  function Fetch(m: seq<Byte>, v: View, laddr: nat, len: nat): (bs: seq<Byte>)
    requires Mapped(m, v, laddr, len)
    ensures |bs| == len
  {
    if len == 0 then []
    else
      assert ByteMapped(m, v, laddr, len - 1);
      Fetch(m, v, laddr, len - 1) + [m[AddressOf(m, v, laddr, len - 1)]]
  }

  // ----- one page and two

  lemma SamePage(m: seq<Byte>, v: View, laddr: nat, i: nat)
    requires laddr < WORD_SIZE && PageOffset(laddr) + i < 4096
    ensures Next(laddr, i) == laddr + i
    ensures Translate(m, v, laddr).Some? ==> Translate(m, v, laddr + i) == Some(Translate(m, v, laddr).value + i)
    ensures Translate(m, v, laddr).None? ==> Translate(m, v, laddr + i).None?
  {
    var page, offset := laddr / 4096, PageOffset(laddr);
    assert laddr == page * 4096 + offset;
    assert (laddr + i) / 4096 == page && PageOffset(laddr + i) == offset + i;
    assert Dir(laddr) == page / 1024 && Dir(laddr + i) == page / 1024;
  }

  predicate OnePage(m: seq<Byte>, v: View, laddr: nat, len: nat) {
    && laddr < WORD_SIZE
    && (v == Flat ==> laddr + len <= |m| <= WORD_SIZE)
    && (v != Flat ==> PageOffset(laddr) + len <= 4096)
  }

  lemma AddressWithinPage(m: seq<Byte>, v: View, laddr: nat, len: nat, i: nat)
    requires i < len && OnePage(m, v, laddr, len) && Mapped(m, v, laddr, len)
    ensures ByteMapped(m, v, laddr, 0) && ByteMapped(m, v, laddr, i)
    ensures AddressOf(m, v, laddr, i) == AddressOf(m, v, laddr, 0) + i
  {
    hide Walk;
    assert ByteMapped(m, v, laddr, 0) && ByteMapped(m, v, laddr, i);
    if v != Flat {
      SamePage(m, v, laddr, i);
    }
    NextWithin(laddr, i);
  }

  lemma NextWithin(laddr: nat, i: nat)
    ensures laddr + i < WORD_SIZE ==> Next(laddr, i) == laddr + i
    ensures laddr < WORD_SIZE ==> Next(laddr, 0) == laddr
  {}

  lemma {:induction false} FetchWithinPage(m: seq<Byte>, v: View, laddr: nat, len: nat)
    requires len > 0 && OnePage(m, v, laddr, len) && Mapped(m, v, laddr, len)
    ensures ByteMapped(m, v, laddr, 0)
    ensures var p := AddressOf(m, v, laddr, 0);
      p + len <= |m| && Fetch(m, v, laddr, len) == m[p..p + len]
  {
    hide AddressOf, Walk, Translate, Next, PageOffset, ByteMapped;
    AddressWithinPage(m, v, laddr, len, len - 1);
    AddressBound(m, v, laddr, len - 1);
    if len > 1 {
      FetchWithinPage(m, v, laddr, len - 1);
    }
  }

  /** With paging off an access is to the physical bytes at its own address. */
  lemma FetchFlat(m: seq<Byte>, laddr: nat, len: nat)
    requires 0 < len && laddr + len <= |m| <= WORD_SIZE
    ensures Mapped(m, Flat, laddr, len) && Fetch(m, Flat, laddr, len) == m[laddr..laddr + len]
  {
    forall i | 0 <= i < len
      ensures ByteMapped(m, Flat, laddr, i)
    {
      NextWithin(laddr, i);
    }
    FetchWithinPage(m, Flat, laddr, len);
    NextWithin(laddr, 0);
  }

  lemma AddressBound(m: seq<Byte>, v: View, laddr: nat, i: nat)
    requires ByteMapped(m, v, laddr, i)
    ensures AddressOf(m, v, laddr, i) < |m|
  {}

  lemma NextNext(laddr: nat, i: nat, j: nat)
    ensures Next(Next(laddr, i), j) == Next(laddr, i + j)
  {}

  lemma {:induction false} FetchSplit(m: seq<Byte>, v: View, laddr: nat, lo: nat, hi: nat)
    requires Mapped(m, v, laddr, lo + hi)
    ensures Mapped(m, v, laddr, lo) && Mapped(m, v, Next(laddr, lo), hi)
    ensures Fetch(m, v, laddr, lo + hi) == Fetch(m, v, laddr, lo) + Fetch(m, v, Next(laddr, lo), hi)
  {
    hide Translate, Next;
    forall i | 0 <= i < hi
      ensures ByteMapped(m, v, Next(laddr, lo), i)
    {
      NextNext(laddr, lo, i);
      assert ByteMapped(m, v, laddr, lo + i);
    }
    if hi > 0 {
      FetchSplit(m, v, laddr, lo, hi - 1);
      NextNext(laddr, lo, hi - 1);
    }
  }

  // ----- what a write must not touch

  // The bytes of the two table entries that a walk reads.
  predicate WalkReads(m: seq<Byte>, base: nat, laddr: nat, a: nat)
    requires Walk(m, base, laddr).Some?
  {
    var dir, entry := base + 4 * Dir(laddr), FrameBase(Entry(m, base, Dir(laddr))) + 4 * Page(laddr);
    dir <= a < dir + 4 || entry <= a < entry + 4
  }

  /** The access does not write into the table entries that translate it. */
  ghost predicate Apart(m: seq<Byte>, v: View, laddr: nat, len: nat)
    requires Mapped(m, v, laddr, len)
  {
    forall i, j :: 0 <= i < len && 0 <= j < len ==> ByteApart(m, v, laddr, i, j)
  }

  ghost predicate ByteApart(m: seq<Byte>, v: View, laddr: nat, i: nat, j: nat) {
    v.Paged? && ByteMapped(m, v, laddr, i) && ByteMapped(m, v, laddr, j) ==>
      !WalkReads(m, v.base, Next(laddr, j), AddressOf(m, v, laddr, i))
  }

  lemma WalkStable(m: seq<Byte>, n: seq<Byte>, base: nat, laddr: nat)
    requires |m| == |n| && Walk(m, base, laddr).Some?
    requires forall a :: 0 <= a < |m| && WalkReads(m, base, laddr, a) ==> m[a] == n[a]
    ensures Walk(n, base, laddr) == Walk(m, base, laddr)
    ensures forall a :: WalkReads(n, base, laddr, a) <==> WalkReads(m, base, laddr, a)
  {
    var dir, entry := base + 4 * Dir(laddr), FrameBase(Entry(m, base, Dir(laddr))) + 4 * Page(laddr);
    assert m[dir..dir + 4] == n[dir..dir + 4] by {
      assert forall a :: dir <= a < dir + 4 ==> WalkReads(m, base, laddr, a);
    }
    assert m[entry..entry + 4] == n[entry..entry + 4] by {
      assert forall a :: entry <= a < entry + 4 ==> WalkReads(m, base, laddr, a);
    }
  }

  /** n differs from m exactly in the translated bytes of the access, which now hold bs. */
  ghost predicate Written(m: seq<Byte>, n: seq<Byte>, v: View, laddr: nat, bs: seq<Byte>)
    requires Mapped(m, v, laddr, |bs|)
  {
    && |n| == |m|
    && (forall i :: 0 <= i < |bs| ==> ByteWritten(m, n, v, laddr, bs, i))
    && (forall a :: 0 <= a < |m| && !Touches(m, v, laddr, |bs|, a) ==> n[a] == m[a])
  }

  ghost predicate ByteWritten(m: seq<Byte>, n: seq<Byte>, v: View, laddr: nat, bs: seq<Byte>, i: nat)
    requires i < |bs| && |n| == |m|
  {
    ByteMapped(m, v, laddr, i) ==> n[AddressOf(m, v, laddr, i)] == bs[i]
  }

  ghost predicate Touches(m: seq<Byte>, v: View, laddr: nat, len: nat, a: nat) {
    exists i :: 0 <= i < len && ByteMapped(m, v, laddr, i) && AddressOf(m, v, laddr, i) == a
  }

  lemma WrittenStable(m: seq<Byte>, n: seq<Byte>, v: View, laddr: nat, bs: seq<Byte>, len: nat, j: nat)
    requires |bs| <= len && Mapped(m, v, laddr, len) && Apart(m, v, laddr, len) && j < len
    requires Mapped(m, v, laddr, |bs|) && Written(m, n, v, laddr, bs)
    ensures Translate(n, v, Next(laddr, j)) == Translate(m, v, Next(laddr, j))
    ensures ByteMapped(n, v, laddr, j) && ByteMapped(m, v, laddr, j)
    ensures AddressOf(n, v, laddr, j) == AddressOf(m, v, laddr, j)
    ensures v.Paged? ==>
      forall a :: WalkReads(n, v.base, Next(laddr, j), a) <==> WalkReads(m, v.base, Next(laddr, j), a)
  {
    hide Walk;
    assert ByteMapped(m, v, laddr, j);
    if v.Paged? {
      forall a | 0 <= a < |m| && WalkReads(m, v.base, Next(laddr, j), a)
        ensures m[a] == n[a]
      {
        forall i | 0 <= i < |bs| && ByteMapped(m, v, laddr, i)
          ensures AddressOf(m, v, laddr, i) != a
        {
          assert ByteApart(m, v, laddr, i, j);
        }
      }
      WalkStable(m, n, v.base, Next(laddr, j));
    }
  }

  /** Reading the bytes just written gives them back, whatever frames the pages share. */
  lemma {:induction false} FetchWritten(m: seq<Byte>, n: seq<Byte>, v: View, laddr: nat, bs: seq<Byte>, k: nat)
    requires k <= |bs| && Mapped(m, v, laddr, |bs|) && Apart(m, v, laddr, |bs|) && Written(m, n, v, laddr, bs)
    ensures Mapped(n, v, laddr, k) && Fetch(n, v, laddr, k) == bs[..k]
  {
    hide Walk, Translate, WalkReads, AddressOf, ByteMapped;
    if k > 0 {
      FetchWritten(m, n, v, laddr, bs, k - 1);
      WrittenStable(m, n, v, laddr, bs, |bs|, k - 1);
      assert ByteWritten(m, n, v, laddr, bs, k - 1);
      forall i | 0 <= i < k
        ensures ByteMapped(n, v, laddr, i)
      {
        if i < k - 1 {
          assert ByteMapped(n, v, laddr, i);
        }
      }
    }
  }

  lemma AddressesDistinct(m: seq<Byte>, v: View, laddr: nat, i: nat, j: nat)
    requires i < j < 4 && |m| <= MEM_SIZE && ByteMapped(m, v, laddr, i) && ByteMapped(m, v, laddr, j)
    ensures AddressOf(m, v, laddr, i) != AddressOf(m, v, laddr, j)
  {
    hide Walk, Translate;
    OffsetKept(m, v, Next(laddr, i));
    OffsetKept(m, v, Next(laddr, j));
    NearOffsets(laddr, i, j);
  }

  lemma NearOffsets(laddr: nat, i: nat, j: nat)
    requires i < j < 4
    ensures PageOffset(Next(laddr, i)) != PageOffset(Next(laddr, j))
  {
    var x := laddr % 4096;
    assert laddr == 4096 * (laddr / 4096) + x;
    OffsetOfNext(laddr / 4096, x, i);
    OffsetOfNext(laddr / 4096, x, j);
  }

  lemma OffsetOfNext(page: nat, x: nat, i: nat)
    requires x < 4096 && i < 4
    ensures PageOffset(Next(4096 * page + x, i)) == if x + i < 4096 then x + i else x + i - 4096
  {
    var y := 4096 * page + x + i;
    assert y % 4096 == (x + i) % 4096;
    assert y == WORD_SIZE * (y / WORD_SIZE) + y % WORD_SIZE;
  }

  lemma OffsetKept(m: seq<Byte>, v: View, laddr: nat)
    requires Translate(m, v, laddr).Some?
    ensures PageOffset(Translate(m, v, laddr).value) == PageOffset(laddr)
  {
    hide Entry;
  }

  // A patch of contiguous physical bytes is a write through one page.
  lemma PatchWrites(m: seq<Byte>, v: View, laddr: nat, bs: seq<Byte>)
    requires 0 < |bs| && |m| == MEM_SIZE && OnePage(m, v, laddr, |bs|) && Mapped(m, v, laddr, |bs|)
    ensures ByteMapped(m, v, laddr, 0)
    ensures var p := AddressOf(m, v, laddr, 0);
      p + |bs| <= |m| && Written(m, Patch(m, p, bs), v, laddr, bs)
  {
    hide Walk, Translate, Next, PageOffset, ByteMapped, AddressOf;
    FetchWithinPage(m, v, laddr, |bs|);
    var p := AddressOf(m, v, laddr, 0);
    var n := Patch(m, p, bs);
    forall i | 0 <= i < |bs|
      ensures ByteMapped(m, v, laddr, i) && AddressOf(m, v, laddr, i) == p + i
    {
      AddressWithinPage(m, v, laddr, |bs|, i);
    }
    forall a | p <= a < p + |bs|
      ensures Touches(m, v, laddr, |bs|, a)
    {
      assert AddressOf(m, v, laddr, a - p) == a;
    }
  }

  /** Two writes, one per page, make the whole write. */
  lemma WrittenJoin(m: seq<Byte>, h: seq<Byte>, n: seq<Byte>, v: View, laddr: nat, lo: seq<Byte>, hi: seq<Byte>)
    requires |m| == MEM_SIZE && |lo| + |hi| <= 4 && Mapped(m, v, laddr, |lo| + |hi|) && Apart(m, v, laddr, |lo| + |hi|)
    requires Mapped(m, v, laddr, |lo|) && Written(m, h, v, laddr, lo)
    requires Mapped(h, v, Next(laddr, |lo|), |hi|) && Written(h, n, v, Next(laddr, |lo|), hi)
    ensures Written(m, n, v, laddr, lo + hi)
  {
    hide Walk, Translate, Next, ByteMapped, AddressOf, Apart, Mapped, Touches;
    var bs := lo + hi;
    forall j | |lo| <= j < |bs|
      ensures HalfAddress(m, h, v, laddr, |lo|, j)
    {
      HighAddress(m, h, v, laddr, lo, |bs|, j);
    }
    forall i | 0 <= i < |bs|
      ensures ByteWritten(m, n, v, laddr, bs, i)
    {
      if ByteMapped(m, v, laddr, i) {
        if i < |lo| {
          assert ByteWritten(m, h, v, laddr, lo, i);
          AddressBound(m, v, laddr, i);
          LowUntouched(m, h, v, laddr, |lo|, |hi|, i);
        } else {
          assert HalfAddress(m, h, v, laddr, |lo|, i);
          assert ByteWritten(h, n, v, Next(laddr, |lo|), hi, i - |lo|);
        }
      }
    }
    forall a | 0 <= a < |m| && !Touches(m, v, laddr, |bs|, a)
      ensures n[a] == m[a]
    {
      TouchesSplit(m, h, v, laddr, |lo|, |hi|, a);
    }
  }

  // Byte j of the access, seen as a byte of its high half after the low half was written.
  ghost predicate HalfAddress(m: seq<Byte>, h: seq<Byte>, v: View, laddr: nat, lo: nat, j: nat)
    requires lo <= j
  {
    && ByteMapped(m, v, laddr, j) && ByteMapped(h, v, Next(laddr, lo), j - lo)
    && AddressOf(h, v, Next(laddr, lo), j - lo) == AddressOf(m, v, laddr, j)
  }

  lemma HighAddress(m: seq<Byte>, h: seq<Byte>, v: View, laddr: nat, lo: seq<Byte>, len: nat, j: nat)
    requires |lo| <= j < len && Mapped(m, v, laddr, len) && Apart(m, v, laddr, len)
    requires Mapped(m, v, laddr, |lo|) && Written(m, h, v, laddr, lo)
    ensures HalfAddress(m, h, v, laddr, |lo|, j)
  {
    hide Walk, Translate, Next, Apart, Written;
    WrittenStable(m, h, v, laddr, lo, len, j);
    NextNext(laddr, |lo|, j - |lo|);
  }

  lemma LowUntouched(m: seq<Byte>, h: seq<Byte>, v: View, laddr: nat, lo: nat, hi: nat, i: nat)
    requires i < lo && lo + hi <= 4 && |m| == MEM_SIZE && ByteMapped(m, v, laddr, i)
    requires forall j :: lo <= j < lo + hi ==> HalfAddress(m, h, v, laddr, lo, j)
    ensures !Touches(h, v, Next(laddr, lo), hi, AddressOf(m, v, laddr, i))
  {
    hide Walk, Translate, Next, ByteMapped, AddressOf;
    forall k | 0 <= k < hi && ByteMapped(h, v, Next(laddr, lo), k)
      ensures AddressOf(h, v, Next(laddr, lo), k) != AddressOf(m, v, laddr, i)
    {
      assert HalfAddress(m, h, v, laddr, lo, lo + k);
      AddressesDistinct(m, v, laddr, i, lo + k);
    }
  }

  lemma TouchesSplit(m: seq<Byte>, h: seq<Byte>, v: View, laddr: nat, lo: nat, hi: nat, a: nat)
    requires forall j :: lo <= j < lo + hi ==> HalfAddress(m, h, v, laddr, lo, j)
    requires !Touches(m, v, laddr, lo + hi, a)
    ensures !Touches(m, v, laddr, lo, a) && !Touches(h, v, Next(laddr, lo), hi, a)
  {
    hide Walk, Translate, Next, ByteMapped, AddressOf;
    forall k | 0 <= k < hi && ByteMapped(h, v, Next(laddr, lo), k)
      ensures AddressOf(h, v, Next(laddr, lo), k) != a
    {
      assert HalfAddress(m, h, v, laddr, lo, lo + k);
    }
  }

  // ----- a write, page by page

  predicate Crosses(v: View, laddr: nat, len: nat) { v.Paged? && PageOffset(laddr) + len > 4096 }

  // The part of a write that lies in one page; None where the program stops.
  function StorePage(m: seq<Byte>, v: View, laddr: nat, bs: seq<Byte>): Option<seq<Byte>> {
    var p := Translate(m, v, laddr);
    if p.Some? && p.value + |bs| <= |m| then Some(Patch(m, p.value, bs)) else None
  }

  // The two pages are translated one after the other, the second when the first is written.
  function Store(m: seq<Byte>, v: View, laddr: nat, bs: seq<Byte>): Option<seq<Byte>> {
    if !Crosses(v, laddr, |bs|) then StorePage(m, v, laddr, bs)
    else
      var k := 4096 - PageOffset(laddr);
      var h := StorePage(m, v, laddr, bs[..k]);
      if h.None? then None else StorePage(h.value, v, Next(laddr, k), bs[k..])
  }

  lemma StoreInPage(m: seq<Byte>, v: View, laddr: nat, bs: seq<Byte>)
    requires 0 < |bs| && |m| == MEM_SIZE && OnePage(m, v, laddr, |bs|) && Mapped(m, v, laddr, |bs|)
    ensures var n := StorePage(m, v, laddr, bs); n.Some? && Written(m, n.value, v, laddr, bs)
  {
    hide Walk, Written, Mapped, PageOffset;
    PatchWrites(m, v, laddr, bs);
    NextWithin(laddr, 0);
  }

  /** A write that stays off the table entries which translate it changes exactly the translated
      bytes, and reading them gives them back. */
  lemma StoreWrites(m: seq<Byte>, v: View, laddr: nat, bs: seq<Byte>)
    requires |m| == MEM_SIZE && laddr < WORD_SIZE && 1 <= |bs| <= 4
    requires Mapped(m, v, laddr, |bs|) && Apart(m, v, laddr, |bs|)
    ensures var n := Store(m, v, laddr, bs);
      n.Some? && Written(m, n.value, v, laddr, bs)
      && Mapped(n.value, v, laddr, |bs|) && Fetch(n.value, v, laddr, |bs|) == bs
  {
    hide Walk, Written, Mapped, Translate, StorePage, Apart, Next, Fetch;
    if !Crosses(v, laddr, |bs|) {
      if v == Flat {
        FlatOnePage(m, laddr, |bs|);
      }
      StoreInPage(m, v, laddr, bs);
    } else {
      var k := 4096 - PageOffset(laddr);
      var lo, hi, a := bs[..k], bs[k..], Next(laddr, k);
      assert lo + hi == bs;
      FetchSplit(m, v, laddr, k, |hi|);
      ApartHalves(m, v, laddr, k, |hi|);
      StoreInPage(m, v, laddr, lo);
      var h := StorePage(m, v, laddr, lo).value;
      SameLength(m, v, laddr, lo);
      HighHalf(m, h, v, laddr, lo, |hi|);
      NextPage(laddr, k);
      StoreInPage(h, v, a, hi);
      WrittenJoin(m, h, StorePage(h, v, a, hi).value, v, laddr, lo, hi);
    }
    FetchWritten(m, Store(m, v, laddr, bs).value, v, laddr, bs, |bs|);
    assert bs[..|bs|] == bs;
  }

  lemma SameLength(m: seq<Byte>, v: View, laddr: nat, bs: seq<Byte>)
    ensures var n := StorePage(m, v, laddr, bs); n.Some? ==> |n.value| == |m|
  {}

  // The next page starts at offset zero.
  lemma NextPage(laddr: nat, k: nat)
    requires laddr < WORD_SIZE && k == 4096 - PageOffset(laddr)
    ensures PageOffset(Next(laddr, k)) == 0 && Next(laddr, k) < WORD_SIZE
  {
    var page := laddr / 4096;
    assert laddr + k == 4096 * (page + 1);
    PageOfWord(page + 1);
  }

  lemma PageOfWord(page: nat)
    ensures 4096 * page % WORD_SIZE % 4096 == 0
  {
    var x := 4096 * page;
    var q := x / WORD_SIZE;
    assert x % WORD_SIZE == 4096 * (page - 1048576 * q);
  }

  // The physical addresses of an access that crosses: the end of one frame, the start of another.
  lemma SplitAddresses(m: seq<Byte>, base: nat, laddr: nat, len: nat, i: nat)
    requires laddr < WORD_SIZE && len <= 4 && i < len && Crosses(Paged(base), laddr, len)
    requires Mapped(m, Paged(base), laddr, len)
    ensures var v, k := Paged(base), 4096 - PageOffset(laddr);
      && ByteMapped(m, v, laddr, i) && Translate(m, v, laddr).Some? && Translate(m, v, Next(laddr, k)).Some?
      && var a, b := Translate(m, v, laddr).value, Translate(m, v, Next(laddr, k)).value;
         AddressOf(m, v, laddr, i) == if i < k then a + i else b + i - k
  {
    hide Walk;
    var v, k := Paged(base), 4096 - PageOffset(laddr);
    assert ByteMapped(m, v, laddr, 0) && ByteMapped(m, v, laddr, i) && ByteMapped(m, v, laddr, k);
    NextWithin(laddr, 0);
    if i < k {
      SamePage(m, v, laddr, i);
    } else {
      NextPage(laddr, k);
      NextNext(laddr, k, i - k);
      SamePage(m, v, Next(laddr, k), i - k);
    }
  }

  lemma FrameOffsets(m: seq<Byte>, v: View, laddr: nat, k: nat)
    requires laddr < WORD_SIZE && k == 4096 - PageOffset(laddr)
    requires Translate(m, v, laddr).Some? && Translate(m, v, Next(laddr, k)).Some?
    ensures (Translate(m, v, laddr).value + k) % 4096 == 0 && Translate(m, v, Next(laddr, k)).value % 4096 == 0
  {
    hide Walk, Translate;
    OffsetKept(m, v, laddr);
    OffsetKept(m, v, Next(laddr, k));
    NextPage(laddr, k);
    var p := Translate(m, v, laddr).value;
    assert p + k == 4096 * (p / 4096) + 4096;
  }

  // Two patches of at most four bytes around frame boundaries do not overlap.
  lemma FramesApart(e: nat, p: nat, k: nat, n: nat)
    requires e % 4096 == 0 && p % 4096 == 0 && k <= e && k + n <= 4 && n > 0
    ensures p + n <= e - k || e <= p
  {
    assert e == 4096 * (e / 4096) && p == 4096 * (p / 4096);
    if p < e {
      assert p / 4096 < e / 4096;
    }
  }

  lemma WrittenUnique(m: seq<Byte>, n: seq<Byte>, e: seq<Byte>, v: View, laddr: nat, bs: seq<Byte>)
    requires Mapped(m, v, laddr, |bs|) && Written(m, n, v, laddr, bs) && Written(m, e, v, laddr, bs)
    ensures n == e
  {
    hide Walk, Translate, Next, ByteMapped, AddressOf;
    forall a | 0 <= a < |m|
      ensures n[a] == e[a]
    {
      if Touches(m, v, laddr, |bs|, a) {
        var i :| 0 <= i < |bs| && ByteMapped(m, v, laddr, i) && AddressOf(m, v, laddr, i) == a;
        assert ByteWritten(m, n, v, laddr, bs, i) && ByteWritten(m, e, v, laddr, bs, i);
      }
    }
  }

  // What a crossing write is meant to leave.
  function Intended(m: seq<Byte>, a: nat, lo: seq<Byte>, b: nat, hi: seq<Byte>): (n: seq<Byte>)
    requires a + |lo| <= |m| && b + |hi| <= |m|
    ensures |n| == |m|
  {
    Patch(Patch(m, a, lo), b, hi)
  }

  // The bytes of an access go to a, a + 1, ... and, from the k-th on, to b, b + 1, ...
  ghost predicate Laid(m: seq<Byte>, v: View, laddr: nat, len: nat, k: nat, a: nat, b: nat) {
    forall i :: 0 <= i < len ==> LaidAt(m, v, laddr, i, k, a, b)
  }

  ghost predicate LaidAt(m: seq<Byte>, v: View, laddr: nat, i: nat, k: nat, a: nat, b: nat) {
    ByteMapped(m, v, laddr, i) && AddressOf(m, v, laddr, i) == (if i < k then a + i else b + i - k) < |m|
  }

  lemma IntendedWritten(m: seq<Byte>, base: nat, laddr: nat, bs: seq<Byte>, a: nat, b: nat)
    requires |m| == MEM_SIZE && laddr < WORD_SIZE && |bs| <= 4 && Crosses(Paged(base), laddr, |bs|)
    requires Mapped(m, Paged(base), laddr, |bs|)
    requires var k := 4096 - PageOffset(laddr);
      Translate(m, Paged(base), laddr) == Some(a) && Translate(m, Paged(base), Next(laddr, k)) == Some(b)
    ensures var k := 4096 - PageOffset(laddr);
      a + k <= |m| && b + |bs| - k <= |m| && Written(m, Intended(m, a, bs[..k], b, bs[k..]), Paged(base), laddr, bs)
  {
    hide Walk, Translate, Next, ByteMapped, AddressOf, Mapped, Written, Intended;
    var v, k := Paged(base), 4096 - PageOffset(laddr);
    forall i | 0 <= i < |bs|
      ensures LaidAt(m, v, laddr, i, k, a, b)
    {
      SplitAddresses(m, base, laddr, |bs|, i);
      AddressBound(m, v, laddr, i);
    }
    FrameOffsets(m, v, laddr, k);
    FramesApart(a + k, b, k, |bs| - k);
    assert LaidAt(m, v, laddr, k - 1, k, a, b) && LaidAt(m, v, laddr, |bs| - 1, k, a, b);
    LaidWritten(m, v, laddr, bs, k, a, b);
  }

  lemma LaidWritten(m: seq<Byte>, v: View, laddr: nat, bs: seq<Byte>, k: nat, a: nat, b: nat)
    requires Mapped(m, v, laddr, |bs|) && Laid(m, v, laddr, |bs|, k, a, b)
    requires k <= |bs| && a + k <= |m| && b + |bs| - k <= |m| && (b + |bs| - k <= a || a + k <= b)
    ensures Written(m, Intended(m, a, bs[..k], b, bs[k..]), v, laddr, bs)
  {
    hide ByteMapped, AddressOf, Mapped;
    var n := Intended(m, a, bs[..k], b, bs[k..]);
    forall i | 0 <= i < |bs|
      ensures ByteWritten(m, n, v, laddr, bs, i)
    {
      assert LaidAt(m, v, laddr, i, k, a, b);
    }
    forall x | a <= x < a + k || b <= x < b + |bs| - k
      ensures Touches(m, v, laddr, |bs|, x)
    {
      assert LaidAt(m, v, laddr, if a <= x < a + k then x - a else x - b + k, k, a, b);
    }
  }

  lemma SamePatches(h: seq<Byte>, p: nat, q: nat, bs: seq<Byte>)
    requires p % 4096 == 0 && q % 4096 == 0 && 0 < |bs| <= 4 && p + |bs| <= |h| && q + |bs| <= |h|
    ensures Patch(h, q, bs) == Patch(h, p, bs) <==> p == q || (h[p..p + |bs|] == bs && h[q..q + |bs|] == bs)
  {
    if p != q {
      FramesApart(p, q, 0, |bs|);
      FramesApart(q, p, 0, |bs|);
      if Patch(h, q, bs) == Patch(h, p, bs) {
        forall i | 0 <= i < |bs|
          ensures h[p + i] == bs[i] && h[q + i] == bs[i]
        {
          assert Patch(h, q, bs)[p + i] == Patch(h, p, bs)[p + i];
          assert Patch(h, q, bs)[q + i] == Patch(h, p, bs)[q + i];
        }
      }
    }
  }

  /** A crossing write may hit the table entry of its own second page. It changes exactly the bytes
      that the access translated to beforehand if and only if the second page still leads to the same
      frame, or both frames hold the bytes anyway. */
  lemma SplitWrittenIff(m: seq<Byte>, base: nat, laddr: nat, bs: seq<Byte>)
    requires |m| == MEM_SIZE && laddr < WORD_SIZE && |bs| <= 4 && Crosses(Paged(base), laddr, |bs|)
    requires Mapped(m, Paged(base), laddr, |bs|) && Store(m, Paged(base), laddr, bs).Some?
    ensures var v, k := Paged(base), 4096 - PageOffset(laddr); var lo, hi, second := bs[..k], bs[k..], Next(laddr, k);
      && StorePage(m, v, laddr, lo).Some? && Translate(m, v, second).Some?
      && var h := StorePage(m, v, laddr, lo).value;
      && Translate(h, v, second).Some?
      && var p, q := Translate(m, v, second).value, Translate(h, v, second).value;
      && p + |hi| <= |h| && q + |hi| <= |h|
      && (Written(m, Store(m, v, laddr, bs).value, v, laddr, bs) <==>
          p == q || (h[p..p + |hi|] == hi && h[q..q + |hi|] == hi))
  {
    hide Walk, Translate, Next, Written, Mapped;
    var v, k := Paged(base), 4096 - PageOffset(laddr);
    var lo, hi, second := bs[..k], bs[k..], Next(laddr, k);
    SplitAddresses(m, base, laddr, |bs|, 0);
    var a, p := Translate(m, v, laddr).value, Translate(m, v, second).value;
    IntendedWritten(m, base, laddr, bs, a, p);
    var h := StorePage(m, v, laddr, lo).value;
    var q := Translate(h, v, second).value;
    FrameOffsets(m, v, laddr, k);
    NextPage(laddr, k);
    OffsetKept(h, v, second);
    SamePatches(h, p, q, hi);
    var n := Store(m, v, laddr, bs).value;
    if Written(m, n, v, laddr, bs) {
      WrittenUnique(m, n, Intended(m, a, lo, p, hi), v, laddr, bs);
    }
  }

  // ----- such a write does exist

  // A page table at 4096 that also is the frame of its page 1022; page 1023 lies at 0x2000.
  function LoopByte(i: nat): Byte {
    if i == 0 || i == 8184 || i == 8188 then 7 else if i == 1 || i == 8185 then 0x10 else if i == 8189 then 0x20 else 0
  }

  function LoopMemory(): (m: seq<Byte>)
    ensures |m| == MEM_SIZE
  {
    seq(MEM_SIZE, i requires i >= 0 => LoopByte(i))
  }

  function Word4(a: int, b: int, c: int, d: int): int { a + 256 * (b + 256 * (c + 256 * d)) }

  lemma WordOf(m: seq<Byte>, table: nat, i: nat)
    requires table + 4 * i + 4 <= |m|
    ensures var x := table + 4 * i; Entry(m, table, i) == Word4(m[x], m[x + 1], m[x + 2], m[x + 3])
  {
    var x := table + 4 * i;
    var w := m[x..x + 4];
    var w1 := w[1..];
    var w2 := w1[1..];
    var w3 := w2[1..];
    assert w3[1..] == [] && LittleEndian(w3) == w3[0];
    assert LittleEndian(w2) == w2[0] + 256 * LittleEndian(w3);
    assert LittleEndian(w1) == w1[0] + 256 * LittleEndian(w2);
    assert LittleEndian(w) == w[0] + 256 * LittleEndian(w1);
  }

  /** Four bytes from the end of page 1022 on: the first two change the entry of page 1023 from frame
      0x2000 to frame 0x12000, and the other two land there. */
  lemma SelfWriteWitness(laddr: nat, bs: seq<Byte>)
    requires laddr == 0x3f_effe && bs == [0x01, 0x00, 0xaa, 0xbb]
    ensures var m, v := LoopMemory(), Paged(0);
      && Mapped(m, v, laddr, |bs|) && Store(m, v, laddr, bs).Some?
      && !Written(m, Store(m, v, laddr, bs).value, v, laddr, bs)
  {
    var m := LoopMemory();
    LoopCrosses();
    LoopMapped(m);
    var h := LoopStore(m, bs);
    hide *;
    SplitMissed(m, 0, laddr, bs, h, 0x2000, 0x1_2000);
  }

  // One use of the equivalence: the second page has moved, and its old frame lacks the bytes.
  lemma SplitMissed(m: seq<Byte>, base: nat, laddr: nat, bs: seq<Byte>, h: seq<Byte>, p: nat, q: nat)
    requires |m| == MEM_SIZE && laddr < WORD_SIZE && |bs| <= 4 && Crosses(Paged(base), laddr, |bs|)
    requires Mapped(m, Paged(base), laddr, |bs|) && Store(m, Paged(base), laddr, bs).Some?
    requires var k := 4096 - PageOffset(laddr);
      && StorePage(m, Paged(base), laddr, bs[..k]) == Some(h) && Translate(m, Paged(base), Next(laddr, k)) == Some(p)
      && Translate(h, Paged(base), Next(laddr, k)) == Some(q) && p != q
      && p + |bs| - k <= |h| && h[p..p + |bs| - k] != bs[k..]
    ensures !Written(m, Store(m, Paged(base), laddr, bs).value, Paged(base), laddr, bs)
  {
    hide Walk, Translate, Next, Written, Mapped, StorePage, Store;
    SplitWrittenIff(m, base, laddr, bs);
  }

  lemma LoopCrosses()
    ensures Crosses(Paged(0), 0x3f_effe, 4) && PageOffset(0x3f_effe) == 4094 && Next(0x3f_effe, 2) == 0x3f_f000
  {}

  lemma LoopStore(m: seq<Byte>, bs: seq<Byte>) returns (h: seq<Byte>)
    requires m == LoopMemory() && bs == [0x01, 0x00, 0xaa, 0xbb]
    ensures Store(m, Paged(0), 0x3f_effe, bs).Some? && StorePage(m, Paged(0), 0x3f_effe, bs[..2]) == Some(h)
    ensures Translate(h, Paged(0), 0x3f_f000) == Some(0x1_2000) && |h| == MEM_SIZE && h[0x2000..0x2002] != bs[2..]
  {
    hide Walk, LoopMemory, Translate, Next, Patch, LoopByte, PageOffset;
    LoopCrosses();
    LoopMapped(m);
    h := Patch(m, 8190, [0x01, 0x00]);
    assert bs[..2] == [0x01, 0x00] && bs[2..] == [0xaa, 0xbb];
    LoopWritten(h);
  }

  lemma LoopMapped(m: seq<Byte>)
    requires m == LoopMemory()
    ensures Mapped(m, Paged(0), 0x3f_effe, 4)
    ensures Translate(m, Paged(0), 0x3f_effe) == Some(8190) && Translate(m, Paged(0), 0x3f_f000) == Some(0x2000)
  {
    LoopWalks(m);
    hide Walk, LoopMemory, Next, LoopByte;
    forall i | 0 <= i < 4
      ensures ByteMapped(m, Paged(0), 0x3f_effe, i)
    {
      NextWithin(0x3f_effe, i);
      assert i == 0 || i == 1 || i == 2 || i == 3;
    }
  }

  lemma LoopWalks(m: seq<Byte>)
    requires m == LoopMemory()
    ensures Walk(m, 0, 0x3f_effe) == Some(8190) && Walk(m, 0, 0x3f_efff) == Some(8191)
    ensures Walk(m, 0, 0x3f_f000) == Some(0x2000) && Walk(m, 0, 0x3f_f001) == Some(0x2001)
  {
    hide Entry;
    WordOf(m, 0, 0);
    WordOf(m, 4096, 1022);
    WordOf(m, 4096, 1023);
  }

  lemma LoopWritten(h: seq<Byte>)
    requires h == Patch(LoopMemory(), 8190, [0x01, 0x00])
    ensures Translate(h, Paged(0), 0x3f_f000) == Some(0x1_2000) && |h| == MEM_SIZE && h[0x2000..0x2002] != [0xaa, 0xbb]
  {
    hide Entry;
    WordOf(h, 0, 0);
    WordOf(h, 4096, 1023);
    assert h[0x2000..0x2002][0] == 0;
  }

  class Mmu {
    const mem: array<Byte>
    var base: nat // page_directory_base << 12
    var pg: bool

    ghost predicate Valid()
      reads this
    {
      mem.Length == MEM_SIZE
    }

    function CurrentView(): View
      reads this
    {
      if pg then Paged(base) else Flat
    }

    method PageTranslate(laddr: nat) returns (paddr: nat)
      requires Valid() && Walk(mem[..], base, laddr).Some?
      ensures Walk(mem[..], base, laddr) == Some(paddr)
    {
      var pdAddr := base + 4 * Dir(laddr);
      assert mem[..][pdAddr..pdAddr + 4] == mem[pdAddr..pdAddr + 4];
      var pde := HwMemRead(mem, pdAddr, 4);
      var ptAddr := FrameBase(pde) + 4 * Page(laddr);
      assert mem[..][ptAddr..ptAddr + 4] == mem[ptAddr..ptAddr + 4];
      var pte := HwMemRead(mem, ptAddr, 4);
      paddr := FrameBase(pte) + PageOffset(laddr);
    }

    /** A read returns the bytes found by translating each byte address on its own. */
    method LaddrRead(laddr: nat, len: nat) returns (data: nat)
      requires Valid() && laddr < WORD_SIZE && 1 <= len <= 4 && Mapped(mem[..], CurrentView(), laddr, len)
      ensures data == LittleEndian(Fetch(mem[..], CurrentView(), laddr, len))
      decreases len
    {
      hide Walk, LittleEndian, Fetch;
      ghost var m, v := mem[..], CurrentView();
      assert ByteMapped(m, v, laddr, 0) && ByteMapped(m, v, laddr, len - 1);
      NextWithin(laddr, 0);
      if pg {
        var offset := PageOffset(laddr);
        if offset + len > 4096 {
          var lenL := 4096 - offset;
          var lenH := len - lenL;
          FetchSplit(m, v, laddr, lenL, lenH);
          var dataL := LaddrRead(laddr, lenL);
          var dataH := LaddrRead(Next(laddr, lenL), lenH);
          ShiftedJoin(Fetch(m, v, laddr, lenL), Fetch(m, v, Next(laddr, lenL), lenH));
          data := Joined(dataL, dataH, lenL);
        } else {
          FetchWithinPage(m, v, laddr, len);
          var paddr := PageTranslate(laddr);
          assert m[paddr..paddr + len] == mem[paddr..paddr + len];
          data := HwMemRead(mem, paddr, len);
        }
      } else {
        FlatOnePage(m, laddr, len);
        FetchWithinPage(m, v, laddr, len);
        assert m[laddr..laddr + len] == mem[laddr..laddr + len];
        data := HwMemRead(mem, laddr, len);
      }
    }

    /** Whenever the program does not stop on an absent page: the bytes of each page go where it is
        translated to. Off its own table entries a write changes exactly the translated bytes, and
        reading back returns the datum. */
    method LaddrWrite(laddr: nat, len: nat, data: nat)
      requires Valid() && laddr < WORD_SIZE && 1 <= len <= 4 && data < WORD_SIZE
      requires Store(mem[..], CurrentView(), laddr, ToBytes(data, len)).Some?
      modifies mem
      ensures Some(mem[..]) == Store(old(mem[..]), CurrentView(), laddr, ToBytes(data, len))
      ensures old(Mapped(mem[..], CurrentView(), laddr, len) && Apart(mem[..], CurrentView(), laddr, len)) ==>
        && Written(old(mem[..]), mem[..], CurrentView(), laddr, ToBytes(data, len))
        && Mapped(mem[..], CurrentView(), laddr, len)
        && LittleEndian(Fetch(mem[..], CurrentView(), laddr, len)) == Low(data, len)
      decreases len
    {
      hide Walk, LittleEndian, Fetch, ToBytes, Apart, Written, Mapped;
      ghost var m, v, bytes := mem[..], CurrentView(), ToBytes(data, len);
      if pg {
        var offset := PageOffset(laddr);
        if offset + len > 4096 {
          var lenL := 4096 - offset;
          var lenH := len - lenL;
          ToBytesSplit(data, lenL, lenH);
          HalvesFit(data, lenL);
          NextPage(laddr, lenL);
          assert bytes[..lenL] == ToBytes(Low(data, lenL), lenL) && bytes[lenL..] == ToBytes(High(data, lenL), lenH);
          LaddrWrite(laddr, lenL, Low(data, lenL));
          LaddrWrite(Next(laddr, lenL), lenH, High(data, lenL));
        } else {
          var paddr := PageTranslate(laddr);
          HwMemWrite(mem, paddr, len, data);
        }
      } else {
        HwMemWrite(mem, laddr, len, data);
      }
      if Mapped(m, v, laddr, len) && Apart(m, v, laddr, len) {
        StoreWrites(m, v, laddr, bytes);
        LittleEndianToBytes(data, len);
      }
    }
  }

  lemma FlatOnePage(m: seq<Byte>, laddr: nat, len: nat)
    requires |m| == MEM_SIZE && laddr < WORD_SIZE && 1 <= len <= 4 && Mapped(m, Flat, laddr, len)
    ensures OnePage(m, Flat, laddr, len)
  {
    assert ByteMapped(m, Flat, laddr, 0) && ByteMapped(m, Flat, laddr, len - 1);
    NextWithin(laddr, len - 1);
  }

  lemma ApartHalves(m: seq<Byte>, v: View, laddr: nat, lo: nat, hi: nat)
    requires Mapped(m, v, laddr, lo + hi) && Apart(m, v, laddr, lo + hi)
    ensures Mapped(m, v, laddr, lo) && Apart(m, v, laddr, lo)
  {}

  /** After the low half is written the high half still translates as before and stays apart. */
  lemma HighHalf(m: seq<Byte>, h: seq<Byte>, v: View, laddr: nat, lo: seq<Byte>, hi: nat)
    requires Mapped(m, v, laddr, |lo| + hi) && Apart(m, v, laddr, |lo| + hi)
    requires Mapped(m, v, laddr, |lo|) && Written(m, h, v, laddr, lo)
    ensures Mapped(h, v, Next(laddr, |lo|), hi) && Apart(h, v, Next(laddr, |lo|), hi)
  {
    hide Walk, Translate, Next, Written, WalkReads, AddressOf, ByteMapped;
    var len := |lo| + hi;
    forall j | |lo| <= j < len
      ensures HalfAddress(m, h, v, laddr, |lo|, j)
    {
      HighAddress(m, h, v, laddr, lo, len, j);
    }
    forall i | 0 <= i < hi
      ensures ByteMapped(h, v, Next(laddr, |lo|), i)
    {
      assert HalfAddress(m, h, v, laddr, |lo|, |lo| + i);
    }
    forall i, j | 0 <= i < hi && 0 <= j < hi
      ensures ByteApart(h, v, Next(laddr, |lo|), i, j)
    {
      assert HalfAddress(m, h, v, laddr, |lo|, |lo| + i) && HalfAddress(m, h, v, laddr, |lo|, |lo| + j);
      assert ByteApart(m, v, laddr, |lo| + i, |lo| + j);
      WrittenStable(m, h, v, laddr, lo, len, |lo| + j);
      NextNext(laddr, |lo|, j);
    }
  }
}
