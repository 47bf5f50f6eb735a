/** The kernel's page tables: init_page, init_mm and create_video_mapping
    (kernel/src/memory/kvm.c, mm.c, vmem.c), read back through the hardware walk. */
module PageTables {
  import opened Bytes
  import opened Memory
  import opened Paging
  import opened Words

  const PHY_MEM := 128 * 1024 * 1024
  const KOFFSET := 0xC000_0000
  const PT_SIZE := 0x40_0000
  const VMEM_ADDR := 0xa_0000
  const SCR_SIZE := 320 * 200

  // An entry that maps its frame: present, writable, user.
  function MakeEntry(addr: nat): nat { addr / 4096 * 4096 + 7 }

  // ----- the maps the tables are meant to realise

  function KernelMap(va: nat): Option<nat> {
    if va < PHY_MEM then Some(va)
    else if KOFFSET <= va < KOFFSET + PHY_MEM then Some(va - KOFFSET)
    else None
  }

  function HighMap(va: nat): Option<nat> {
    if KOFFSET <= va < KOFFSET + PHY_MEM then Some(va - KOFFSET) else None
  }

  // Sixteen identity pages cover the frame buffer.
  function UserMap(va: nat): Option<nat> {
    if VMEM_ADDR <= va < VMEM_ADDR + 16 * 4096 then Some(va) else HighMap(va)
  }

  ghost predicate Realises(m: seq<Byte>, dir: nat, f: nat -> Option<nat>) {
    forall va :: 0 <= va < WORD_SIZE ==> Walk(m, dir, va) == f(va)
  }

  // ----- table contents

  // Where the linker put the four statically allocated tables.
  datatype Layout = Layout(kpdir: nat, kptable: nat, updir: nat, vptable: nat)

  predicate Apart4(l: Layout) {
    && l.kpdir % 4096 == 0 && l.kptable % 4096 == 0 && l.updir % 4096 == 0 && l.vptable % 4096 == 0
    && l.kpdir + 4096 <= MEM_SIZE && l.kptable + 0x2_0000 <= MEM_SIZE
    && l.updir + 4096 <= MEM_SIZE && l.vptable + 4096 <= MEM_SIZE
    && Separate(l.kpdir, 4096, l.kptable, 0x2_0000) && Separate(l.kpdir, 4096, l.updir, 4096)
    && Separate(l.kpdir, 4096, l.vptable, 4096) && Separate(l.updir, 4096, l.kptable, 0x2_0000)
    && Separate(l.vptable, 4096, l.kptable, 0x2_0000) && Separate(l.updir, 4096, l.vptable, 4096)
  }

  lemma PartApart(a: nat, n: nat, b: nat, k: nat, from: nat, len: nat)
    requires Separate(a, n, b, k) || Separate(b, k, a, n)
    requires a <= from && from + len <= a + n
    ensures Separate(from, len, b, k)
  {}

  lemma PageSlot(table: nat, i: nat)
    requires table % 4096 == 0 && table + 4 * i + 4 <= MEM_SIZE
    ensures Slot(table, i)
  {
    assert table == 4 * (1024 * (table / 4096));
  }

  predicate Separate(a: nat, n: nat, b: nat, k: nat) { a + n <= b || b + k <= a }

  // Entries that start outside [from, from + n) are untouched.
  ghost predicate Kept(m: seq<Byte>, k: seq<Byte>, from: nat, n: nat)
    requires |m| == MEM_SIZE && |k| == MEM_SIZE
  {
    forall t: nat, j: nat :: Slot(t, j) && !(from <= t + 4 * j < from + n) ==> Entry(k, t, j) == Entry(m, t, j)
  }

  predicate Slot(table: nat, i: nat) { table % 4 == 0 && table + 4 * i + 4 <= MEM_SIZE }

  // The directory after p of the 32 outer iterations.
  function DirAfter(l: Layout, p: nat, i: nat): nat {
    if i < p then MakeEntry(l.kptable + 4096 * i)
    else if 768 <= i < 768 + p then MakeEntry(l.kptable + 4096 * (i - 768))
    else 0
  }

  ghost predicate KernelDir(m: seq<Byte>, l: Layout, p: nat)
    requires |m| == MEM_SIZE && Apart4(l)
  {
    forall i :: 0 <= i < 1024 ==> Entry(m, l.kpdir, i) == DirAfter(l, p, i)
  }

  ghost predicate KernelTable(m: seq<Byte>, l: Layout, n: nat)
    requires |m| == MEM_SIZE && Apart4(l) && n <= 32768
  {
    forall k :: 0 <= k < n ==> Entry(m, l.kptable, k) == MakeEntry(k * 4096)
  }

  lemma TableFits(l: Layout, p: nat)
    requires Apart4(l) && p < 32
    ensures MakeEntry(l.kptable + 4096 * p) < WORD_SIZE
  {}

  lemma KernelDirKept(m: seq<Byte>, k: seq<Byte>, l: Layout, p: nat, from: nat, n: nat)
    requires |m| == MEM_SIZE && |k| == MEM_SIZE && Apart4(l) && KernelDir(m, l, p)
    requires Kept(m, k, from, n) && Separate(from, n, l.kpdir, 4096)
    ensures KernelDir(k, l, p)
  {
    hide Entry, DirAfter, Slot;
    forall i | 0 <= i < 1024
      ensures Entry(k, l.kpdir, i) == DirAfter(l, p, i)
    {
      DirApart(l, i);
    }
  }

  lemma KernelTableKept(m: seq<Byte>, k: seq<Byte>, l: Layout, slots: nat, from: nat, n: nat)
    requires |m| == MEM_SIZE && |k| == MEM_SIZE && Apart4(l) && slots <= 32768 && KernelTable(m, l, slots)
    requires Kept(m, k, from, n) && (Separate(from, n, l.kptable, 4 * slots) || Separate(from, n, l.kptable, 0x2_0000))
    ensures KernelTable(k, l, slots)
  {
    hide Entry, MakeEntry, Slot;
    forall i | 0 <= i < slots
      ensures Entry(k, l.kptable, i) == MakeEntry(i * 4096)
    {
      PageSlot(l.kptable, i);
    }
  }

  lemma SlotApart(l: Layout, slot: nat)
    requires Apart4(l) && slot < 32768
    ensures Slot(l.kptable, slot)
    ensures var at := l.kptable + 4 * slot;
      Separate(at, 4, l.kpdir, 4096) && Separate(at, 4, l.kptable, 4 * slot) && Separate(at, 4, l.vptable, 4096)
  {
    hide Separate, Slot;
    var at := l.kptable + 4 * slot;
    PageSlot(l.kptable, slot);
    PartApart(l.kptable, 0x2_0000, l.kpdir, 4096, at, 4);
    PartApart(l.kptable, 0x2_0000, l.vptable, 4096, at, 4);
    AfterPart(at, 4, l.kptable, 4 * slot);
  }

  lemma AfterPart(a: nat, n: nat, b: nat, k: nat)
    requires b + k <= a
    ensures Separate(a, n, b, k)
  {}

  lemma DirApart(l: Layout, i: nat)
    requires Apart4(l) && i < 1024
    ensures Slot(l.kpdir, i) && Slot(l.updir, i)
    ensures var at := l.kpdir + 4 * i;
      Separate(at, 4, l.kptable, 0x2_0000) && Separate(at, 4, l.vptable, 4096)
    ensures var at := l.updir + 4 * i;
      Separate(at, 4, l.kpdir, 4096) && Separate(at, 4, l.kptable, 0x2_0000) && Separate(at, 4, l.vptable, 4096)
  {
    hide Separate, Slot;
    PageSlot(l.kpdir, i);
    PageSlot(l.updir, i);
    PartApart(l.kpdir, 4096, l.kptable, 0x2_0000, l.kpdir + 4 * i, 4);
    PartApart(l.kpdir, 4096, l.vptable, 4096, l.kpdir + 4 * i, 4);
    PartApart(l.updir, 4096, l.kpdir, 4096, l.updir + 4 * i, 4);
    PartApart(l.updir, 4096, l.kptable, 0x2_0000, l.updir + 4 * i, 4);
    PartApart(l.updir, 4096, l.vptable, 4096, l.updir + 4 * i, 4);
  }

  lemma KernelTableStep(m: seq<Byte>, l: Layout, slots: nat)
    requires |m| == MEM_SIZE && Apart4(l) && slots < 32768 && KernelTable(m, l, slots)
    requires Entry(m, l.kptable, slots) == MakeEntry(slots * 4096)
    ensures KernelTable(m, l, slots + 1)
  {
    hide Entry, MakeEntry;
  }

  lemma VideoKept(m: seq<Byte>, k: seq<Byte>, l: Layout, from: nat, n: nat)
    requires |m| == MEM_SIZE && |k| == MEM_SIZE && Apart4(l)
    requires Kept(m, k, from, n) && Separate(from, n, l.vptable, 4096)
    ensures VideoTableKept(m, k, l)
  {
    hide Entry, Slot;
    forall i | 0 <= i < 1024
      ensures Entry(k, l.vptable, i) == Entry(m, l.vptable, i)
    {
      PageSlot(l.vptable, i);
    }
  }

  lemma DirStep(m: seq<Byte>, k: seq<Byte>, n: seq<Byte>, l: Layout, p: nat)
    requires |m| == MEM_SIZE && |k| == MEM_SIZE && |n| == MEM_SIZE && Apart4(l) && p < 32 && KernelDir(m, l, p)
    requires Kept(m, k, l.kpdir + 4 * p, 4) && Kept(k, n, l.kpdir + 4 * (p + 768), 4)
    requires Entry(k, l.kpdir, p) == MakeEntry(l.kptable + 4096 * p)
    requires Entry(n, l.kpdir, p + 768) == MakeEntry(l.kptable + 4096 * p)
    ensures KernelDir(n, l, p + 1)
  {
    hide Entry, MakeEntry, Slot;
    forall i | 0 <= i < 1024
      ensures Entry(n, l.kpdir, i) == DirAfter(l, p + 1, i)
    {
      DirApart(l, i);
      assert Entry(m, l.kpdir, i) == DirAfter(l, p, i);
    }
  }

  lemma EntryShift(m: seq<Byte>, table: nat, k: nat, i: nat)
    requires table + 4 * k + 4 * i + 4 <= |m|
    ensures Entry(m, table + 4 * k, i) == Entry(m, table, k + i)
  {
    assert table + 4 * k + 4 * i == table + 4 * (k + i);
  }

  lemma EntryFields(addr: nat)
    requires addr % 4096 == 0
    ensures MakeEntry(addr) == addr + 7 && Present(MakeEntry(addr)) && FrameBase(MakeEntry(addr)) == addr
  {}

  lemma AddressFields(va: nat)
    requires va < WORD_SIZE
    ensures Dir(va) < 1024 && Page(va) < 1024
    ensures va == (Dir(va) * 1024 + Page(va)) * 4096 + PageOffset(va)
    ensures Dir(va) < 32 <==> va < PHY_MEM
    ensures 768 <= Dir(va) < 800 <==> KOFFSET <= va < KOFFSET + PHY_MEM
  {
    var page := va / 4096;
    assert va == page * 4096 + PageOffset(va);
    assert page / 1024 == Dir(va);
  }

  lemma KernelWalk(m: seq<Byte>, l: Layout, va: nat)
    requires |m| == MEM_SIZE && Apart4(l) && KernelDir(m, l, 32) && KernelTable(m, l, 32768)
    requires va < WORD_SIZE
    ensures Walk(m, l.kpdir, va) == KernelMap(va)
  {
    AddressFields(va);
    var d := Dir(va);
    assert Entry(m, l.kpdir, d) == DirAfter(l, 32, d);
    if d < 32 || 768 <= d < 800 {
      var p := if d < 32 then d else d - 768;
      TableWalk(m, l, l.kpdir, p, va);
    }
  }

  // One present directory entry leads to the frame with the same number as the table slot.
  lemma TableWalk(m: seq<Byte>, l: Layout, dir: nat, p: nat, va: nat)
    requires |m| == MEM_SIZE && Apart4(l) && KernelTable(m, l, 32768)
    requires p < 32 && va < WORD_SIZE && dir + 4096 <= MEM_SIZE && Dir(va) < 1024
    requires Entry(m, dir, Dir(va)) == MakeEntry(l.kptable + 4096 * p)
    ensures Walk(m, dir, va) == Some((p * 1024 + Page(va)) * 4096 + PageOffset(va))
  {
    hide Entry;
    AddressFields(va);
    EntryFields(l.kptable + 4096 * p);
    EntryShift(m, l.kptable, 1024 * p, Page(va));
    EntryFields((1024 * p + Page(va)) * 4096);
    assert Entry(m, l.kptable, 1024 * p + Page(va)) == MakeEntry((1024 * p + Page(va)) * 4096);
  }

  // ----- the code

  // Two slots are the same or do not overlap.
  lemma EntryElsewhere(m: seq<Byte>, k: seq<Byte>, at: nat, t: nat, j: nat)
    requires |m| == MEM_SIZE && |k| == MEM_SIZE && at % 4 == 0 && at + 4 <= MEM_SIZE
    requires Slot(t, j) && !(at <= t + 4 * j < at + 4)
    requires forall a :: 0 <= a < MEM_SIZE && !(at <= a < at + 4) ==> k[a] == m[a]
    ensures Entry(k, t, j) == Entry(m, t, j)
  {
    hide LittleEndian;
    var from := t + 4 * j;
    SlotAligned(t, j);
    WordsApart(from, at);
    SameBytes(m, k, from, at);
  }

  lemma SlotAligned(t: nat, j: nat)
    requires Slot(t, j)
    ensures (t + 4 * j) % 4 == 0
  {}

  lemma WordsApart(a: nat, b: nat)
    requires a % 4 == 0 && b % 4 == 0 && !(b <= a < b + 4)
    ensures a + 4 <= b || b + 4 <= a
  {}

  lemma SameBytes(m: seq<Byte>, k: seq<Byte>, from: nat, at: nat)
    requires |m| == |k| && from + 4 <= |m| && (from + 4 <= at || at + 4 <= from)
    requires forall a :: 0 <= a < |m| && !(at <= a < at + 4) ==> k[a] == m[a]
    ensures k[from..from + 4] == m[from..from + 4]
  {}

  // Memory after one store.
  function Stored(m: seq<Byte>, s: PageStore): (k: seq<Byte>)
    requires s.table + 4 * s.slot + 4 <= |m|
    ensures |k| == |m|
  {
    Patch(m, s.table + 4 * s.slot, ToBytes(s.word, 4))
  }

  lemma StoredEntry(m: seq<Byte>, s: PageStore)
    requires |m| == MEM_SIZE && Slot(s.table, s.slot) && s.word < WORD_SIZE
    ensures Entry(Stored(m, s), s.table, s.slot) == s.word
    ensures Kept(m, Stored(m, s), s.table + 4 * s.slot, 4)
  {
    hide LittleEndian, ToBytes;
    var k, at := Stored(m, s), s.table + 4 * s.slot;
    assert k[at..at + 4] == ToBytes(s.word, 4);
    LittleEndianToBytes(s.word, 4);
    Powers();
    forall t: nat, j: nat | Slot(t, j) && !(at <= t + 4 * j < at + 4)
      ensures Entry(k, t, j) == Entry(m, t, j)
    {
      EntryElsewhere(m, k, at, t, j);
    }
  }

  predicate Storable(s: PageStore) { Slot(s.table, s.slot) && s.word < WORD_SIZE }

  ghost predicate AllStorable(stores: seq<PageStore>) { forall s :: s in stores ==> Storable(s) }

  /** Memory after stores, the last one last. */
  ghost function AllStored(m: seq<Byte>, stores: seq<PageStore>): (k: seq<Byte>)
    requires |m| == MEM_SIZE && AllStorable(stores)
    ensures |k| == MEM_SIZE
    decreases |stores|
  {
    if stores == [] then m
    else
      var last := stores[|stores| - 1];
      assert last in stores && Storable(last);
      Stored(AllStored(m, stores[..|stores| - 1]), last)
  }

  // The word that the last of the stores to this address leaves, w without any.
  function LastWord(stores: seq<PageStore>, at: nat, w: nat): nat
    decreases |stores|
  {
    if stores == [] then w
    else
      var last := stores[|stores| - 1];
      if last.table + 4 * last.slot == at then last.word else LastWord(stores[..|stores| - 1], at, w)
  }

  /** After any stores every entry of every table holds the last word stored there, or what it held. */
  lemma {:induction false} EntryAfterStores(m: seq<Byte>, stores: seq<PageStore>, t: nat, j: nat)
    requires |m| == MEM_SIZE && Slot(t, j) && AllStorable(stores)
    ensures Entry(AllStored(m, stores), t, j) == LastWord(stores, t + 4 * j, Entry(m, t, j))
    decreases |stores|
  {
    hide Entry, Stored, Slot;
    if stores != [] {
      var last, k := stores[|stores| - 1], AllStored(m, stores[..|stores| - 1]);
      assert last in stores && Storable(last);
      StoreFits(last);
      StoredEntry(k, last);
      EntryAfterStores(m, stores[..|stores| - 1], t, j);
      var at := last.table + 4 * last.slot;
      if at == t + 4 * j {
        SameSlot(Stored(k, last), last.table, last.slot, t, j);
      } else {
        SlotAligned(t, j);
        SlotAligned(last.table, last.slot);
        WordsApart(t + 4 * j, at);
      }
    }
  }

  lemma StoreFits(s: PageStore)
    requires Storable(s)
    ensures s.table + 4 * s.slot + 4 <= MEM_SIZE
  {}

  lemma SameSlot(m: seq<Byte>, t: nat, j: nat, t': nat, j': nat)
    requires t + 4 * j == t' + 4 * j' && t + 4 * j + 4 <= |m|
    ensures Entry(m, t, j) == Entry(m, t', j')
  {}

  // Clearing ten low bits of a page address, and then twelve, leaves it.
  lemma BaseOf(a: nat)
    requires a % 4096 == 0
    ensures a / 1024 * 1024 / 4096 * 4096 == a
  {
    assert a == 4096 * (a / 4096);
    assert a / 1024 == 4 * (a / 4096);
  }

  class Kernel {
    const mem: array<Byte>
    const l: Layout
    var cr3: nat // page_directory_base << 12
    var ucr3: nat
    var pg: bool

    ghost predicate Valid()
      reads this
    {
      mem.Length == MEM_SIZE && Apart4(l)
    }

    method StoreEntry(table: nat, i: nat, w: nat)
      requires Valid() && Slot(table, i) && w < WORD_SIZE
      modifies mem
      ensures Entry(mem[..], table, i) == w
      ensures Kept(old(mem[..]), mem[..], table + 4 * i, 4)
      ensures mem[..] == Stored(old(mem[..]), PageStore(table, i, w))
    {
      hide LittleEndian, ToBytes, Entry, Kept;
      StoredEntry(mem[..], PageStore(table, i, w));
      HwMemWrite(mem, table + 4 * i, 4, w);
    }

    // memset(table, 0, 4096)
    method ClearTable(table: nat)
      requires Valid() && table % 4 == 0 && table + 4096 <= MEM_SIZE
      modifies mem
      ensures forall i :: 0 <= i < 1024 ==> Entry(mem[..], table, i) == 0
      ensures Kept(old(mem[..]), mem[..], table, 4096)
    {
      hide Entry;
      for i := 0 to 1024
        invariant forall k :: 0 <= k < i ==> Entry(mem[..], table, k) == 0
        invariant Kept(old(mem[..]), mem[..], table, 4096)
      {
        StoreEntry(table, i, 0);
      }
    }

    method InitPage()
      requires Valid()
      modifies this, mem
      ensures cr3 == l.kpdir && pg && ucr3 == old(ucr3)
      ensures KernelDir(mem[..], l, 32) && KernelTable(mem[..], l, 32768)
      ensures Realises(mem[..], cr3, KernelMap)
      ensures TablesOnly(old(mem[..]), mem[..], l)
    {
      hide Entry, Walk, KernelDir, KernelTable, Kept, Apart4, KernelMap;
      StartTables(l);
      ghost var m := mem[..];
      ClearTable(l.kpdir);
      EmptyKernelDir(mem[..], l);
      TablesKept(m, mem[..], l, l.kpdir, 4096);
      var frame, slot := 0, 0; // slot is the pointer that moves through kptable
      for p := 0 to PHY_MEM / PT_SIZE
        modifies mem
        invariant frame == 1024 * p && slot == 1024 * p
        invariant KernelDir(mem[..], l, p) && KernelTable(mem[..], l, slot)
        invariant TablesOnly(old(mem[..]), mem[..], l)
      {
        FillDirectory(p, slot);
        for q := 0 to 1024
          modifies mem
          invariant frame == 1024 * p + q && slot == 1024 * p + q
          invariant KernelDir(mem[..], l, p + 1) && KernelTable(mem[..], l, slot)
          invariant TablesOnly(old(mem[..]), mem[..], l)
        {
          FillSlot(p + 1, slot, frame);
          frame := frame + 1;
          slot := slot + 1;
        }
      }
      cr3 := l.kpdir / 4096 * 4096;
      pg := true;
      forall va | 0 <= va < WORD_SIZE
        ensures Walk(mem[..], cr3, va) == KernelMap(va)
      {
        KernelWalk(mem[..], l, va);
      }
    }

    // The two directory entries of one iteration: identity and high half.
    method FillDirectory(p: nat, slot: nat)
      requires Valid() && p < 32 && slot == 1024 * p
      requires KernelDir(mem[..], l, p) && KernelTable(mem[..], l, slot)
      modifies mem
      ensures KernelDir(mem[..], l, p + 1) && KernelTable(mem[..], l, slot)
      ensures TablesOnly(old(mem[..]), mem[..], l)
    {
      hide Entry, MakeEntry, KernelDir, KernelTable, Apart4, Separate, Slot, Kept;
      DirApart(l, p);
      DirApart(l, p + 768);
      TableFits(l, p);
      var table := l.kptable + 4 * slot;
      ghost var m := mem[..];
      StoreEntry(l.kpdir, p, MakeEntry(table));
      ghost var k := mem[..];
      StoreEntry(l.kpdir, p + KOFFSET / PT_SIZE, MakeEntry(table));
      DirStep(m, k, mem[..], l, p);
      KernelTableKept(m, k, l, slot, l.kpdir + 4 * p, 4);
      KernelTableKept(k, mem[..], l, slot, l.kpdir + 4 * (p + 768), 4);
      TablesKept(m, k, l, l.kpdir + 4 * p, 4);
      TablesKept(k, mem[..], l, l.kpdir + 4 * (p + 768), 4);
    }

    method FillSlot(p: nat, slot: nat, frame: nat)
      requires Valid() && p <= 32 && slot == frame < 32768
      requires KernelDir(mem[..], l, p) && KernelTable(mem[..], l, slot)
      modifies mem
      ensures KernelDir(mem[..], l, p) && KernelTable(mem[..], l, slot + 1)
      ensures TablesOnly(old(mem[..]), mem[..], l)
    {
      hide Entry, MakeEntry, KernelDir, KernelTable, TablesOnly, Kept, Apart4, Separate, Slot;
      EntryFields(frame * 4096);
      SlotApart(l, slot);
      ghost var m, at := mem[..], l.kptable + 4 * slot;
      StoreEntry(l.kptable, slot, MakeEntry(frame * 4096));
      KernelDirKept(m, mem[..], l, p, at, 4);
      KernelTableKept(m, mem[..], l, slot, at, 4);
      KernelTableStep(mem[..], l, slot);
      TablesKept(m, mem[..], l, at, 4);
    }

    /** The user directory keeps exactly the kernel's high half. */
    method InitMm()
      requires Valid() && KernelDir(mem[..], l, 32) && KernelTable(mem[..], l, 32768)
      modifies this, mem
      ensures KernelDir(mem[..], l, 32) && KernelTable(mem[..], l, 32768) && UserDir(mem[..], l)
      ensures TablesOnly(old(mem[..]), mem[..], l)
      ensures cr3 == old(cr3) && pg == old(pg) && ucr3 / 4096 * 4096 == l.updir
      ensures Realises(mem[..], l.kpdir, KernelMap) && Realises(mem[..], l.updir, HighMap)
    {
      hide Entry, Walk, KernelDir, KernelTable, UserDir, DirAfter, TablesOnly, Separate, KernelMap, HighMap;
      CopyHighHalf();
      ucr3 := l.updir / 1024 * 1024;
      BaseOf(l.updir);
      forall va | 0 <= va < WORD_SIZE
        ensures Walk(mem[..], l.kpdir, va) == KernelMap(va) && Walk(mem[..], l.updir, va) == HighMap(va)
      {
        KernelWalk(mem[..], l, va);
        HighWalk(mem[..], l, va);
      }
    }

    method CopyHighHalf()
      requires Valid() && KernelDir(mem[..], l, 32) && KernelTable(mem[..], l, 32768)
      modifies mem
      ensures KernelDir(mem[..], l, 32) && KernelTable(mem[..], l, 32768) && UserDir(mem[..], l)
      ensures TablesOnly(old(mem[..]), mem[..], l)
    {
      hide Entry, KernelDir, KernelTable, UserDirAfter, DirAfter, Kept, Separate, Slot, TablesOnly;
      ghost var m := mem[..];
      ClearTable(l.updir);
      UserKeeps(m, mem[..], l, l.updir, 4096);
      EmptyUserDir(mem[..], l);
      for i := 0 to PHY_MEM / PT_SIZE
        modifies mem
        invariant KernelDir(mem[..], l, 32) && KernelTable(mem[..], l, 32768)
        invariant TablesOnly(old(mem[..]), mem[..], l)
        invariant UserDirAfter(mem[..], l, i)
      {
        CopyEntry(m, i);
      }
    }

    // One of the copied entries.
    method CopyEntry(ghost m: seq<Byte>, i: nat)
      requires Valid() && i < 32 && |m| == MEM_SIZE
      requires KernelDir(mem[..], l, 32) && KernelTable(mem[..], l, 32768)
      requires TablesOnly(m, mem[..], l) && UserDirAfter(mem[..], l, i)
      modifies mem
      ensures KernelDir(mem[..], l, 32) && KernelTable(mem[..], l, 32768)
      ensures TablesOnly(m, mem[..], l) && UserDirAfter(mem[..], l, i + 1)
    {
      hide Entry, KernelDir, KernelTable, UserDirAfter, DirAfter, Kept, Separate, Slot, TablesOnly;
      ghost var k := mem[..];
      DirEntryFits(k, l, 768 + i);
      DirApart(l, 768 + i);
      StoreEntry(l.updir, KOFFSET / PT_SIZE + i, ReadEntry(l.kpdir, KOFFSET / PT_SIZE + i));
      UserKeeps(k, mem[..], l, l.updir + 4 * (768 + i), 4);
      TablesOnlyOn(m, k, mem[..], l);
      UserDirStep(k, mem[..], l, i);
    }

    function ReadEntry(table: nat, i: nat): nat
      requires Valid() && Slot(table, i)
      reads this, mem
    {
      Entry(mem[..], table, i)
    }

    /** Whatever the directory maps by now, the frame buffer appears at its own address, the other
        pages below 4MB are lost, and every address from 4MB on is translated as before. */
    method CreateVideoMapping()
      requires Valid() && VideoTable(mem[..], l, 160) && OthersApart(mem[..], l)
      modifies mem
      ensures forall va :: 0 <= va < WORD_SIZE ==>
        Walk(mem[..], l.updir, va) == if Dir(va) == 0 then VideoPage(va) else Walk(old(mem[..]), l.updir, va)
      ensures old(KernelDir(mem[..], l, 32)) ==> KernelDir(mem[..], l, 32)
      ensures old(KernelTable(mem[..], l, 32768)) ==> KernelTable(mem[..], l, 32768)
      ensures old(UserDir(mem[..], l) && KernelTable(mem[..], l, 32768)) ==> Realises(mem[..], l.updir, UserMap)
    {
      hide Entry, Walk, KernelDir, KernelTable, UserDir, Kept, MakeEntry, Apart4, Slot, UserMap, Separate;
      hide OutsideKept, OthersApart, VideoTable, HighMap, VideoPage, VideoDir;
      ghost var m := mem[..];
      DirApart(l, 0);
      VideoFits(l, 160);
      StoreEntry(l.updir, VMEM_ADDR / PT_SIZE, MakeEntry(l.vptable));
      VideoStart(m, mem[..], l);
      var slot, frame := VMEM_ADDR / 4096, VMEM_ADDR;
      while frame < VMEM_ADDR + SCR_SIZE
        invariant frame == slot * 4096 && 160 <= slot <= 176
        invariant OutsideKept(m, mem[..], l) && VideoTable(mem[..], l, slot)
        invariant VideoDir(mem[..], l)
      {
        ghost var k := mem[..];
        VideoFits(l, slot);
        StoreEntry(l.vptable, slot, MakeEntry(frame));
        VideoStep(m, k, mem[..], l, slot);
        slot := slot + 1;
        frame := frame + 4096;
      }
      forall va | 0 <= va < WORD_SIZE
        ensures Walk(mem[..], l.updir, va) == if Dir(va) == 0 then VideoPage(va) else Walk(m, l.updir, va)
        ensures UserDir(m, l) && KernelTable(m, l, 32768) ==> Walk(mem[..], l.updir, va) == UserMap(va)
      {
        VideoWalk(m, mem[..], l, va);
        VideoOrHigh(va);
        if UserDir(m, l) && KernelTable(m, l, 32768) {
          HighWalk(m, l, va);
        }
      }
      OutsideKernel(m, mem[..], l);
    }

    /** What page allocation for the user may store: entries of the directory below the high half,
        for tables apart from the directory and the frame buffer's, and words outside all four. */
    ghost predicate MayStore(s: PageStore)
      reads this
      requires Valid()
    {
      || (s.table == l.updir && s.slot < 768 && (Present(s.word) ==> TableApart(FrameBase(s.word), l)))
      || WordApart(s.table + 4 * s.slot, l)
    }

    // mm_malloc, not part of this model, as any stores that it may make.
    method Allocate(stores: seq<PageStore>)
      requires Valid() && AllStorable(stores) && forall s :: s in stores ==> MayStore(s)
      requires UserState(mem[..], l)
      modifies mem
      ensures UserState(mem[..], l) && mem[..] == AllStored(old(mem[..]), stores)
    {
      hide Entry, UserState, Slot, WordApart, TableApart, Stored, Kept;
      ghost var m0 := mem[..];
      for i := 0 to |stores|
        invariant UserState(mem[..], l) && mem[..] == AllStored(m0, stores[..i])
      {
        assert stores[i] in stores;
        ghost var m := mem[..];
        StoreEntry(stores[i].table, stores[i].slot, stores[i].word);
        AllocateStep(m, mem[..], l, stores[i]);
        assert stores[..i + 1][..i] == stores[..i] && stores[..i + 1][i] == stores[i];
      }
      assert stores[..|stores|] == stores;
    }

    /** The boot sequence: paging, the user directory, the program's pages, the frame buffer. Before
        the pages are stored, the tables are those of the kernel and all other memory is as it was.
        In the end the kernel keeps its map; the user sees the frame buffer below 4MB, the program's
        pages as exactly these stores left them, and the kernel's high half. */
    method Boot(stores: seq<PageStore>) returns (ghost start: seq<Byte>)
      requires Valid() && VideoTable(mem[..], l, 160)
      requires AllStorable(stores) && forall s :: s in stores ==> MayStore(s)
      modifies this, mem
      ensures pg && Realises(mem[..], cr3, KernelMap)
      ensures |start| == MEM_SIZE && TablesOnly(old(mem[..]), start, l)
      ensures KernelDir(start, l, 32) && KernelTable(start, l, 32768) && UserDir(start, l)
      ensures forall va :: 0 <= va < WORD_SIZE ==>
        Walk(mem[..], ucr3 / 4096 * 4096, va) ==
          if Dir(va) == 0 then VideoPage(va)
          else if Dir(va) >= 768 then HighMap(va)
          else Walk(AllStored(start, stores), ucr3 / 4096 * 4096, va)
    {
      hide Entry, Walk, KernelDir, KernelTable, UserDir, VideoTable, OthersApart, HighDir, HighMap, VideoPage;
      hide Separate, Slot, WordApart, TableApart, KernelMap, AllStored, TablesOnly, VideoTableKept;
      InitPage();
      ghost var paged := mem[..];
      InitMm();
      start := mem[..];
      TablesOnlyOn(old(mem[..]), paged, start, l);
      VideoOutside(old(mem[..]), start, l);
      VideoTableStill(old(mem[..]), start, l);
      UserStarts(start, l);
      Allocate(stores);
      ghost var before := mem[..];
      CreateVideoMapping();
      forall va | 0 <= va < WORD_SIZE
        ensures Walk(mem[..], l.kpdir, va) == KernelMap(va)
        ensures Dir(va) >= 768 ==> Walk(before, l.updir, va) == HighMap(va)
      {
        KernelWalk(mem[..], l, va);
        if Dir(va) >= 768 {
          UpperWalk(before, l, va);
        }
      }
    }
  }

  datatype PageStore = PageStore(table: nat, slot: nat, word: nat)

  // A page table that shares no byte with the user directory and the frame buffer's table.
  predicate TableApart(base: nat, l: Layout) {
    Separate(base, 4096, l.updir, 4096) && Separate(base, 4096, l.vptable, 4096)
  }

  predicate WordApart(at: nat, l: Layout) {
    && Separate(at, 4, l.updir, 4096) && Separate(at, 4, l.vptable, 4096)
    && Separate(at, 4, l.kpdir, 4096) && Separate(at, 4, l.kptable, 0x2_0000)
  }

  /** The page tables of all present directory entries but the first. */
  ghost predicate OthersApart(m: seq<Byte>, l: Layout)
    requires |m| == MEM_SIZE && Apart4(l)
  {
    forall d :: 1 <= d < 1024 ==> EntryApart(Entry(m, l.updir, d), l)
  }

  predicate EntryApart(entry: nat, l: Layout) { Present(entry) ==> TableApart(FrameBase(entry), l) }

  function VideoPage(va: nat): Option<nat> {
    if VMEM_ADDR <= va < VMEM_ADDR + 16 * 4096 then Some(va) else None
  }

  lemma VideoOrHigh(va: nat)
    requires va < WORD_SIZE
    ensures UserMap(va) == if Dir(va) == 0 then VideoPage(va) else HighMap(va)
  {
    AddressFields(va);
  }

  // Only the first directory entry and the frame buffer's table have changed.
  ghost predicate OutsideKept(m: seq<Byte>, k: seq<Byte>, l: Layout)
    requires |m| == MEM_SIZE && |k| == MEM_SIZE && Apart4(l)
  {
    forall t: nat, j: nat ::
      Slot(t, j) && Separate(t + 4 * j, 4, l.updir, 4) && Separate(t + 4 * j, 4, l.vptable, 4096) ==>
        Entry(k, t, j) == Entry(m, t, j)
  }

  predicate VideoDir(m: seq<Byte>, l: Layout)
    requires |m| == MEM_SIZE && Apart4(l)
  {
    Entry(m, l.updir, 0) == MakeEntry(l.vptable)
  }

  lemma VideoStart(m: seq<Byte>, k: seq<Byte>, l: Layout)
    requires |m| == MEM_SIZE && |k| == MEM_SIZE && Apart4(l) && VideoTable(m, l, 160) && Kept(m, k, l.updir, 4)
    requires Entry(k, l.updir, 0) == MakeEntry(l.vptable)
    ensures OutsideKept(m, k, l) && VideoTable(k, l, 160) && VideoDir(k, l)
  {
    hide Entry, MakeEntry, Slot;
    PartApart(l.updir, 4096, l.vptable, 4096, l.updir, 4);
    VideoKept(m, k, l, l.updir, 4);
  }

  lemma VideoStep(m: seq<Byte>, k: seq<Byte>, n: seq<Byte>, l: Layout, slot: nat)
    requires |m| == MEM_SIZE && |k| == MEM_SIZE && |n| == MEM_SIZE && Apart4(l) && 160 <= slot < 176
    requires OutsideKept(m, k, l) && VideoTable(k, l, slot)
    requires Kept(k, n, l.vptable + 4 * slot, 4) && Entry(n, l.vptable, slot) == MakeEntry(slot * 4096)
    ensures OutsideKept(m, n, l) && VideoTable(n, l, slot + 1)
    ensures VideoDir(k, l) ==> VideoDir(n, l)
  {
    hide Entry, MakeEntry, Slot;
    forall j | 0 <= j < 1024 && j != slot
      ensures Entry(n, l.vptable, j) == Entry(k, l.vptable, j)
    {
      PageSlot(l.vptable, j);
    }
    PageSlot(l.updir, 0);
  }

  /** One address after the whole mapping. */
  lemma VideoWalk(m: seq<Byte>, k: seq<Byte>, l: Layout, va: nat)
    requires |m| == MEM_SIZE && |k| == MEM_SIZE && Apart4(l) && va < WORD_SIZE
    requires OutsideKept(m, k, l) && OthersApart(m, l) && VideoTable(k, l, 176) && VideoDir(k, l)
    ensures Walk(k, l.updir, va) == if Dir(va) == 0 then VideoPage(va) else Walk(m, l.updir, va)
  {
    AddressFields(va);
    if Dir(va) == 0 {
      VideoTableWalk(k, l, va);
    } else {
      hide Entry, Slot, Separate, VideoTable, VideoPage;
      var d := Dir(va);
      assert EntryApart(Entry(m, l.updir, d), l);
      LaterEntry(l, d);
      if Present(Entry(m, l.updir, d)) {
        TableOutside(m, k, l, FrameBase(Entry(m, l.updir, d)), Page(va));
      }
    }
  }

  lemma LaterEntry(l: Layout, d: nat)
    requires Apart4(l) && 1 <= d < 1024
    ensures Slot(l.updir, d)
    ensures Separate(l.updir + 4 * d, 4, l.updir, 4) && Separate(l.updir + 4 * d, 4, l.vptable, 4096)
  {
    DirApart(l, d);
  }

  lemma TableOutside(m: seq<Byte>, k: seq<Byte>, l: Layout, base: nat, i: nat)
    requires |m| == MEM_SIZE && |k| == MEM_SIZE && Apart4(l) && OutsideKept(m, k, l)
    requires base % 4096 == 0 && TableApart(base, l) && i < 1024
    ensures base + 4 * i + 4 <= MEM_SIZE ==> Entry(k, base, i) == Entry(m, base, i)
  {
    hide Entry;
    if base + 4 * i + 4 <= MEM_SIZE {
      PageSlot(base, i);
      InnerWord(base, i, l.updir, 4096);
      InnerWord(base, i, l.vptable, 4096);
    }
  }

  lemma InnerWord(base: nat, i: nat, b: nat, n: nat)
    requires Separate(base, 4096, b, n) && i < 1024 && n >= 4
    ensures Separate(base + 4 * i, 4, b, n) && Separate(base + 4 * i, 4, b, 4)
  {}

  lemma VideoTableWalk(k: seq<Byte>, l: Layout, va: nat)
    requires |k| == MEM_SIZE && Apart4(l) && va < WORD_SIZE && Dir(va) == 0 && VideoTable(k, l, 176)
    requires VideoDir(k, l)
    ensures Walk(k, l.updir, va) == VideoPage(va)
  {
    hide Entry;
    AddressFields(va);
    var i := Page(va);
    EntryFields(l.vptable);
    assert Entry(k, l.vptable, i) == if 160 <= i < 176 then MakeEntry(i * 4096) else 0;
    if 160 <= i < 176 {
      EntryFields(i * 4096);
    }
  }

  lemma OutsideKernel(m: seq<Byte>, k: seq<Byte>, l: Layout)
    requires |m| == MEM_SIZE && |k| == MEM_SIZE && Apart4(l) && OutsideKept(m, k, l)
    ensures KernelDir(m, l, 32) ==> KernelDir(k, l, 32)
    ensures KernelTable(m, l, 32768) ==> KernelTable(k, l, 32768)
  {
    hide Entry, DirAfter, MakeEntry, Slot;
    forall i | 0 <= i < 1024
      ensures Entry(k, l.kpdir, i) == Entry(m, l.kpdir, i)
    {
      PageSlot(l.kpdir, i);
    }
    forall i | 0 <= i < 32768
      ensures Entry(k, l.kptable, i) == Entry(m, l.kptable, i)
    {
      PageSlot(l.kptable, i);
    }
  }

  // ----- the user directory while the program is loaded

  ghost predicate HighDir(m: seq<Byte>, l: Layout)
    requires |m| == MEM_SIZE && Apart4(l)
  {
    forall d :: 768 <= d < 1024 ==> Entry(m, l.updir, d) == if d < 800 then DirAfter(l, 32, d) else 0
  }

  ghost predicate UserState(m: seq<Byte>, l: Layout)
    requires |m| == MEM_SIZE && Apart4(l)
  {
    KernelDir(m, l, 32) && KernelTable(m, l, 32768) && HighDir(m, l) && OthersApart(m, l) && VideoTable(m, l, 160)
  }

  lemma VideoTableStill(m: seq<Byte>, k: seq<Byte>, l: Layout)
    requires |m| == MEM_SIZE && |k| == MEM_SIZE && Apart4(l) && VideoTable(m, l, 160) && VideoTableKept(m, k, l)
    ensures VideoTable(k, l, 160)
  {
    hide Entry;
  }

  lemma UserStarts(m: seq<Byte>, l: Layout)
    requires |m| == MEM_SIZE && Apart4(l) && UserDir(m, l)
    ensures HighDir(m, l) && OthersApart(m, l)
  {
    hide Entry, MakeEntry, Separate;
    forall d | 1 <= d < 1024
      ensures EntryApart(Entry(m, l.updir, d), l)
    {
      assert Entry(m, l.updir, d) == if 768 <= d < 800 then DirAfter(l, 32, d) else 0;
      if 768 <= d < 800 {
        KernelTableApart(l, d - 768);
      }
    }
  }

  lemma KernelTableApart(l: Layout, p: nat)
    requires Apart4(l) && p < 32
    ensures EntryApart(MakeEntry(l.kptable + 4096 * p), l)
  {
    EntryFields(l.kptable + 4096 * p);
    PartApart(l.kptable, 0x2_0000, l.updir, 4096, l.kptable + 4096 * p, 4096);
    PartApart(l.kptable, 0x2_0000, l.vptable, 4096, l.kptable + 4096 * p, 4096);
  }

  lemma AllocateStep(m: seq<Byte>, k: seq<Byte>, l: Layout, s: PageStore)
    requires |m| == MEM_SIZE && |k| == MEM_SIZE && Apart4(l) && UserState(m, l)
    requires Slot(s.table, s.slot) && Kept(m, k, s.table + 4 * s.slot, 4) && Entry(k, s.table, s.slot) == s.word
    requires (s.table == l.updir && s.slot < 768 && EntryApart(s.word, l)) || WordApart(s.table + 4 * s.slot, l)
    ensures UserState(k, l)
  {
    hide Entry, DirAfter, Slot, Separate, MakeEntry, KernelDir, KernelTable, VideoTable, Kept, TableApart;
    var at := s.table + 4 * s.slot;
    if !WordApart(at, l) {
      DirApart(l, s.slot);
    }
    KernelDirKept(m, k, l, 32, at, 4);
    KernelTableKept(m, k, l, 32768, at, 4);
    VideoKept(m, k, l, at, 4);
    VideoTableStill(m, k, l);
    forall d | 0 <= d < 1024
      ensures d >= 1 ==> EntryApart(Entry(k, l.updir, d), l)
      ensures d >= 768 ==> Entry(k, l.updir, d) == Entry(m, l.updir, d)
    {
      OtherEntry(m, k, l, s, d);
    }
  }

  lemma OtherEntry(m: seq<Byte>, k: seq<Byte>, l: Layout, s: PageStore, d: nat)
    requires |m| == MEM_SIZE && |k| == MEM_SIZE && Apart4(l) && d < 1024
    requires Slot(s.table, s.slot) && Kept(m, k, s.table + 4 * s.slot, 4) && Entry(k, s.table, s.slot) == s.word
    requires (s.table == l.updir && s.slot < 768) || WordApart(s.table + 4 * s.slot, l)
    ensures s.table == l.updir && s.slot < 768 ==>
      Entry(k, l.updir, d) == if d == s.slot then s.word else Entry(m, l.updir, d)
    ensures WordApart(s.table + 4 * s.slot, l) ==> Entry(k, l.updir, d) == Entry(m, l.updir, d)
  {
    hide Entry, Slot;
    DirApart(l, d);
  }

  // The entry of a table after the stores.
  function EntryThen(m: seq<Byte>, stores: seq<PageStore>, table: nat, i: nat): nat
    requires table + 4 * i + 4 <= |m|
  {
    LastWord(stores, table + 4 * i, Entry(m, table, i))
  }

  /** What the program's pages are after the stores: both levels are read from the last words stored
      there, on top of the kernel's directory. */
  lemma StoredPage(m: seq<Byte>, stores: seq<PageStore>, l: Layout, va: nat)
    requires |m| == MEM_SIZE && Apart4(l) && UserDir(m, l) && AllStorable(stores) && va < WORD_SIZE
    requires Dir(va) < 768
    ensures var entry := LastWord(stores, l.updir + 4 * Dir(va), 0); var table := FrameBase(entry);
      Walk(AllStored(m, stores), l.updir, va) ==
        if !Present(entry) || table + 4 * Page(va) + 4 > MEM_SIZE then None
        else
          var page := EntryThen(m, stores, table, Page(va));
          if Present(page) then Some(FrameBase(page) + PageOffset(va)) else None
  {
    hide Entry, LastWord, AllStored;
    AddressFields(va);
    DirApart(l, Dir(va));
    EntryAfterStores(m, stores, l.updir, Dir(va));
    var table := FrameBase(LastWord(stores, l.updir + 4 * Dir(va), 0));
    if table + 4 * Page(va) + 4 <= MEM_SIZE {
      PageSlot(table, Page(va));
      EntryAfterStores(m, stores, table, Page(va));
    }
  }

  // From 3GB on the directory still leads to the kernel's tables.
  lemma UpperWalk(m: seq<Byte>, l: Layout, va: nat)
    requires |m| == MEM_SIZE && Apart4(l) && HighDir(m, l) && KernelTable(m, l, 32768)
    requires va < WORD_SIZE && Dir(va) >= 768
    ensures Walk(m, l.updir, va) == HighMap(va)
  {
    hide Entry;
    AddressFields(va);
    var d := Dir(va);
    assert Entry(m, l.updir, d) == if d < 800 then DirAfter(l, 32, d) else 0;
    if d < 800 {
      TableWalk(m, l, l.updir, d - 768, va);
    }
  }

  ghost predicate VideoTableKept(before: seq<Byte>, after: seq<Byte>, l: Layout)
    requires |before| == MEM_SIZE && |after| == MEM_SIZE && Apart4(l)
  {
    forall j :: 0 <= j < 1024 ==> Entry(after, l.vptable, j) == Entry(before, l.vptable, j)
  }

  /** Every word outside the two directories and the kernel's tables is untouched. */
  ghost predicate TablesOnly(m: seq<Byte>, k: seq<Byte>, l: Layout)
    requires |m| == MEM_SIZE && |k| == MEM_SIZE && Apart4(l)
  {
    forall t: nat, j: nat :: Slot(t, j) && OutsideTables(t + 4 * j, l) ==> Entry(k, t, j) == Entry(m, t, j)
  }

  predicate OutsideTables(at: nat, l: Layout) {
    Separate(at, 4, l.kpdir, 4096) && Separate(at, 4, l.kptable, 0x2_0000) && Separate(at, 4, l.updir, 4096)
  }

  predicate InTables(from: nat, n: nat, l: Layout) {
    || (l.kpdir <= from && from + n <= l.kpdir + 4096)
    || (l.kptable <= from && from + n <= l.kptable + 0x2_0000)
    || (l.updir <= from && from + n <= l.updir + 4096)
  }

  lemma TablesKept(m: seq<Byte>, k: seq<Byte>, l: Layout, from: nat, n: nat)
    requires |m| == MEM_SIZE && |k| == MEM_SIZE && Apart4(l) && Kept(m, k, from, n) && InTables(from, n, l)
    ensures TablesOnly(m, k, l)
  {
    hide Entry, Slot;
  }

  lemma TablesOnlyOn(a: seq<Byte>, b: seq<Byte>, c: seq<Byte>, l: Layout)
    requires |a| == MEM_SIZE && |b| == MEM_SIZE && |c| == MEM_SIZE && Apart4(l)
    requires TablesOnly(a, b, l) && TablesOnly(b, c, l)
    ensures TablesOnly(a, c, l)
  {
    hide Entry, Slot, OutsideTables;
  }

  lemma VideoOutside(m: seq<Byte>, k: seq<Byte>, l: Layout)
    requires |m| == MEM_SIZE && |k| == MEM_SIZE && Apart4(l) && TablesOnly(m, k, l)
    ensures VideoTableKept(m, k, l)
  {
    hide Entry, Slot, Separate;
    forall j | 0 <= j < 1024
      ensures Entry(k, l.vptable, j) == Entry(m, l.vptable, j)
    {
      VideoFits(l, j);
    }
  }

  // The user directory after i of the 32 copied entries.
  ghost predicate UserDirAfter(m: seq<Byte>, l: Layout, i: nat)
    requires |m| == MEM_SIZE && Apart4(l)
  {
    forall k :: 0 <= k < 1024 ==> Entry(m, l.updir, k) == if 768 <= k < 768 + i then DirAfter(l, 32, k) else 0
  }

  ghost predicate UserDir(m: seq<Byte>, l: Layout)
    requires |m| == MEM_SIZE && Apart4(l)
  {
    UserDirAfter(m, l, 32)
  }

  lemma EmptyUserDir(m: seq<Byte>, l: Layout)
    requires |m| == MEM_SIZE && Apart4(l) && forall i :: 0 <= i < 1024 ==> Entry(m, l.updir, i) == 0
    ensures UserDirAfter(m, l, 0)
  {
    hide Entry;
  }

  lemma UserKeeps(m: seq<Byte>, k: seq<Byte>, l: Layout, from: nat, n: nat)
    requires |m| == MEM_SIZE && |k| == MEM_SIZE && Apart4(l) && KernelDir(m, l, 32) && KernelTable(m, l, 32768)
    requires Kept(m, k, from, n) && l.updir <= from && from + n <= l.updir + 4096
    ensures KernelDir(k, l, 32) && KernelTable(k, l, 32768) && TablesOnly(m, k, l)
  {
    hide Entry, KernelDir, KernelTable, Kept, TablesOnly, Separate;
    PartApart(l.updir, 4096, l.kpdir, 4096, from, n);
    PartApart(l.updir, 4096, l.kptable, 0x2_0000, from, n);
    KernelDirKept(m, k, l, 32, from, n);
    KernelTableKept(m, k, l, 32768, from, n);
    TablesKept(m, k, l, from, n);
  }

  lemma UserDirStep(m: seq<Byte>, k: seq<Byte>, l: Layout, i: nat)
    requires |m| == MEM_SIZE && |k| == MEM_SIZE && Apart4(l) && i < 32 && UserDirAfter(m, l, i)
    requires Kept(m, k, l.updir + 4 * (768 + i), 4) && Entry(k, l.updir, 768 + i) == DirAfter(l, 32, 768 + i)
    ensures UserDirAfter(k, l, i + 1)
  {
    hide Entry, DirAfter, Slot;
    forall j | 0 <= j < 1024
      ensures Entry(k, l.updir, j) == if 768 <= j < 768 + (i + 1) then DirAfter(l, 32, j) else 0
    {
      DirApart(l, j);
      assert Entry(m, l.updir, j) == if 768 <= j < 768 + i then DirAfter(l, 32, j) else 0;
    }
  }

  lemma DirEntryFits(m: seq<Byte>, l: Layout, i: nat)
    requires |m| == MEM_SIZE && Apart4(l) && i < 1024 && KernelDir(m, l, 32)
    ensures Entry(m, l.kpdir, i) == DirAfter(l, 32, i) < WORD_SIZE
  {
    hide Entry;
  }

  lemma HighWalk(m: seq<Byte>, l: Layout, va: nat)
    requires |m| == MEM_SIZE && Apart4(l) && UserDir(m, l) && KernelTable(m, l, 32768)
    requires va < WORD_SIZE
    ensures Walk(m, l.updir, va) == HighMap(va)
  {
    hide Entry;
    AddressFields(va);
    var d := Dir(va);
    assert Entry(m, l.updir, d) == if 768 <= d < 800 then DirAfter(l, 32, d) else 0;
    if 768 <= d < 800 {
      TableWalk(m, l, l.updir, d - 768, va);
    }
  }

  // The video page table once the slots from 160 up to the given one are filled; 160 is empty.
  ghost predicate VideoTable(m: seq<Byte>, l: Layout, slot: nat)
    requires |m| == MEM_SIZE && Apart4(l)
  {
    forall k :: 0 <= k < 1024 ==> Entry(m, l.vptable, k) == if 160 <= k < slot then MakeEntry(k * 4096) else 0
  }

  lemma VideoFits(l: Layout, slot: nat)
    requires Apart4(l) && slot < 1024
    ensures Slot(l.vptable, slot) && MakeEntry(l.vptable) < WORD_SIZE && MakeEntry(slot * 4096) < WORD_SIZE
    ensures var at := l.vptable + 4 * slot;
      Separate(at, 4, l.kpdir, 4096) && Separate(at, 4, l.kptable, 0x2_0000) && Separate(at, 4, l.updir, 4096)
  {
    hide Separate;
    PageSlot(l.vptable, slot);
    PartApart(l.vptable, 4096, l.kpdir, 4096, l.vptable + 4 * slot, 4);
    PartApart(l.vptable, 4096, l.kptable, 0x2_0000, l.vptable + 4 * slot, 4);
    PartApart(l.vptable, 4096, l.updir, 4096, l.vptable + 4 * slot, 4);
  }

  lemma EmptyKernelDir(m: seq<Byte>, l: Layout)
    requires |m| == MEM_SIZE && Apart4(l) && forall i :: 0 <= i < 1024 ==> Entry(m, l.kpdir, i) == 0
    ensures KernelDir(m, l, 0) && KernelTable(m, l, 0)
  {
    hide Entry;
  }

  lemma StartTables(l: Layout)
    requires Apart4(l)
    ensures Separate(l.kpdir, 4096, l.vptable, 4096) && l.kpdir % 4 == 0 && l.kpdir + 4096 <= MEM_SIZE
    ensures l.kpdir / 4096 * 4096 == l.kpdir
  {
    hide Separate;
    PageAligned(l.kpdir);
  }

  lemma PageAligned(x: nat)
    requires x % 4096 == 0
    ensures x % 4 == 0 && x / 4096 * 4096 == x
  {
    assert x == 4 * (1024 * (x / 4096));
  }
}
