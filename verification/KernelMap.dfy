// The kernel's address space as initialize_memory builds it: three regions mapped in order, where the
// second spills past KERNEL_BASE_ADDRESS and the third overwrites what it spilled
// (src/kernel/kmap.c).
module KernelMap {
  import opened Words
  import opened Mmu
  import opened PageMemory
  import opened AddressSpace

  // ----- mapping one region

  // The entry of the i-th page of a region that starts at physical address pa.
  function RegionEntry(pa: Word, i: nat, perm: nat): Word
    requires perm < PAGE_SIZE
  {
    MakeEntry((pa + i * PAGE_SIZE) % TWO32, perm)
  }

  // Page i is the first of the region in its directory slot, and the slot had no table.
  predicate NewSlot(m: Memory, dir: nat, v0: nat, i: nat)
    requires dir < |m.frames|
  {
    var d := (v0 + i) / 1024;
    d < 1024 && !HasTable(m, dir, d) && (i == 0 || (v0 + i - 1) / 1024 != d)
  }

  function TablesNeeded(m: Memory, dir: nat, v0: nat, n: nat): nat
    requires dir < |m.frames|
  {
    if n == 0 then 0
    else TablesNeeded(m, dir, v0, n - 1) + if NewSlot(m, dir, v0, n - 1) then 1 else 0
  }

  predicate Touched(v0: nat, n: nat, d: nat) {
    n > 0 && v0 / 1024 <= d <= (v0 + n - 1) / 1024
  }

  // m' is m with n pages from v0 mapped to consecutive frames from pa: every other entry is
  // unchanged, and exactly the missing tables came off the front of the free list.
  ghost predicate Region(m: Memory, m': Memory, dir: nat, v0: nat, n: nat, pa: Word, perm: nat)
    requires Tree(m, dir) && perm < PAGE_SIZE
  {
    var k := TablesNeeded(m, dir, v0, n);
    && v0 + n <= PAGES && !Touched(v0, n, SELF) && k <= |m.free|
    && Tree(m', dir) && |m'.frames| == |m.frames| && m'.reserved == m.reserved
    && RegionList(m, m', k)
    && RegionTables(m, m', dir, v0, n, k)
    && (forall p :: p in m.free[..k] ==> IsTable(m', dir, p))
    && RegionEntries(m, m', dir, v0, n, pa, perm)
  }

  ghost predicate RegionList(m: Memory, m': Memory, k: nat)
    requires k <= |m.free| && |m.refs| == |m'.refs|
  {
    && m'.free == m.free[k..]
    && forall p :: 0 <= p < |m.refs| ==> m'.refs[p] == if p in m.free[..k] then 1 else m.refs[p]
  }

  ghost predicate RegionTables(m: Memory, m': Memory, dir: nat, v0: nat, n: nat, k: nat)
    requires dir < |m.frames| == |m'.frames| && k <= |m.free|
  {
    && (forall d :: 0 <= d < 1024 && d != SELF ==>
          (HasTable(m', dir, d) <==> HasTable(m, dir, d) || Touched(v0, n, d)))
    && (forall d :: 0 <= d < 1024 ==> TableSlot(m, m', dir, v0, n, d, k))
  }

  ghost predicate RegionEntries(m: Memory, m': Memory, dir: nat, v0: nat, n: nat, pa: Word, perm: nat)
    requires dir < |m.frames| == |m'.frames| && perm < PAGE_SIZE
  {
    forall v :: 0 <= v < PAGES && v / 1024 != SELF ==>
      Pte(m', dir, v) == if v0 <= v < v0 + n then RegionEntry(pa, v - v0, perm) else Pte(m, dir, v)
  }

  // A slot keeps its entry unless the region gave it a new table, granting all rights and taken from
  // the list.
  ghost predicate TableSlot(m: Memory, m': Memory, dir: nat, v0: nat, n: nat, d: nat, k: nat)
    requires dir < |m.frames| == |m'.frames| && d < 1024 && k <= |m.free|
  {
    if d != SELF && !HasTable(m, dir, d) && Touched(v0, n, d)
    then TableOf(m', dir, d) in m.free[..k] && Pde(m', dir, d) % PAGE_SIZE == 7
    else Pde(m', dir, d) == Pde(m, dir, d)
  }

  // One iteration of map_memory_region.
  function MapOne(m: Memory, dir: nat, v: nat, e: Word): Memory
    requires Tree(m, dir) && v < PAGES && v / 1024 != SELF
    requires HasTable(m, dir, v / 1024) || |m.free| > 0
  {
    WithTableWalks(m, dir, v / 1024);
    SetPte(WithTable(m, dir, v / 1024), dir, v, e)
  }

  lemma MapOneWalks(m: Memory, dir: nat, v: nat, e: Word)
    requires Tree(m, dir) && v < PAGES && v / 1024 != SELF
    requires HasTable(m, dir, v / 1024) || |m.free| > 0
    ensures var m' := MapOne(m, dir, v, e);
            && Tree(m', dir) && |m'.frames| == |m.frames| && m'.reserved == m.reserved
            && OneTable(m, m', dir, v / 1024)
            && (forall u :: 0 <= u < PAGES && u / 1024 != SELF ==>
                  Pte(m', dir, u) == if u == v then e else Pte(m, dir, u))
  {
    WithTableWalks(m, dir, v / 1024);
    SetPteWalks(WithTable(m, dir, v / 1024), dir, v, e);
    if !HasTable(m, dir, v / 1024) {
      TableEntryRights(m.free[0]);
    }
  }

  // Slot d has a table in m', the old one if there was one, else the head of the free list.
  ghost predicate OneTable(m: Memory, m': Memory, dir: nat, d: nat)
    requires dir < |m.frames| == |m'.frames| && d < 1024
  {
    && HasTable(m', dir, d)
    && (forall c :: 0 <= c < 1024 && c != d ==> Pde(m', dir, c) == Pde(m, dir, c))
    && if HasTable(m, dir, d) then
         Pde(m', dir, d) == Pde(m, dir, d) && m'.free == m.free && m'.refs == m.refs
       else
         && |m.free| > 0 && m.free[0] < |m.refs| && TableOf(m', dir, d) == m.free[0]
         && Pde(m', dir, d) % PAGE_SIZE == 7
         && m'.free == m.free[1..] && m'.refs == m.refs[m.free[0] := 1]
  }

  lemma RegionEmpty(m: Memory, dir: nat, v0: nat, pa: Word, perm: nat)
    requires Tree(m, dir) && perm < PAGE_SIZE && v0 <= PAGES
    ensures Region(m, m, dir, v0, 0, pa, perm)
  {
    assert m.free[..0] == [];
  }

  lemma TableEntryRights(p: nat)
    requires p < PAGES
    ensures Entry(p, PTE_W + PTE_P + PTE_U) % PAGE_SIZE == 7
  {
  }

  lemma RegionStep(m: Memory, m1: Memory, dir: nat, v0: nat, n: nat, pa: Word, perm: nat)
    requires Tree(m, dir) && perm < PAGE_SIZE && Region(m, m1, dir, v0, n, pa, perm)
    requires v0 + n < PAGES && !Touched(v0, n + 1, SELF) && TablesNeeded(m, dir, v0, n + 1) <= |m.free|
    ensures HasTable(m1, dir, (v0 + n) / 1024) || |m1.free| > 0
    ensures Region(m, MapOne(m1, dir, v0 + n, RegionEntry(pa, n, perm)), dir, v0, n + 1, pa, perm)
  {
    hide Present, Pfn, RegionEntry, MapOne, Tree;
    var v, d := v0 + n, (v0 + n) / 1024;
    SizesOf(m, dir);
    SizesOf(m1, dir);
    assert d != SELF && (HasTable(m1, dir, d) <==> !NewSlot(m, dir, v0, n));
    MapOneWalks(m1, dir, v, RegionEntry(pa, n, perm));
    var m' := MapOne(m1, dir, v, RegionEntry(pa, n, perm));
    SizesOf(m', dir);
    RegionStepTables(m, m1, m', dir, v0, n);
    TablesStay(m1, m', dir, d);
    assert m.free[..TablesNeeded(m, dir, v0, n + 1)] ==
      m.free[..TablesNeeded(m, dir, v0, n)] + if NewSlot(m, dir, v0, n) then [m1.free[0]] else [];
    assert RegionEntries(m, m', dir, v0, n + 1, pa, perm);
  }

  lemma TablesStay(m: Memory, m': Memory, dir: nat, d: nat)
    requires dir < |m.frames| == |m'.frames| && d < 1024 && OneTable(m, m', dir, d) && d != SELF
    ensures forall p :: IsTable(m, dir, p) ==> IsTable(m', dir, p)
    ensures IsTable(m', dir, TableOf(m', dir, d))
  {
    hide Present, Pfn;
    forall p | IsTable(m, dir, p)
      ensures IsTable(m', dir, p)
    {
      var c :| HasTable(m, dir, c) && TableOf(m, dir, c) == p;
      assert HasTable(m', dir, c) && TableOf(m', dir, c) == p;
    }
  }

  lemma SizesOf(m: Memory, dir: nat)
    requires Tree(m, dir)
    ensures dir < |m.frames| == |m.refs|
  {
  }

  lemma RegionStepTables(m: Memory, m1: Memory, m': Memory, dir: nat, v0: nat, n: nat)
    requires dir < |m.frames| == |m1.frames| == |m'.frames| && |m.refs| == |m1.refs| == |m'.refs|
    requires v0 + n < PAGES && TablesNeeded(m, dir, v0, n + 1) <= |m.free| && !Touched(v0, n + 1, SELF)
    requires RegionList(m, m1, TablesNeeded(m, dir, v0, n))
    requires RegionTables(m, m1, dir, v0, n, TablesNeeded(m, dir, v0, n))
    requires OneTable(m1, m', dir, (v0 + n) / 1024)
    ensures RegionList(m, m', TablesNeeded(m, dir, v0, n + 1))
    ensures RegionTables(m, m', dir, v0, n + 1, TablesNeeded(m, dir, v0, n + 1))
  {
    hide Present, Pfn;
    var d, k, k' := (v0 + n) / 1024, TablesNeeded(m, dir, v0, n), TablesNeeded(m, dir, v0, n + 1);
    assert HasTable(m1, dir, d) <==> !NewSlot(m, dir, v0, n);
    if NewSlot(m, dir, v0, n) {
      assert m1.free[0] == m.free[k] && m.free[..k'] == m.free[..k] + [m.free[k]];
    }
    assert RegionList(m, m', k');
    hide TablesNeeded, RegionList;
    forall c | 0 <= c < 1024
      ensures TableSlot(m, m', dir, v0, n + 1, c, k')
      ensures c != SELF ==> (HasTable(m', dir, c) <==> HasTable(m, dir, c) || Touched(v0, n + 1, c))
    {
      assert TableSlot(m, m1, dir, v0, n, c, k);
      assert Touched(v0, n + 1, c) <==> Touched(v0, n, c) || c == d;
      assert c != d ==> Pde(m', dir, c) == Pde(m1, dir, c);
    }
  }

  // The entry of the i-th page: its frame, and the rights asked for. An unaligned physical address
  // leaves its own low bits in the entry as well.
  ghost predicate MapsRegion(e: Word, i: nat, pa: Word, perm: nat)
    requires perm < PAGE_SIZE
  {
    && Present(e) && Pfn(e) == (pa / PAGE_SIZE + i) % PAGES
    && (AllowsWrite(e) <==> AllowsWrite(perm) || AllowsWrite(pa))
    && (AllowsUser(e) <==> AllowsUser(perm) || AllowsUser(pa))
    && (pa % PAGE_SIZE == 0 ==> e % PAGE_SIZE == perm / 2 * 2 + 1)
  }

  lemma RegionEntryMeans(pa: Word, i: nat, perm: nat)
    requires perm < PAGE_SIZE
    ensures MapsRegion(RegionEntry(pa, i, perm), i, pa, perm)
  {
    hide MakeEntry;
    var n, x := pa / PAGE_SIZE + i, pa % PAGE_SIZE;
    var w := (pa + i * PAGE_SIZE) % TWO32;
    DivUnique(pa + i * PAGE_SIZE, TWO32, n / PAGES, n % PAGES * PAGE_SIZE + x);
    DivUnique(w, PAGE_SIZE, n % PAGES, x);
    LowBits(w);
    LowBits(pa);
  }

  lemma RegionMeans(m: Memory, m': Memory, dir: nat, v0: nat, n: nat, pa: Word, perm: nat)
    requires Tree(m, dir) && perm < PAGE_SIZE && Region(m, m', dir, v0, n, pa, perm)
    ensures dir < |m'.frames| && forall v :: v0 <= v < v0 + n ==> v < PAGES && MapsRegion(Pte(m', dir, v), v - v0, pa, perm)
  {
    hide Present, Pfn, MakeEntry, RegionEntry, MapsRegion;
    forall v | v0 <= v < v0 + n
      ensures v < PAGES && MapsRegion(Pte(m', dir, v), v - v0, pa, perm)
    {
      RegionEntryMeans(pa, v - v0, perm);
    }
  }

  // ----- the three regions

  // The virtual page numbers of U_PAGES, of the bottom of the kernel stack, and of
  // KERNEL_BASE_ADDRESS, and the number of pages the last region maps.
  const PAGES_AT: nat := 956 * 1024
  const STACK_AT: nat := 959 * 1024 + 1016
  const BASE_AT: nat := 960 * 1024
  const REMAPPED: nat := 0xFFFF

  // The layout in numbers.
  lemma Windows()
    ensures PAGE_SIZE == 0x1000 && PAGE_TABLE_SIZE == 0x40_0000 && KERNEL_STACK_SIZE == 0x8000
    ensures U_PAGES == 0xEF00_0000 && U_VIRTUAL_PAGE_TABLE == 0xEF40_0000
    ensures KERNEL_STACK_TOP - KERNEL_STACK_SIZE == 0xEFFF_8000 && KERNEL_BASE_ADDRESS == 0xF000_0000
    ensures forall va: Word :: Dynamic(va / PAGE_SIZE) <==> va < 0xEF00_0000 || 0xEF80_0000 <= va < 0xEFC0_0000
    ensures PAGES_AT == U_PAGES / PAGE_SIZE && U_PAGES % PAGE_SIZE == 0
    ensures STACK_AT == (KERNEL_STACK_TOP - KERNEL_STACK_SIZE) / PAGE_SIZE
    ensures BASE_AT == KERNEL_BASE_ADDRESS / PAGE_SIZE
    ensures SELF == U_VIRTUAL_PAGE_TABLE / PAGE_TABLE_SIZE
    ensures REMAPPED == (0xFFFF_FFFF - KERNEL_BASE_ADDRESS) / PAGE_SIZE
  {
  }

  // A directory with nothing but its self-map, which user code may read.
  ghost predicate Blank(m: Memory, dir: nat) {
    && Tree(m, dir) && Pde(m, dir, SELF) % PAGE_SIZE == 5
    && forall d :: 0 <= d < 1024 ==> !HasTable(m, dir, d)
  }

  // Only the first slot of a region may already have a table: the others each take one.
  lemma {:induction false} TablesNeededCount(m: Memory, dir: nat, v0: nat, n: nat)
    requires dir < |m.frames| && n > 0 && v0 + n <= PAGES && !Touched(v0, n, SELF)
    requires v0 / 1024 != SELF
    requires forall d :: v0 / 1024 < d <= (v0 + n - 1) / 1024 ==> !HasTable(m, dir, d)
    ensures TablesNeeded(m, dir, v0, n) ==
            (v0 + n - 1) / 1024 - v0 / 1024 + (if HasTable(m, dir, v0 / 1024) then 0 else 1)
  {
    hide HasTable;
    if n == 1 {
      assert TablesNeeded(m, dir, v0, 0) == 0;
    } else {
      var c, d := (v0 + n - 2) / 1024, (v0 + n - 1) / 1024;
      assert d == c || d == c + 1;
      TablesNeededCount(m, dir, v0, n - 1);
      assert (v0 + (n - 1)) / 1024 == d && (v0 + (n - 1) - 1) / 1024 == c;
    }
  }

  // What each virtual page outside the self-map window is mapped to once the map is built.
  function KernelEntry(pagesPa: Word, stackPa: Word, v: nat): Word {
    if PAGES_AT <= v < PAGES_AT + 1024 then RegionEntry(pagesPa, v - PAGES_AT, PTE_U)
    else if STACK_AT <= v < BASE_AT then RegionEntry(stackPa, v - STACK_AT, PTE_U)
    else if BASE_AT <= v < BASE_AT + REMAPPED then RegionEntry(0, v - BASE_AT, PTE_W)
    else 0
  }

  predicate StaticSlot(d: nat) {
    d == 956 || 959 <= d < 1024
  }

  ghost predicate Built(m: Memory, m': Memory, dir: nat, pagesPa: Word, stackPa: Word)
    requires Tree(m, dir)
  {
    && Tree(m', dir) && |m'.frames| == |m.frames| && m'.reserved == m.reserved
    && |m.free| >= 66 && RegionList(m, m', 66)
    && (forall v :: 0 <= v < PAGES && v / 1024 != SELF ==> Pte(m', dir, v) == KernelEntry(pagesPa, stackPa, v))
    && (forall d :: 0 <= d < 1024 && d != SELF ==> (HasTable(m', dir, d) <==> StaticSlot(d)))
    && (forall d :: 0 <= d < 1024 && HasTable(m', dir, d) ==>
          TableOf(m', dir, d) in m.free[..66] && Pde(m', dir, d) % PAGE_SIZE == 7)
    && (forall p :: p in m.free[..66] ==> IsTable(m', dir, p))
    && Pde(m', dir, SELF) == Pde(m, dir, SELF)
  }

  lemma {:induction false} RegionNeeds(m: Memory, dir: nat, v0: nat, n: nat, k: nat)
    requires Tree(m, dir) && n > 0 && v0 + n <= PAGES
    requires (v0 == PAGES_AT && n == 1024 && k == 1 && Blank(m, dir))
             || (v0 == STACK_AT && n == 1024 && k == 2
                 && forall d :: 0 <= d < 1024 && HasTable(m, dir, d) ==> d == 956)
             || (v0 == BASE_AT && n == REMAPPED && k == 63 && HasTable(m, dir, 960)
                 && forall d :: 0 <= d < 1024 && HasTable(m, dir, d) ==> d <= 960)
    ensures TablesNeeded(m, dir, v0, n) == k && !Touched(v0, n, SELF)
  {
    hide TablesNeeded, HasTable;
    assert v0 / 1024 == if k == 1 then 956 else if k == 2 then 959 else 960;
    assert (v0 + n - 1) / 1024 == if k == 1 then 956 else if k == 2 then 960 else 1023;
    TablesNeededCount(m, dir, v0, n);
  }

  lemma ListCompose(m: Memory, m1: Memory, m2: Memory, a: nat, b: nat)
    requires a + b <= |m.free| && |m.refs| == |m1.refs| == |m2.refs|
    requires RegionList(m, m1, a) && b <= |m1.free| && RegionList(m1, m2, b)
    ensures RegionList(m, m2, a + b)
  {
    assert m.free[..a + b] == m.free[..a] + m1.free[..b];
    assert m1.free[b..] == m.free[a + b..];
  }

  lemma BlankEntries(m: Memory, dir: nat)
    requires Blank(m, dir)
    ensures forall v :: 0 <= v < PAGES && v / 1024 != SELF ==> Pte(m, dir, v) == 0
  {
    hide Present, Pfn;
    forall v | 0 <= v < PAGES && v / 1024 != SELF
      ensures Pte(m, dir, v) == 0
    {
      assert !HasTable(m, dir, v / 1024);
    }
  }

  // The third region overwrites the 1016 pages of the second that lie above KERNEL_BASE_ADDRESS.
  lemma ThreeRegions(m0: Memory, m1: Memory, m2: Memory, m3: Memory, dir: nat, pagesPa: Word, stackPa: Word)
    requires Blank(m0, dir) && |m0.free| >= 66
    requires Region(m0, m1, dir, PAGES_AT, 1024, pagesPa, PTE_U)
    requires Region(m1, m2, dir, STACK_AT, 1024, stackPa, PTE_U)
    requires Region(m2, m3, dir, BASE_AT, REMAPPED, 0, PTE_W)
    ensures Built(m0, m3, dir, pagesPa, stackPa)
  {
    hide Present, Pfn, RegionEntry, TablesNeeded, KernelEntry, Touched, IsTable, Pte;
    hide RegionEntries, RegionTables, RegionList;
    ThreeEntries(m0, m1, m2, m3, dir, pagesPa, stackPa);
    RegionNeeds(m0, dir, PAGES_AT, 1024, 1);
    OnlySlots(m0, m1, dir, PAGES_AT, 1024, 1, 956, 956);
    RegionNeeds(m1, dir, STACK_AT, 1024, 2);
    OnlySlots(m1, m2, dir, STACK_AT, 1024, 2, 959, 960);
    RegionNeeds(m2, dir, BASE_AT, REMAPPED, 63);
    ThreeLists(m0, m1, m2, m3);
    TablesRemain(m1, m2, dir, STACK_AT, 1024, 2);
    TablesRemain(m2, m3, dir, BASE_AT, REMAPPED, 63);
    ThreeTables(m0, m1, m2, m3, dir);
  }

  lemma ThreeLists(m0: Memory, m1: Memory, m2: Memory, m3: Memory)
    requires |m0.free| >= 66 && |m0.refs| == |m1.refs| == |m2.refs| == |m3.refs|
    requires RegionList(m0, m1, 1)
    requires 2 <= |m1.free| && RegionList(m1, m2, 2)
    requires 63 <= |m2.free| && RegionList(m2, m3, 63)
    ensures RegionList(m0, m3, 66) && m1.free == m0.free[1..] && m2.free == m0.free[3..]
    ensures m0.free[..66] == m0.free[..1] + m1.free[..2] + m2.free[..63]
  {
    ListCompose(m0, m1, m2, 1, 2);
    ListCompose(m0, m2, m3, 3, 63);
  }

  lemma ThreeEntries(m0: Memory, m1: Memory, m2: Memory, m3: Memory, dir: nat, pagesPa: Word, stackPa: Word)
    requires Blank(m0, dir) && dir < |m0.frames| == |m1.frames| == |m2.frames| == |m3.frames|
    requires RegionEntries(m0, m1, dir, PAGES_AT, 1024, pagesPa, PTE_U)
    requires RegionEntries(m1, m2, dir, STACK_AT, 1024, stackPa, PTE_U)
    requires RegionEntries(m2, m3, dir, BASE_AT, REMAPPED, 0, PTE_W)
    ensures forall v :: 0 <= v < PAGES && v / 1024 != SELF ==> Pte(m3, dir, v) == KernelEntry(pagesPa, stackPa, v)
  {
    BlankEntries(m0, dir);
    hide Present, Pfn, RegionEntry, Pte, Tree;
  }

  lemma OnlySlots(m: Memory, m': Memory, dir: nat, v0: nat, n: nat, k: nat, lo: nat, hi: nat)
    requires dir < |m.frames| == |m'.frames| && k <= |m.free| && RegionTables(m, m', dir, v0, n, k)
    requires n > 0 && lo == v0 / 1024 && hi == (v0 + n - 1) / 1024
    ensures forall d :: 0 <= d < 1024 && d != SELF ==>
              (HasTable(m', dir, d) <==> HasTable(m, dir, d) || lo <= d <= hi)
  {
  }

  // A region keeps the tables that were there.
  lemma TablesRemain(m: Memory, m': Memory, dir: nat, v0: nat, n: nat, k: nat)
    requires dir < |m.frames| == |m'.frames| && k <= |m.free| && RegionTables(m, m', dir, v0, n, k)
    ensures forall p :: IsTable(m, dir, p) ==> IsTable(m', dir, p)
  {
    hide Present, Pfn;
    forall p | IsTable(m, dir, p)
      ensures IsTable(m', dir, p)
    {
      var c :| HasTable(m, dir, c) && TableOf(m, dir, c) == p;
      assert TableSlot(m, m', dir, v0, n, c, k);
      assert HasTable(m', dir, c) && TableOf(m', dir, c) == p;
    }
  }

  lemma ThreeTables(m0: Memory, m1: Memory, m2: Memory, m3: Memory, dir: nat)
    requires dir < |m0.frames| == |m1.frames| == |m2.frames| == |m3.frames| && |m0.free| >= 66
    requires forall d :: 0 <= d < 1024 ==> !HasTable(m0, dir, d)
    requires m1.free == m0.free[1..] && m2.free == m0.free[3..]
    requires RegionTables(m0, m1, dir, PAGES_AT, 1024, 1)
    requires RegionTables(m1, m2, dir, STACK_AT, 1024, 2)
    requires RegionTables(m2, m3, dir, BASE_AT, REMAPPED, 63)
    ensures forall d :: 0 <= d < 1024 && d != SELF ==> (HasTable(m3, dir, d) <==> StaticSlot(d))
    ensures forall d :: 0 <= d < 1024 && HasTable(m3, dir, d) ==>
              TableOf(m3, dir, d) in m0.free[..66] && Pde(m3, dir, d) % PAGE_SIZE == 7
    ensures Pde(m3, dir, SELF) == Pde(m0, dir, SELF)
  {
    hide Present, Pfn;
    assert m0.free[..66] == m0.free[..1] + m1.free[..2] + m2.free[..63];
    assert TableSlot(m0, m1, dir, PAGES_AT, 1024, SELF, 1) && TableSlot(m1, m2, dir, STACK_AT, 1024, SELF, 2)
      && TableSlot(m2, m3, dir, BASE_AT, REMAPPED, SELF, 63);
    forall d | 0 <= d < 1024 && d != SELF
      ensures HasTable(m3, dir, d) <==> StaticSlot(d)
      ensures HasTable(m3, dir, d) ==> TableOf(m3, dir, d) in m0.free[..66] && Pde(m3, dir, d) % PAGE_SIZE == 7
    {
      assert TableSlot(m0, m1, dir, PAGES_AT, 1024, d, 1);
      assert TableSlot(m1, m2, dir, STACK_AT, 1024, d, 2);
      assert TableSlot(m2, m3, dir, BASE_AT, REMAPPED, d, 63);
    }
  }

  // ----- what the finished map means

  // Where each address outside the self-map window goes, or -1.
  function KernelAddress(pagesPa: Word, stackPa: Word, va: Word): int {
    if U_PAGES <= va < U_PAGES + PAGE_TABLE_SIZE then pagesPa + (va - U_PAGES)
    else if KERNEL_STACK_TOP - KERNEL_STACK_SIZE <= va < KERNEL_STACK_TOP
    then stackPa + (va - (KERNEL_STACK_TOP - KERNEL_STACK_SIZE))
    else if KERNEL_BASE_ADDRESS <= va < 0xFFFF_F000 then va - KERNEL_BASE_ADDRESS
    else -1
  }

  // Every address of the three windows walks to its physical address, and nothing else is mapped:
  // not even the last page of the address space, which the page count rounds away.
  lemma WindowsTranslate(m: Memory, m': Memory, dir: nat, pagesPa: Word, stackPa: Word, va: Word)
    requires Tree(m, dir) && Built(m, m', dir, pagesPa, stackPa) && va / PAGE_TABLE_SIZE != SELF
    requires pagesPa % PAGE_SIZE == 0 && pagesPa + PAGE_TABLE_SIZE <= TWO32
    requires stackPa % PAGE_SIZE == 0 && stackPa + KERNEL_STACK_SIZE <= TWO32
    ensures Physical(m', dir, va) == KernelAddress(pagesPa, stackPa, va)
  {
    hide Present, Pfn, RegionEntry, Pte, Pde, Tree, Built, HasTable;
    var v := va / PAGE_SIZE;
    assert v / 1024 == va / PAGE_TABLE_SIZE && va == v * PAGE_SIZE + va % PAGE_SIZE;
    BuiltEntry(m, m', dir, pagesPa, stackPa, v);
    if PAGES_AT <= v < PAGES_AT + 1024 {
      PageOf(m', dir, v - PAGES_AT, va % PAGE_SIZE, PAGES_AT, pagesPa, PTE_U);
    } else if STACK_AT <= v < BASE_AT {
      PageOf(m', dir, v - STACK_AT, va % PAGE_SIZE, STACK_AT, stackPa, PTE_U);
    } else if BASE_AT <= v < BASE_AT + REMAPPED {
      PageOf(m', dir, v - BASE_AT, va % PAGE_SIZE, BASE_AT, 0, PTE_W);
    } else {
      ZeroEntry();
    }
  }

  lemma BuiltEntry(m: Memory, m': Memory, dir: nat, pagesPa: Word, stackPa: Word, v: nat)
    requires Tree(m, dir) && Built(m, m', dir, pagesPa, stackPa) && v < PAGES && v / 1024 != SELF
    ensures dir < |m'.frames| && Pte(m', dir, v) == KernelEntry(pagesPa, stackPa, v)
    ensures HasTable(m', dir, v / 1024) <==> StaticSlot(v / 1024)
    ensures !StaticSlot(v / 1024) ==> !Present(Pde(m', dir, v / 1024))
  {
    hide Present, Pfn, Pte;
  }

  lemma PageOf(m: Memory, dir: nat, i: nat, x: nat, v0: nat, pa: Word, perm: nat)
    requires dir < |m.frames| && perm < PAGE_SIZE && pa % PAGE_SIZE == 0 && x < PAGE_SIZE
    requires v0 + i < PAGES && pa + i * PAGE_SIZE < TWO32
    requires HasTable(m, dir, (v0 + i) / 1024) && Pte(m, dir, v0 + i) == RegionEntry(pa, i, perm)
    ensures Physical(m, dir, (v0 + i) * PAGE_SIZE + x) == pa + i * PAGE_SIZE + x
  {
    hide Present, Pfn, MakeEntry;
    DivUnique((v0 + i) * PAGE_SIZE + x, PAGE_SIZE, v0 + i, x);
    DivUnique(pa + i * PAGE_SIZE, PAGE_SIZE, pa / PAGE_SIZE + i, 0);
  }

  // The page array is found in its window wherever bootstack lies.
  lemma PagesTranslate(m: Memory, m': Memory, dir: nat, pagesPa: Word, stackPa: Word, x: nat)
    requires Tree(m, dir) && Built(m, m', dir, pagesPa, stackPa) && x < PAGE_TABLE_SIZE
    requires pagesPa % PAGE_SIZE == 0 && pagesPa + PAGE_TABLE_SIZE <= TWO32
    ensures dir < |m'.frames| && Physical(m', dir, U_PAGES + x) == pagesPa + x
  {
    hide Present, Pfn, RegionEntry, Pte, Pde, Tree, Built, HasTable;
    var va := U_PAGES + x;
    var v := va / PAGE_SIZE;
    assert va == v * PAGE_SIZE + x % PAGE_SIZE && v == PAGES_AT + x / PAGE_SIZE && v / 1024 == 956;
    BuiltEntry(m, m', dir, pagesPa, stackPa, v);
    PageOf(m', dir, x / PAGE_SIZE, x % PAGE_SIZE, PAGES_AT, pagesPa, PTE_U);
  }

  // ----- the rights of the finished map

  // The low bits of a table entry: the page array and the stack are present and open to user code,
  // physical memory is present and writable.
  lemma KernelEntryBits(pagesPa: Word, stackPa: Word, v: nat)
    requires pagesPa % PAGE_SIZE == 0 && v < PAGES
    ensures PAGES_AT <= v < PAGES_AT + 1024 ==> KernelEntry(pagesPa, stackPa, v) % PAGE_SIZE == 5
    ensures STACK_AT <= v < BASE_AT && stackPa % PAGE_SIZE == 0 ==>
              KernelEntry(pagesPa, stackPa, v) % PAGE_SIZE == 5
    ensures BASE_AT <= v < BASE_AT + REMAPPED ==> KernelEntry(pagesPa, stackPa, v) % PAGE_SIZE == 3
    ensures !(PAGES_AT <= v < PAGES_AT + 1024 || STACK_AT <= v < BASE_AT + REMAPPED) ==>
              KernelEntry(pagesPa, stackPa, v) == 0
  {
    hide MakeEntry;
    if PAGES_AT <= v < PAGES_AT + 1024 {
      AlignedEntry(pagesPa, v - PAGES_AT, PTE_U);
    } else if STACK_AT <= v < BASE_AT && stackPa % PAGE_SIZE == 0 {
      AlignedEntry(stackPa, v - STACK_AT, PTE_U);
    } else if BASE_AT <= v < BASE_AT + REMAPPED {
      AlignedEntry(0, v - BASE_AT, PTE_W);
    }
  }

  lemma AlignedEntry(pa: Word, i: nat, perm: nat)
    requires pa % PAGE_SIZE == 0 && perm < PAGE_SIZE
    ensures RegionEntry(pa, i, perm) % PAGE_SIZE == perm / 2 * 2 + 1
  {
    hide MakeEntry;
    assert (pa + i * PAGE_SIZE) % TWO32 % PAGE_SIZE == 0;
  }

  // Who may do what: user code may read the page array, the kernel stack and the page tables, and
  // only the remapped physical memory can be written.
  lemma WindowsAccess(m: Memory, m': Memory, dir: nat, pagesPa: Word, stackPa: Word, va: Word)
    requires Blank(m, dir) && Built(m, m', dir, pagesPa, stackPa)
    requires pagesPa % PAGE_SIZE == 0 && stackPa % PAGE_SIZE == 0
    ensures dir < |m'.frames|
    ensures va / PAGE_TABLE_SIZE != SELF ==>
              (UserMay(m', dir, va) <==> 0xEF00_0000 <= va < 0xEF40_0000 || 0xEFFF_8000 <= va < 0xF000_0000)
    ensures va / PAGE_TABLE_SIZE == SELF ==>
              (UserMay(m', dir, va) <==> Present(Pde(m', dir, va / PAGE_SIZE % 1024)))
    ensures WriteMay(m', dir, va) <==> 0xF000_0000 <= va < 0xFFFF_F000
  {
    hide Present, Pfn, KernelEntry, AllowsUser, AllowsWrite;
    var v := va / PAGE_SIZE;
    assert v / 1024 == va / PAGE_TABLE_SIZE;
    ZeroEntry();
    LowBits(0);
    LowBits(Pde(m', dir, v / 1024));
    LowBits(Pte(m', dir, v));
    if v / 1024 == SELF {
      SelfMapEntry(m', dir, v);
      assert HasTable(m', dir, v % 1024) || v % 1024 == SELF || !Present(Pde(m', dir, v % 1024));
    } else {
      BuiltEntry(m, m', dir, pagesPa, stackPa, v);
      KernelEntryBits(pagesPa, stackPa, v);
      assert HasTable(m', dir, v / 1024) ==> Pde(m', dir, v / 1024) % PAGE_SIZE == 7;
    }
  }

  lemma SelfMapEntry(m: Memory, dir: nat, v: nat)
    requires Tree(m, dir) && v < PAGES && v / 1024 == SELF
    ensures Pte(m, dir, v) == Pde(m, dir, v % 1024)
  {
    hide Present, Pfn;
  }

  lemma BuiltOpen(m: Memory, m': Memory, dir: nat, pagesPa: Word, stackPa: Word)
    requires Tree(m, dir) && Built(m, m', dir, pagesPa, stackPa)
    ensures dir < |m'.frames| && TablesOpen(m', dir)
  {
    hide Present, Pfn;
  }

  // Only the reserved pages are referenced, once each.
  ghost predicate OnlyReserved(m: Memory) {
    forall p :: 0 <= p < |m.refs| ==> m.refs[p] == if p in m.reserved then 1 else 0
  }

  ghost predicate LowFirst(free: seq<nat>) {
    |free| >= 66 && forall i :: 0 <= i < 66 ==> free[i] < 1024
  }

  // Every page table ends below 4MB, inside the window the entry directory maps.
  ghost predicate TablesLow(m: Memory, dir: nat)
    requires dir < |m.frames|
  {
    forall d :: 0 <= d < 1024 && HasTable(m, dir, d) ==> (TableOf(m, dir, d) + 1) * PAGE_SIZE <= PAGE_TABLE_SIZE
  }

  // If the 66 first free pages are below 4MB, so is every page table.
  lemma TablesBelowFourMegabytes(m: Memory, m': Memory, dir: nat, pagesPa: Word, stackPa: Word)
    requires Tree(m, dir) && Built(m, m', dir, pagesPa, stackPa) && LowFirst(m.free)
    ensures TablesLow(m', dir)
  {
  }

  // The finished map is a state of the page lifecycle: nothing is mapped dynamically, 66 pages are
  // tables with one reference each.
  lemma BuiltCounted(m: Memory, m': Memory, dir: nat, pagesPa: Word, stackPa: Word)
    requires Blank(m, dir) && Built(m, m', dir, pagesPa, stackPa) && OnlyReserved(m)
    ensures Counted(m', dir)
    ensures forall p :: IsTable(m', dir, p) <==> p in m.free[..66]
  {
    hide Present, Pfn, RegionEntry;
    ZeroEntry();
    forall v | 0 <= v < PAGES && Dynamic(v)
      ensures Pte(m', dir, v) == 0
    {
    }
    forall p
      ensures Mappings(m', dir, p) == {}
      ensures IsTable(m', dir, p) <==> p in m.free[..66]
    {
      if IsTable(m', dir, p) {
        var d :| HasTable(m', dir, d) && TableOf(m', dir, d) == p;
      }
    }
    hide Pte, Mappings, IsTable;
    forall p | 0 <= p < |m'.refs|
      ensures m'.refs[p] == CountOf(m', dir, p)
    {
      if p in m.free[..66] {
        assert p in m.free;
      }
    }
  }

  // ----- what check_kern_pgdir sees

  // check_va2pa: the frame behind va, or all ones.
  function Va2pa(m: Memory, dir: nat, va: Word): Word
    requires dir < |m.frames|
  {
    var p := Walk(m, dir, va / PAGE_SIZE);
    if p == -1 then 0xFFFF_FFFF else p * PAGE_SIZE
  }

  lemma RegionFrame(m: Memory, dir: nat, va: Word, i: nat, pa: Word, perm: nat)
    requires dir < |m.frames| && perm < PAGE_SIZE && HasTable(m, dir, va / PAGE_SIZE / 1024)
    requires Pte(m, dir, va / PAGE_SIZE) == RegionEntry(pa, i, perm)
    ensures Va2pa(m, dir, va) == (pa + i * PAGE_SIZE) % TWO32 / PAGE_SIZE * PAGE_SIZE
  {
    hide Present, Pfn, MakeEntry;
  }

  lemma CheckPages(m: Memory, m': Memory, dir: nat, pagesPa: Word, stackPa: Word, i: nat)
    requires Tree(m, dir) && Built(m, m', dir, pagesPa, stackPa)
    requires i < 1024 && pagesPa % PAGE_SIZE == 0 && pagesPa + PAGE_TABLE_SIZE <= TWO32
    ensures Va2pa(m', dir, U_PAGES + i * PAGE_SIZE) == pagesPa + i * PAGE_SIZE
  {
    hide Present, Pfn, RegionEntry, Pte, Pde, Va2pa;
    DivUnique(U_PAGES + i * PAGE_SIZE, PAGE_SIZE, PAGES_AT + i, 0);
    RegionFrame(m', dir, U_PAGES + i * PAGE_SIZE, i, pagesPa, PTE_U);
    DivUnique(pagesPa + i * PAGE_SIZE, PAGE_SIZE, pagesPa / PAGE_SIZE + i, 0);
  }

  lemma CheckRemap(m: Memory, m': Memory, dir: nat, pagesPa: Word, stackPa: Word, i: nat)
    requires Tree(m, dir) && Built(m, m', dir, pagesPa, stackPa) && i <= REMAPPED
    ensures Va2pa(m', dir, KERNEL_BASE_ADDRESS + i * PAGE_SIZE) == if i < REMAPPED then i * PAGE_SIZE else 0xFFFF_FFFF
  {
    hide Present, Pfn, RegionEntry, Pte, Pde, Va2pa;
    var va := KERNEL_BASE_ADDRESS + i * PAGE_SIZE;
    DivUnique(va, PAGE_SIZE, BASE_AT + i, 0);
    if i < REMAPPED {
      RegionFrame(m', dir, va, i, 0, PTE_W);
      DivUnique(i * PAGE_SIZE, PAGE_SIZE, i, 0);
    } else {
      assert Pte(m', dir, BASE_AT + i) == 0;
      LastPage(m', dir);
    }
  }

  lemma LastPage(m: Memory, dir: nat)
    requires dir < |m.frames| && Pte(m, dir, 0xF_FFFF) == 0
    ensures Va2pa(m, dir, 0xFFFF_F000) == 0xFFFF_FFFF
  {
  }

  // The entry of a stack page loses the offset bits of an unaligned bootstack.
  lemma CheckStack(m: Memory, m': Memory, dir: nat, pagesPa: Word, stackPa: Word, i: nat)
    requires Tree(m, dir) && Built(m, m', dir, pagesPa, stackPa) && i < 8
    ensures Va2pa(m', dir, KERNEL_STACK_TOP - KERNEL_STACK_SIZE + i * PAGE_SIZE) == (stackPa + i * PAGE_SIZE) % TWO32
            <==> stackPa % PAGE_SIZE == 0
  {
    hide Present, Pfn, RegionEntry, Pte, Pde, Va2pa;
    var va := KERNEL_STACK_TOP - KERNEL_STACK_SIZE + i * PAGE_SIZE;
    DivUnique(va, PAGE_SIZE, STACK_AT + i, 0);
    RegionFrame(m', dir, va, i, stackPa, PTE_U);
    var w := (stackPa + i * PAGE_SIZE) % TWO32;
    assert w % PAGE_SIZE == stackPa % PAGE_SIZE;
  }

  lemma BuiltTree(m: Memory, m': Memory, dir: nat, pagesPa: Word, stackPa: Word)
    requires Tree(m, dir) && Built(m, m', dir, pagesPa, stackPa)
    ensures Tree(m', dir) && dir < |m'.frames|
  {
  }

  lemma DirectorySlots(m: Memory, m': Memory, dir: nat, pagesPa: Word, stackPa: Word)
    requires Tree(m, dir) && Built(m, m', dir, pagesPa, stackPa)
    ensures dir < |m'.frames|
    ensures forall d :: 956 <= d < 1024 && d != 958 ==> Present(m'.frames[dir][d])
    ensures forall d :: 960 < d < 1024 ==> AllowsWrite(m'.frames[dir][d])
  {
    hide Present, Pfn, AllowsWrite;
    assert Present(Pde(m', dir, SELF));
    forall d | 956 <= d < 1024 && d != 958
      ensures Present(m'.frames[dir][d])
      ensures d > 960 ==> AllowsWrite(m'.frames[dir][d])
    {
      LowBits(m'.frames[dir][d]);
      assert d != SELF ==> HasTable(m', dir, d);
    }
  }

  lemma {:induction false} TablesNeededGrows(m: Memory, dir: nat, v0: nat, i: nat, n: nat)
    requires dir < |m.frames| && i <= n
    ensures TablesNeeded(m, dir, v0, i) <= TablesNeeded(m, dir, v0, n)
    decreases n
  {
    if i < n {
      TablesNeededGrows(m, dir, v0, i, n - 1);
    }
  }

  lemma RegionTree(m: Memory, m': Memory, dir: nat, v0: nat, n: nat, pa: Word, perm: nat)
    requires Tree(m, dir) && perm < PAGE_SIZE && Region(m, m', dir, v0, n, pa, perm)
    ensures Tree(m', dir)
  {
  }

  // ----- what check_kern_pgdir asks of a map

  function PageAddress(base: Word, k: nat): Word {
    (base + k * PAGE_SIZE) % TWO32
  }

  // One page leads where it should.
  ghost predicate LeadsAt(m: Memory, dir: nat, va: Word, pa: Word, k: nat)
    requires dir < |m.frames|
  {
    Va2pa(m, dir, PageAddress(va, k)) == PageAddress(pa, k)
  }

  // n pages from va lead to the n frames from pa.
  ghost predicate Leads(m: Memory, dir: nat, va: Word, n: nat, pa: Word)
    requires dir < |m.frames|
  {
    forall k: nat :: k < n ==> LeadsAt(m, dir, va, pa, k)
  }

  // The slots of the page array, the self-map and the kernel stack are present, and those above the
  // first of the remapped memory present and writable.
  ghost predicate SlotsRight(m: Memory, dir: nat)
    requires dir < |m.frames|
  {
    && Present(Pde(m, dir, 956)) && Present(Pde(m, dir, 957)) && Present(Pde(m, dir, 959))
    && forall d :: 960 < d < 1024 ==> Present(Pde(m, dir, d)) && AllowsWrite(Pde(m, dir, d))
  }

  // The pages of an array of count elements, rounded up past its end.
  function ArrayPages(count: nat): nat {
    count * 8 / PAGE_SIZE + 1
  }

  ghost predicate Passes(m: Memory, dir: nat, count: nat, pagesPa: Word, stackPa: Word)
    requires dir < |m.frames|
  {
    && Leads(m, dir, 0xEF00_0000, ArrayPages(count), pagesPa)
    && Leads(m, dir, 0xF000_0000, count, 0)
    && Leads(m, dir, 0xEFFF_8000, 8, stackPa)
    && SlotsRight(m, dir)
  }

  // The map that initialize_memory builds passes exactly when the machine has no frame beyond the
  // remapped window and bootstack is page aligned.
  lemma BuiltPassesIff(m: Memory, m': Memory, dir: nat, count: nat, pagesPa: Word, stackPa: Word)
    requires Tree(m, dir) && Built(m, m', dir, pagesPa, stackPa) && count <= 0x8_0000
    requires pagesPa % PAGE_SIZE == 0 && pagesPa + PAGE_TABLE_SIZE <= TWO32
    ensures dir < |m'.frames|
    ensures Passes(m', dir, count, pagesPa, stackPa) <==> count <= 0xFFFF && stackPa % PAGE_SIZE == 0
  {
    hide Present, Pfn, Built, SlotsRight, Leads;
    BuiltSlots(m, m', dir, pagesPa, stackPa);
    RemapLeadsIff(m, m', dir, count, pagesPa, stackPa);
    StackLeadsIff(m, m', dir, pagesPa, stackPa);
    if count <= 0xFFFF {
      ArrayLeads(m, m', dir, count, pagesPa, stackPa);
    }
  }

  lemma PageInside(base: Word, k: nat)
    requires base + k * PAGE_SIZE < TWO32
    ensures PageAddress(base, k) == base + k * PAGE_SIZE
  {
  }

  lemma ArrayLeads(m: Memory, m': Memory, dir: nat, count: nat, pagesPa: Word, stackPa: Word)
    requires Tree(m, dir) && Built(m, m', dir, pagesPa, stackPa) && count <= 0xFFFF
    requires pagesPa % PAGE_SIZE == 0 && pagesPa + PAGE_TABLE_SIZE <= TWO32
    ensures dir < |m'.frames| && Leads(m', dir, 0xEF00_0000, ArrayPages(count), pagesPa)
  {
    BuiltTree(m, m', dir, pagesPa, stackPa);
    hide Present, Pfn, Built, Va2pa, Tree, PageAddress;
    forall k: nat | k < ArrayPages(count)
      ensures LeadsAt(m', dir, 0xEF00_0000, pagesPa, k)
    {
      PageInside(0xEF00_0000, k);
      PageInside(pagesPa, k);
      CheckPages(m, m', dir, pagesPa, stackPa, k);
    }
  }

  lemma RemapLeadsIff(m: Memory, m': Memory, dir: nat, count: nat, pagesPa: Word, stackPa: Word)
    requires Tree(m, dir) && Built(m, m', dir, pagesPa, stackPa)
    ensures dir < |m'.frames| && (Leads(m', dir, 0xF000_0000, count, 0) <==> count <= 0xFFFF)
  {
    BuiltTree(m, m', dir, pagesPa, stackPa);
    hide Present, Pfn, Built, Va2pa, Tree, PageAddress;
    CheckRemap(m, m', dir, pagesPa, stackPa, REMAPPED);
    PageInside(0xF000_0000, REMAPPED);
    PageInside(0, REMAPPED);
    assert !LeadsAt(m', dir, 0xF000_0000, 0, REMAPPED);
    if count <= 0xFFFF {
      forall k: nat | k < count
        ensures LeadsAt(m', dir, 0xF000_0000, 0, k)
      {
        PageInside(0xF000_0000, k);
        PageInside(0, k);
        CheckRemap(m, m', dir, pagesPa, stackPa, k);
      }
    }
  }

  lemma StackLeadsIff(m: Memory, m': Memory, dir: nat, pagesPa: Word, stackPa: Word)
    requires Tree(m, dir) && Built(m, m', dir, pagesPa, stackPa)
    ensures dir < |m'.frames| && (Leads(m', dir, 0xEFFF_8000, 8, stackPa) <==> stackPa % PAGE_SIZE == 0)
  {
    BuiltTree(m, m', dir, pagesPa, stackPa);
    hide Present, Pfn, Built, Va2pa, Tree, PageAddress;
    forall k: nat | k < 8
      ensures LeadsAt(m', dir, 0xEFFF_8000, stackPa, k) <==> stackPa % PAGE_SIZE == 0
    {
      PageInside(0xEFFF_8000, k);
      StackLead(m, m', dir, pagesPa, stackPa, k);
    }
    assert LeadsAt(m', dir, 0xEFFF_8000, stackPa, 0) <==> stackPa % PAGE_SIZE == 0;
  }

  lemma StackLead(m: Memory, m': Memory, dir: nat, pagesPa: Word, stackPa: Word, k: nat)
    requires Tree(m, dir) && Built(m, m', dir, pagesPa, stackPa) && k < 8
    ensures dir < |m'.frames| && (LeadsAt(m', dir, 0xEFFF_8000, stackPa, k) <==> stackPa % PAGE_SIZE == 0)
  {
    BuiltTree(m, m', dir, pagesPa, stackPa);
    hide Present, Pfn, Built, Va2pa, Tree;
    PageInside(0xEFFF_8000, k);
    CheckStack(m, m', dir, pagesPa, stackPa, k);
  }

  lemma BuiltSlots(m: Memory, m': Memory, dir: nat, pagesPa: Word, stackPa: Word)
    requires Tree(m, dir) && Built(m, m', dir, pagesPa, stackPa)
    ensures dir < |m'.frames| && SlotsRight(m', dir)
  {
    hide Present, Pfn, AllowsWrite;
    DirectorySlots(m, m', dir, pagesPa, stackPa);
    forall d | 956 <= d < 1024 && d != 958
      ensures Present(Pde(m', dir, d))
      ensures d > 960 ==> AllowsWrite(Pde(m', dir, d))
    {
      assert Pde(m', dir, d) == m'.frames[dir][d];
    }
  }
}
