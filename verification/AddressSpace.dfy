// What inserting and removing pages means to a caller, the recursive self-map, and the directory
// given to a new task (src/kernel/kmap.c, src/kernel/proc.c).
module AddressSpace {
  import opened Words
  import opened Mmu
  import opened PageMemory

  // ----- insert, search, remove

  // The round trip of a held page: inserted where nothing was mapped and removed again, it heads the
  // free list, and every translation outside the self-map window is what it was.
  lemma InsertThenRemove(m: Memory, dir: nat, p: nat, v: nat, perm: nat)
    requires CanInsert(m, dir, p, v) && perm < PAGE_SIZE && p != 0
    requires m.refs[p] == 0 && Search(m, dir, v) == -1
    ensures var m1 := Insert(m, dir, p, v, perm);
            && Counted(m1, dir) && HasTable(m1, dir, v / 1024)
            && Search(m1, dir, v) == p && m1.refs[p] == 1
            && var m2 := Remove(m1, dir, v);
            && Counted(m2, dir) && Search(m2, dir, v) == -1
            && m2.free == [p] + WithTable(m, dir, v / 1024).free && m2.refs[p] == 0
            && forall u :: 0 <= u < PAGES && u / 1024 != SELF ==> Pte(m2, dir, u) == Pte(m, dir, u)
  {
    var m1 := Insert(m, dir, p, v, perm);
    WithTableWalks(m, dir, v / 1024);
    InsertCounted(m, dir, p, v, perm);
    RemoveCounted(m1, dir, v);
    assert EntryOk(m, dir, v);
    ZeroEntry();
    hide Present, Pfn, Pte, Insert, Remove, WithTable;
    if !HasTable(m, dir, v / 1024) {
      assert m.free[0] in m.free;
    }
  }

  // The requested permissions are installed exactly when the page was not already mapped there, or
  // permissions is zero, or the entry already had them.
  lemma PermissionsInstalledIff(m: Memory, dir: nat, p: nat, v: nat, perm: nat)
    requires CanInsert(m, dir, p, v) && perm < PAGE_SIZE && p != 0
    ensures Pte(Insert(m, dir, p, v, perm), dir, v) == Entry(p, perm) <==>
            (Search(m, dir, v) != p || perm == 0 || Pte(m, dir, v) == Entry(p, perm))
  {
    InsertCounted(m, dir, p, v, perm);
    assert EntryOk(m, dir, v);
    ZeroEntry();
  }

  // The failing case, concretely: a page mapped with PTE_U and inserted again with PTE_W at the same
  // address keeps the entry of the first call.
  lemma PermissionsKept(m: Memory, dir: nat, p: nat, v: nat)
    requires CanInsert(m, dir, p, v) && p != 0 && Search(m, dir, v) != p
    ensures var m1 := Insert(m, dir, p, v, PTE_U);
            && CanInsert(m1, dir, p, v)
            && Pte(Insert(m1, dir, p, v, PTE_W), dir, v) == Entry(p, PTE_U) != Entry(p, PTE_W)
  {
    var m1 := Insert(m, dir, p, v, PTE_U);
    InsertCounted(m, dir, p, v, PTE_U);
    InsertAgain(m, dir, p, v, PTE_U);
    PermissionsInstalledIff(m, dir, p, v, PTE_U);
    InsertCounted(m1, dir, p, v, PTE_W);
  }

  // A page that was inserted can be inserted again.
  lemma InsertAgain(m: Memory, dir: nat, p: nat, v: nat, perm: nat)
    requires CanInsert(m, dir, p, v) && perm < PAGE_SIZE && p != 0
    ensures CanInsert(Insert(m, dir, p, v, perm), dir, p, v)
  {
    var m1 := Insert(m, dir, p, v, perm);
    InsertCounted(m, dir, p, v, perm);
    hide Present, Pfn, Pte, Insert, WithTable, Mappings, IsTable;
    ZeroEntry();
    assert EntryOk(m1, dir, v);
    CountPositive(m1, dir, v);
  }

  // ----- page 0

  // Page 0 as the kernel keeps it, reserved: it is on no list and nothing dynamic maps it.
  lemma ReservedUnmapped(m: Memory, dir: nat, p: nat, v: nat)
    requires Counted(m, dir) && p in m.reserved && v < PAGES && Dynamic(v)
    ensures p !in m.free && Search(m, dir, v) != p
  {
    hide Present, Pfn, Pte;
    assert EntryOk(m, dir, v);
    ZeroEntry();
  }

  // Page 0 cannot be told from an absent entry by its address. Where it is not mapped already, it is
  // found afterwards with one more reference exactly when the address mapped another page before;
  // else it is either not mapped, or mapped and not counted.
  lemma InsertPageZero(m: Memory, dir: nat, v: nat, perm: nat)
    requires Counted(m, dir) && v < PAGES && Dynamic(v) && perm < PAGE_SIZE
    requires HasTable(m, dir, v / 1024) || |m.free| > 0
    requires 0 !in m.free && Search(m, dir, v) != 0
    ensures var m' := Insert(m, dir, 0, v, perm);
            && |m'.refs| == |m.refs|
            && (Search(m', dir, v) == 0 && m'.refs[0] == m.refs[0] + 1 <==> Present(Pte(m, dir, v)))
            && (Present(Pte(m, dir, v)) ==> Pte(m', dir, v) == Entry(0, perm))
            && (!Present(Pte(m, dir, v)) ==> m'.refs[0] == m.refs[0])
            && (!Present(Pte(m, dir, v)) ==> Search(m', dir, v) == if perm == 0 then 0 else -1)
  {
    hide Present, Pfn;
    WithTableWalks(m, dir, v / 1024);
    WithTableCounted(m, dir, v / 1024);
    var m1 := WithTable(m, dir, v / 1024);
    assert EntryOk(m, dir, v);
    ZeroEntry();
    assert Pte(m1, dir, v) == Pte(m, dir, v);
    if !Present(Pte(m, dir, v)) {
      if perm == 0 {
        SetPteWalks(m1, dir, v, Entry(0, 0));
      }
    } else {
      MapOverEntry(m1, dir, 0, v, perm);
    }
  }

  // Over the mapping of another page, a page is mapped and counted whatever it is.
  lemma MapOverEntry(m: Memory, dir: nat, p: nat, v: nat, perm: nat)
    requires Counted(m, dir) && v < PAGES && Dynamic(v) && HasTable(m, dir, v / 1024) && perm < PAGE_SIZE
    requires p < |m.frames| && Present(Pte(m, dir, v)) && Search(m, dir, v) != p
    ensures var m' := MapHere(m, dir, p, v, perm);
            && |m'.refs| == |m.refs| && |m'.frames| == |m.frames|
            && Pte(m', dir, v) == Entry(p, perm) && m'.refs[p] == m.refs[p] + 1
  {
    hide Present, Pfn;
    assert EntryOk(m, dir, v);
    ZeroEntry();
    RemoveCounted(m, dir, v);
    var m2 := Remove(m, dir, v);
    var m3 := m2.(refs := m2.refs[p := m2.refs[p] + 1]);
    hide Remove, Counted, EntryOk;
    WriteAnywhere(m2, m3, dir, v, Entry(p, perm));
  }

  // Counts play no part in what a table entry becomes.
  lemma WriteAnywhere(m: Memory, m1: Memory, dir: nat, v: nat, e: Word)
    requires dir < |m.frames| && v < PAGES && HasTable(m, dir, v / 1024) && TableOf(m, dir, v / 1024) < |m.frames|
    requires m1.frames == m.frames && TableOf(m, dir, v / 1024) != dir
    ensures var m' := SetPte(m1, dir, v, e); m'.refs == m1.refs && |m'.frames| == |m.frames| && Pte(m', dir, v) == e
  {
    hide Present, Pfn;
  }

  // ----- the windows mapped at boot

  // Their mappings are not counted, so remove_page on them keeps the counts exactly when it finds
  // nothing; a count of zero becomes 2^32 - 1, ...
  lemma RemoveStaticIff(m: Memory, dir: nat, v: nat)
    requires Counted(m, dir) && v < PAGES && !Dynamic(v) && HasTable(m, dir, v / 1024)
    ensures Counted(Remove(m, dir, v), dir) <==> Search(m, dir, v) == -1
    ensures var p := Search(m, dir, v);
            p != -1 ==> Remove(m, dir, v).refs[p] == if m.refs[p] == 0 then 0xFFFF_FFFF else m.refs[p] - 1
  {
    hide Present, Pfn;
    SlotInside(m, dir, v / 1024);
    if Search(m, dir, v) != -1 {
      var p, m1 := Search(m, dir, v), Remove(m, dir, v);
      SetPteWalks(m, dir, v, 0);
      hide Search, Walk;
      MiscountedStatic(m, m1, dir, v, 0, p);
    }
  }

  // ... and insert_page exactly when the entry names that page already.
  lemma InsertStaticIff(m: Memory, dir: nat, p: nat, v: nat, perm: nat)
    requires Counted(m, dir) && v < PAGES && !Dynamic(v) && HasTable(m, dir, v / 1024)
    requires p < |m.frames| && perm < PAGE_SIZE
    ensures Counted(Insert(m, dir, p, v, perm), dir) <==> Pfn(Pte(m, dir, v)) == p
  {
    hide Present, Pfn;
    SlotInside(m, dir, v / 1024);
    var e, m' := Entry(p, perm), Insert(m, dir, p, v, perm);
    SetPteWalks(m, dir, v, e);
    SetPteWalks(m, dir, v, 0);
    EvictSlots(m, dir, v);
    if Pfn(Pte(m, dir, v)) == p {
      SameCounts(m, SetPte(m, dir, v, e), dir);
    } else {
      var m2 := if Present(Pte(m, dir, v)) then Remove(m, dir, v) else m;
      WriteTwice(m, m2.(refs := m2.refs[p := m2.refs[p] + 1]), dir, v, e);
      MiscountedStatic(m, m', dir, v, e, p);
    }
  }

  lemma WriteTwice(m: Memory, m2: Memory, dir: nat, v: nat, e: Word)
    requires dir < |m.frames| && v < PAGES && TableOf(m, dir, v / 1024) < |m.frames| && TableOf(m, dir, v / 1024) != dir
    requires m2.frames == m.frames || m2.frames == SetPte(m, dir, v, 0).frames
    ensures TableOf(m2, dir, v / 1024) == TableOf(m, dir, v / 1024)
    ensures SetPte(m2, dir, v, e).frames == SetPte(m, dir, v, e).frames
  {
    hide Present, Pfn;
    var t := TableOf(m, dir, v / 1024);
    assert m.frames[t][v % 1024 := 0][v % 1024 := e] == m.frames[t][v % 1024 := e];
  }

  lemma MiscountedStatic(m: Memory, m': Memory, dir: nat, v: nat, e: Word, p: nat)
    requires Counted(m, dir) && v < PAGES && !Dynamic(v) && HasTable(m, dir, v / 1024)
    requires TableOf(m, dir, v / 1024) < |m.frames| && m'.frames == SetPte(m, dir, v, e).frames
    requires |m'.refs| == |m.refs| && m'.reserved == m.reserved && p < |m.refs| && m'.refs[p] != m.refs[p]
    ensures !Counted(m', dir)
  {
    hide Present, Pfn;
    SetPteWalks(m, dir, v, e);
    SameTables(m, m', dir);
    SameMappings(m, m', dir);
    hide Pte, SetPte;
    assert m.refs[p] == CountOf(m, dir, p) == CountOf(m', dir, p);
  }

  lemma SameCounts(m: Memory, m': Memory, dir: nat)
    requires Counted(m, dir) && Tree(m', dir) && m'.refs == m.refs && m'.reserved == m.reserved
    requires |m'.frames| == |m.frames|
    requires forall d :: 0 <= d < 1024 ==> Pde(m', dir, d) == Pde(m, dir, d)
    requires forall u :: 0 <= u < PAGES && Dynamic(u) ==> Pte(m', dir, u) == Pte(m, dir, u)
    ensures Counted(m', dir)
  {
    hide Present, Pfn;
    SameTables(m, m', dir);
    SameMappings(m, m', dir);
    hide Pte, Pde, IsTable, Mappings, Tree;
    forall q | 0 <= q < |m'.refs|
      ensures m'.refs[q] == CountOf(m', dir, q)
    {
      assert m.refs[q] == CountOf(m, dir, q);
    }
    forall u | 0 <= u < PAGES && Dynamic(u)
      ensures EntryOk(m', dir, u)
    {
      assert EntryOk(m, dir, u);
    }
  }

  // ----- the recursive self-map

  // The hardware walk: the physical address behind va, or -1.
  function Physical(m: Memory, dir: nat, va: Word): int
    requires dir < |m.frames|
  {
    var p := Walk(m, dir, va / PAGE_SIZE);
    if p == -1 then -1 else p * PAGE_SIZE + va % PAGE_SIZE
  }

  // The word at a physical address.
  function Load(m: Memory, pa: nat): Word
    requires pa / PAGE_SIZE < |m.frames|
  {
    m.frames[pa / PAGE_SIZE][pa % PAGE_SIZE / 4]
  }

  ghost predicate SelfMapped(m: Memory, dir: nat) {
    dir < |m.frames| && Present(Pde(m, dir, SELF)) && Pfn(Pde(m, dir, SELF)) == dir
  }

  // Where the page-table window shows the entry of va.
  function PteAddress(va: Word): Word {
    U_VIRTUAL_PAGE_TABLE + 4 * Pgnum(va)
  }

  lemma PteAddressFields(va: Word)
    ensures var w, n := PteAddress(va), va / PAGE_SIZE;
            && w / PAGE_SIZE / 1024 == SELF && w / PAGE_SIZE % 1024 == n / 1024
            && w % PAGE_SIZE == 4 * (n % 1024)
  {
    hide And, Shr, Pgnum;
    var n := va / PAGE_SIZE;
    var d, x := n / 1024, n % 1024;
    var w := PteAddress(va);
    assert w == (SELF * 1024 + d) * PAGE_SIZE + 4 * x;
    DivUnique(w, PAGE_SIZE, SELF * 1024 + d, 4 * x);
    DivUnique(SELF * 1024 + d, 1024, SELF, d);
  }

  // Reading the page-table window at PteAddress(va) reaches the very word that maps va.
  lemma SelfMap(m: Memory, dir: nat, va: Word)
    requires SelfMapped(m, dir)
    requires var e := Pde(m, dir, Pdx(va)); Present(e) && Pfn(e) < |m.frames|
    ensures var pa := Physical(m, dir, PteAddress(va));
            && pa == Pfn(Pde(m, dir, Pdx(va))) * PAGE_SIZE + 4 * Ptx(va)
            && Load(m, pa) == Pte(m, dir, Pgnum(va))
  {
    hide And, Shr, Pdx, Ptx, Pgnum, PteAddress, Present;
    PteAddressFields(va);
    Decompose(va);
    var w, d, x := PteAddress(va), Pdx(va), Ptx(va);
    var e := Pde(m, dir, d);
    assert Pte(m, dir, w / PAGE_SIZE) == e;
    hide Pfn;
    var t := Pfn(e);
    DivUnique(t * PAGE_SIZE + 4 * x, PAGE_SIZE, t, 4 * x);
  }

  // ----- rights

  // What the hardware allows at va, with write protection on: the directory entry and the table entry
  // must both allow it (section 4.6 of the Intel SDM, volume 3A).
  predicate UserMay(m: Memory, dir: nat, va: Word)
    requires dir < |m.frames|
  {
    var v := va / PAGE_SIZE;
    Present(Pte(m, dir, v)) && AllowsUser(Pde(m, dir, v / 1024)) && AllowsUser(Pte(m, dir, v))
  }

  predicate WriteMay(m: Memory, dir: nat, va: Word)
    requires dir < |m.frames|
  {
    var v := va / PAGE_SIZE;
    Present(Pte(m, dir, v)) && AllowsWrite(Pde(m, dir, v / 1024)) && AllowsWrite(Pte(m, dir, v))
  }

  // Every table can be reached with all rights, so that its entries decide.
  ghost predicate TablesOpen(m: Memory, dir: nat)
    requires dir < |m.frames|
  {
    forall d :: 0 <= d < 1024 && HasTable(m, dir, d) ==> Pde(m, dir, d) % PAGE_SIZE == 7
  }

  lemma WithTableOpen(m: Memory, dir: nat, d: nat)
    requires Tree(m, dir) && TablesOpen(m, dir) && d < 1024 && d != SELF
    requires Present(Pde(m, dir, d)) || |m.free| > 0
    ensures TablesOpen(WithTable(m, dir, d), dir)
  {
    hide Present, Pfn;
    WithTableWalks(m, dir, d);
    var m' := WithTable(m, dir, d);
    forall c | 0 <= c < 1024 && HasTable(m', dir, c)
      ensures Pde(m', dir, c) % PAGE_SIZE == 7
    {
      if c != d {
        assert Pde(m', dir, c) == Pde(m, dir, c);
      }
    }
  }

  // A page inserted where it was not mapped may be used by user code, or written, exactly as the
  // bits 2 and 1 of permissions say.
  lemma InsertAccess(m: Memory, dir: nat, p: nat, va: Word, perm: nat)
    requires CanInsert(m, dir, p, va / PAGE_SIZE) && perm < PAGE_SIZE && p != 0
    requires TablesOpen(m, dir) && Search(m, dir, va / PAGE_SIZE) != p
    ensures var m' := Insert(m, dir, p, va / PAGE_SIZE, perm);
            && TablesOpen(m', dir) && Physical(m', dir, va) == p * PAGE_SIZE + va % PAGE_SIZE
            && (UserMay(m', dir, va) <==> perm / 4 % 2 == 1)
            && (WriteMay(m', dir, va) <==> perm / 2 % 2 == 1)
  {
    hide Present, Pfn, Insert, WithTable, MakeEntry, AllowsUser, AllowsWrite, Mapped, Pte, Pde, UserMay, WriteMay;
    var v := va / PAGE_SIZE;
    InsertOpen(m, dir, p, v, perm);
    InsertCounted(m, dir, p, v, perm);
    NotMappedYet(m, dir, p, v, perm);
    AccessOf(Insert(m, dir, p, v, perm), dir, va, p, perm);
  }

  lemma NotMappedYet(m: Memory, dir: nat, p: nat, v: nat, perm: nat)
    requires CanInsert(m, dir, p, v) && perm < PAGE_SIZE && p != 0 && Search(m, dir, v) != p
    ensures Mapped(Pte(m, dir, v), p, perm) == Entry(p, perm)
  {
    assert EntryOk(m, dir, v);
    ZeroEntry();
  }

  lemma AccessOf(m: Memory, dir: nat, va: Word, p: nat, perm: nat)
    requires dir < |m.frames| && p < PAGES && perm < PAGE_SIZE
    requires Pte(m, dir, va / PAGE_SIZE) == Entry(p, perm) && Pde(m, dir, va / PAGE_SIZE / 1024) % PAGE_SIZE == 7
    ensures Physical(m, dir, va) == p * PAGE_SIZE + va % PAGE_SIZE
    ensures (UserMay(m, dir, va) <==> perm / 4 % 2 == 1) && (WriteMay(m, dir, va) <==> perm / 2 % 2 == 1)
  {
    hide Present, Pfn, MakeEntry, AllowsUser, AllowsWrite, Pte, Pde;
    LowBits(Pde(m, dir, va / PAGE_SIZE / 1024));
    LowBits(Entry(p, perm));
    PermBits(perm);
  }

  lemma PermBits(perm: nat)
    ensures (perm / 2 * 2 + 1) / 2 % 2 == perm / 2 % 2 && (perm / 2 * 2 + 1) / 4 % 2 == perm / 4 % 2
  {
    var h := perm / 2;
    DivUnique(2 * h + 1, 2, h, 1);
    DivUnique(2 * h + 1, 4, h / 2, 2 * (h % 2) + 1);
    DivUnique(perm, 4, h / 2, 2 * (h % 2) + perm % 2);
  }

  lemma InsertOpen(m: Memory, dir: nat, p: nat, v: nat, perm: nat)
    requires CanInsert(m, dir, p, v) && perm < PAGE_SIZE && p != 0 && TablesOpen(m, dir)
    ensures TablesOpen(Insert(m, dir, p, v, perm), dir)
  {
    WithTableOpen(m, dir, v / 1024);
    WithTableCounted(m, dir, v / 1024);
    NotTable(m, dir, v / 1024, p);
    WithTableWalks(m, dir, v / 1024);
    MapHereCounted(WithTable(m, dir, v / 1024), dir, p, v, perm);
    hide Present, Pfn, WithTable, MapHere;
  }

  // ----- the directory of a new task

  // proc_init_vm: a page from the free list gets a copy of the directory with its own self-map.
  function TaskDirectory(m: Memory, dir: nat): Memory
    requires Tree(m, dir) && |m.free| > 0
  {
    var p := m.free[0];
    m.(free := m.free[1..], refs := m.refs[p := m.refs[p] + 1],
       frames := m.frames[p := m.frames[dir][SELF := Entry(p, PTE_P + PTE_W)]],
       reserved := m.reserved + {p})
  }

  // The new directory maps itself and translates every other address as the kernel's does, and the
  // kernel's own mappings and counts are undisturbed.
  lemma TaskDirectoryTranslates(m: Memory, dir: nat)
    requires Counted(m, dir) && |m.free| > 0
    ensures var m', p := TaskDirectory(m, dir), m.free[0];
            && Counted(m', dir) && SameWalks(m, m', dir)
            && SelfMapped(m', p) && Pde(m', p, SELF) == p * PAGE_SIZE + 3
            && (forall d :: 0 <= d < 1024 && d != SELF ==> Pde(m', p, d) == Pde(m, dir, d))
            && forall va: Word :: Pdx(va) != SELF ==> Physical(m', p, va) == Physical(m, dir, va)
  {
    var m', p := TaskDirectory(m, dir), m.free[0];
    assert p in m.free;
    FreePageUnmapped(m, dir, p);
    hide Present, Pfn;
    WriteElsewhere(m, m', dir, p, m'.frames[p]);
    TaskCounted(m, m', dir, p);
    forall va: Word | Pdx(va) != SELF
      ensures Physical(m', p, va) == Physical(m, dir, va)
    {
      Decompose(va);
      var v := va / PAGE_SIZE;
      var d := v / 1024;
      assert Pde(m', p, d) == Pde(m, dir, d);
      assert HasTable(m, dir, d) ==> TableOf(m, dir, d) != p;
    }
  }

  // Reserving the head of the free list with one reference keeps the counts.
  lemma TaskCounted(m: Memory, m': Memory, dir: nat, p: nat)
    requires Counted(m, dir) && |m.free| > 0 && p == m.free[0] && SameWalks(m, m', dir)
    requires m'.free == m.free[1..] && m'.refs == m.refs[p := 1] && m'.reserved == m.reserved + {p}
    ensures Counted(m', dir)
  {
    hide Present, Pfn;
    assert p in m.free;
    FreePageUnmapped(m, dir, p);
    SameTables(m, m', dir);
    SameMappings(m, m', dir);
    forall d | 0 <= d < 1024
      ensures HasTable(m', dir, d) <==> HasTable(m, dir, d)
      ensures TableOf(m', dir, d) == TableOf(m, dir, d)
      ensures HasTable(m, dir, d) ==> TableOf(m, dir, d) != p
    {
      assert Pde(m', dir, d) == Pde(m, dir, d);
    }
    assert Pde(m', dir, SELF) == Pde(m, dir, SELF);
    hide Pte, Pde, IsTable, Mappings;
    forall q | 0 <= q < |m'.refs|
      ensures m'.refs[q] == CountOf(m', dir, q)
    {
      assert m.refs[q] == CountOf(m, dir, q);
    }
    forall v | 0 <= v < PAGES && Dynamic(v)
      ensures EntryOk(m', dir, v)
    {
      assert EntryOk(m, dir, v);
      assert Pte(m', dir, v) == Pte(m, dir, v);
    }
  }
}
