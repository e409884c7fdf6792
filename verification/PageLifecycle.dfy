// Runs of the page allocator and the page tables together with a translation cache that the
// hardware may fill or evict at any time (sections 4.3 and 4.10 of the Intel SDM, volume 3A).
module PageLifecycle {
  import opened Words
  import opened Mmu
  import opened PageMemory
  import opened AddressSpace

  type Cache = map<nat, (Word, Word)>

  // A cached translation is the directory entry and the table entry that produced it.
  datatype Machine = Machine(mem: Memory, tlb: Cache)

  predicate Walks(m: Memory, dir: nat, v: nat, e: (Word, Word))
    requires dir < |m.frames|
  {
    v < PAGES && e == (Pde(m, dir, v / 1024), Pte(m, dir, v)) && Present(e.0) && Present(e.1)
  }

  ghost predicate Coherent(m: Memory, dir: nat, tlb: Cache)
    requires dir < |m.frames|
  {
    forall v :: v in tlb ==> Walks(m, dir, v, tlb[v])
  }

  ghost predicate Inv(s: Machine, dir: nat) {
    Counted(s.mem, dir) && Coherent(s.mem, dir, s.tlb)
  }

  // ----- steps

  datatype Step =
    | AllocPage(zero: bool)
    | FreePage(p: nat)
    | InsertPage(p: nat, v: nat, perm: nat)
    | RemovePage(v: nat)
    | Fill(v: nat)
    | Evict(v: nat)
    | Flush
    | Store(v: nat, x: nat, w: Word)
    | NewTask

  // The frame a store to virtual page v reaches: the cached one if there is one.
  function Target(s: Machine, dir: nat, v: nat): nat
    requires dir < |s.mem.frames| && v < PAGES
  {
    if v in s.tlb then Pfn(s.tlb[v].1) else Pfn(Pte(s.mem, dir, v))
  }

  ghost predicate Enabled(s: Machine, dir: nat, step: Step)
    requires Inv(s, dir)
  {
    match step
    case AllocPage(_) => |s.mem.free| > 0
    case FreePage(p) => p < |s.mem.refs| && s.mem.refs[p] == 0 && p !in s.mem.free
    case InsertPage(p, v, perm) => CanInsert(s.mem, dir, p, v) && perm < PAGE_SIZE && p != 0
    case RemovePage(v) => v < PAGES && Dynamic(v) && HasTable(s.mem, dir, v / 1024)
    case Fill(v) => v < PAGES && Present(Pde(s.mem, dir, v / 1024)) && Present(Pte(s.mem, dir, v))
    case Evict(v) => true
    case Flush => true
    case Store(v, x, _) =>
      && v < PAGES && Dynamic(v) && x < 1024
      && (v in s.tlb || Present(Pte(s.mem, dir, v))) && Target(s, dir, v) < |s.mem.frames|
    case NewTask => |s.mem.free| > 0
  }

  ghost function Next(s: Machine, dir: nat, step: Step): Machine
    requires Inv(s, dir) && Enabled(s, dir, step)
  {
    match step
    case AllocPage(zero) => s.(mem := Alloc(s.mem, zero))
    case FreePage(p) => s.(mem := Release(s.mem, p))
    case InsertPage(p, v, perm) =>
      Machine(Insert(s.mem, dir, p, v, perm), if Invalidates(s.mem, dir, p, v, perm) then s.tlb - {v} else s.tlb)
    case RemovePage(v) =>
      Machine(Remove(s.mem, dir, v), if Search(s.mem, dir, v) != -1 then s.tlb - {v} else s.tlb)
    case Fill(v) => s.(tlb := s.tlb[v := (Pde(s.mem, dir, v / 1024), Pte(s.mem, dir, v))])
    case Evict(v) => s.(tlb := s.tlb - {v})
    case Flush => s.(tlb := map[])
    case Store(v, x, w) =>
      var p := Target(s, dir, v);
      s.(mem := s.mem.(frames := s.mem.frames[p := s.mem.frames[p][x := w]]))
    case NewTask => s.(mem := TaskDirectory(s.mem, dir))
  }

  // insert_page executes invlpg when it evicts another page, or when it rewrites the same page.
  predicate Invalidates(m: Memory, dir: nat, p: nat, v: nat, perm: nat)
    requires dir < |m.frames| && v < PAGES
  {
    if Pfn(Pte(m, dir, v)) == p then perm == 0 else Search(m, dir, v) != -1
  }

  // ----- every step keeps the invariant

  lemma CoherentSameWalks(m: Memory, m': Memory, dir: nat, tlb: Cache)
    requires dir < |m.frames| && Coherent(m, dir, tlb) && SameWalks(m, m', dir)
    ensures Coherent(m', dir, tlb)
  {
    hide Present, Pde, Pte;
  }

  lemma RemoveKeepsInv(s: Machine, dir: nat, v: nat)
    requires Inv(s, dir) && Enabled(s, dir, RemovePage(v))
    ensures Inv(Next(s, dir, RemovePage(v)), dir)
  {
    RemoveCounted(s.mem, dir, v);
    hide Present, Pfn, Pde, Pte, Remove;
  }

  lemma InsertKeepsInv(s: Machine, dir: nat, p: nat, v: nat, perm: nat)
    requires Inv(s, dir) && Enabled(s, dir, InsertPage(p, v, perm))
    ensures Inv(Next(s, dir, InsertPage(p, v, perm)), dir)
  {
    var m, m' := s.mem, Insert(s.mem, dir, p, v, perm);
    InsertCounted(m, dir, p, v, perm);
    assert EntryOk(m, dir, v);
    ZeroEntry();
    hide Pfn, Pde, Pte, Insert, Coherent;
    CoherentAfterInsert(m, m', dir, v, s.tlb, Next(s, dir, InsertPage(p, v, perm)).tlb);
  }

  lemma CoherentAfterInsert(m: Memory, m': Memory, dir: nat, v: nat, tlb: Cache, tlb': Cache)
    requires Tree(m, dir) && Tree(m', dir) && Coherent(m, dir, tlb) && v < PAGES && v / 1024 != SELF
    requires forall d :: 0 <= d < 1024 && Present(Pde(m, dir, d)) ==> Pde(m', dir, d) == Pde(m, dir, d)
    requires forall u :: 0 <= u < PAGES && u / 1024 != SELF && u != v ==> Pte(m', dir, u) == Pte(m, dir, u)
    requires forall u :: u in tlb' ==> u in tlb && tlb'[u] == tlb[u]
    requires v in tlb' ==> Pte(m', dir, v) == Pte(m, dir, v)
    ensures Coherent(m', dir, tlb')
  {
    WindowEntries(m, m', dir);
    hide Present, Pfn, Tree, Pde, Pte;
    forall u | u in tlb'
      ensures Walks(m', dir, u, tlb'[u])
    {
      assert Walks(m, dir, u, tlb[u]);
      if u / 1024 == SELF {
        assert Pte(m, dir, u) == Pde(m, dir, u % 1024);
        assert Pte(m', dir, u) == Pde(m', dir, u % 1024);
      }
    }
  }

  // In the self-map window the table is the directory itself.
  lemma WindowEntries(m: Memory, m': Memory, dir: nat)
    requires Tree(m, dir) && Tree(m', dir)
    ensures forall u :: 0 <= u < PAGES && u / 1024 == SELF ==>
              Pte(m, dir, u) == Pde(m, dir, u % 1024) && Pte(m', dir, u) == Pde(m', dir, u % 1024)
  {
    hide Present, Pfn;
  }

  // A new table is translated through nothing yet, so nothing cached is stale.
  lemma TableKeepsInv(s: Machine, dir: nat, d: nat)
    requires Inv(s, dir) && d < 1024 && d != SELF && (Present(Pde(s.mem, dir, d)) || |s.mem.free| > 0)
    ensures Inv(Machine(WithTable(s.mem, dir, d), s.tlb), dir)
  {
    var m, m' := s.mem, WithTable(s.mem, dir, d);
    WithTableWalks(m, dir, d);
    WithTableCounted(m, dir, d);
    WindowEntries(m, m', dir);
    hide Present, Pfn, WithTable;
    forall u | u in s.tlb
      ensures Walks(m', dir, u, s.tlb[u])
    {
      assert Walks(m, dir, u, s.tlb[u]);
      if u / 1024 == SELF {
        assert Pte(m, dir, u) == Pde(m, dir, u % 1024);
        assert Pte(m', dir, u) == Pde(m', dir, u % 1024);
      }
    }
  }

  // A store through a dynamic translation, cached or walked, reaches a mapped pool page: never a
  // table, the directory, a reserved page or a free page.
  lemma StoreTarget(s: Machine, dir: nat, v: nat)
    requires Inv(s, dir) && v < PAGES && Dynamic(v) && (v in s.tlb || Present(Pte(s.mem, dir, v)))
    ensures var p := Target(s, dir, v);
            && p < |s.mem.frames| && p != dir && !IsTable(s.mem, dir, p)
            && p !in s.mem.reserved && p !in s.mem.free && v in Mappings(s.mem, dir, p)
  {
    assert v in s.tlb ==> Walks(s.mem, dir, v, s.tlb[v]);
    assert EntryOk(s.mem, dir, v);
    CountPositive(s.mem, dir, v);
  }

  lemma StoreKeepsInv(s: Machine, dir: nat, v: nat, x: nat, w: Word)
    requires Inv(s, dir) && Enabled(s, dir, Store(v, x, w))
    ensures Inv(Next(s, dir, Store(v, x, w)), dir)
  {
    StoreTarget(s, dir, v);
    var m, m' := s.mem, Next(s, dir, Store(v, x, w)).mem;
    var p := Target(s, dir, v);
    WriteElsewhere(m, m', dir, p, m'.frames[p]);
    CountedFromWalks(m, m', dir);
    CoherentSameWalks(m, m', dir, s.tlb);
  }

  lemma StepKeepsInv(s: Machine, dir: nat, step: Step)
    requires Inv(s, dir) && Enabled(s, dir, step)
    ensures Inv(Next(s, dir, step), dir)
    ensures Next(s, dir, step).mem.reserved
            == s.mem.reserved + if step.NewTask? then {s.mem.free[0]} else {}
  {
    match step
    case AllocPage(zero) =>
      AllocCounted(s.mem, dir, zero);
      CoherentSameWalks(s.mem, Alloc(s.mem, zero), dir, s.tlb);
    case FreePage(p) =>
      ReleaseCounted(s.mem, dir, p);
      CoherentSameWalks(s.mem, Release(s.mem, p), dir, s.tlb);
    case InsertPage(p, v, perm) =>
      InsertKeepsInv(s, dir, p, v, perm);
      InsertCounted(s.mem, dir, p, v, perm);
    case RemovePage(v) =>
      RemoveKeepsInv(s, dir, v);
      RemoveCounted(s.mem, dir, v);
    case Store(v, x, w) =>
      StoreKeepsInv(s, dir, v, x, w);
    case NewTask =>
      TaskDirectoryTranslates(s.mem, dir);
      CoherentSameWalks(s.mem, TaskDirectory(s.mem, dir), dir, s.tlb);
    case _ =>
  }

  // ----- runs

  ghost predicate Runs(s: Machine, dir: nat, steps: seq<Step>)
    requires Inv(s, dir)
    decreases |steps|
  {
    steps == [] ||
    (Enabled(s, dir, steps[0]) &&
     (StepKeepsInv(s, dir, steps[0]); Runs(Next(s, dir, steps[0]), dir, steps[1..])))
  }

  ghost function Run(s: Machine, dir: nat, steps: seq<Step>): Machine
    requires Inv(s, dir) && Runs(s, dir, steps)
    decreases |steps|
  {
    if steps == [] then s
    else
      StepKeepsInv(s, dir, steps[0]);
      Run(Next(s, dir, steps[0]), dir, steps[1..])
  }

  function Bit(b: bool): nat {
    if b then 1 else 0
  }

  // A page is exactly one of free, held by a caller and unmapped, mapped at a dynamic address, a
  // page table, and reserved.
  ghost predicate InOnePlace(m: Memory, dir: nat, p: nat)
    requires dir < |m.frames| && p < |m.refs|
  {
    1 == Bit(p in m.free)
         + Bit(p !in m.free && m.refs[p] == 0)
         + Bit(Mappings(m, dir, p) != {})
         + Bit(IsTable(m, dir, p))
         + Bit(p in m.reserved)
  }

  lemma OnePlace(m: Memory, dir: nat, p: nat)
    requires Counted(m, dir) && p < |m.refs|
    ensures InOnePlace(m, dir, p)
  {
    hide Present, Pfn, Pte;
    ZeroEntry();
    assert m.refs[p] == CountOf(m, dir, p);
    if v :| v in Mappings(m, dir, p) {
      assert EntryOk(m, dir, v);
    }
  }

  // No page on the free list is reachable: not through a dynamic entry, not through a cached
  // translation of a dynamic address, not as a table.
  ghost predicate NoUseAfterFree(s: Machine, dir: nat)
    requires dir < |s.mem.frames|
  {
    forall p :: p in s.mem.free ==>
      && !IsTable(s.mem, dir, p)
      && (forall v :: 0 <= v < PAGES && Dynamic(v) && Present(Pte(s.mem, dir, v)) ==> Pfn(Pte(s.mem, dir, v)) != p)
      && (forall v :: v in s.tlb && Dynamic(v) ==> Pfn(s.tlb[v].1) != p)
  }

  lemma InvIsSafe(s: Machine, dir: nat)
    requires Inv(s, dir)
    ensures NoUseAfterFree(s, dir)
  {
    hide Present, Pfn, Pte, Dynamic;
    forall p | p in s.mem.free
      ensures !IsTable(s.mem, dir, p)
      ensures forall v :: 0 <= v < PAGES && Dynamic(v) && Present(Pte(s.mem, dir, v)) ==> Pfn(Pte(s.mem, dir, v)) != p
      ensures forall v :: v in s.tlb && Dynamic(v) ==> Pfn(s.tlb[v].1) != p
    {
      FreePageUnmapped(s.mem, dir, p);
      forall v | v in s.tlb && Dynamic(v)
        ensures Pfn(s.tlb[v].1) != p
      {
        assert Walks(s.mem, dir, v, s.tlb[v]);
      }
    }
  }

  // Over every run, whatever the hardware caches in between: the counts are exact, the cache is
  // coherent, no freed page is reachable, each page is in exactly one place, and the reserved
  // pages stay reserved; only the directories of new tasks join them.
  lemma {:induction false} RunIsSafe(s: Machine, dir: nat, steps: seq<Step>)
    requires Inv(s, dir) && Runs(s, dir, steps)
    ensures var s' := Run(s, dir, steps);
            && Inv(s', dir) && NoUseAfterFree(s', dir) && s.mem.reserved <= s'.mem.reserved
            && ((forall i :: 0 <= i < |steps| ==> !steps[i].NewTask?) ==> s'.mem.reserved == s.mem.reserved)
            && forall p :: 0 <= p < |s'.mem.refs| ==> InOnePlace(s'.mem, dir, p)
    decreases |steps|
  {
    if steps == [] {
      InvIsSafe(s, dir);
      forall p | 0 <= p < |s.mem.refs|
        ensures InOnePlace(s.mem, dir, p)
      {
        OnePlace(s.mem, dir, p);
      }
    } else {
      StepKeepsInv(s, dir, steps[0]);
      RunIsSafe(Next(s, dir, steps[0]), dir, steps[1..]);
    }
  }

  // ----- fills inside an operation

  // What the hardware may turn a cache into while the memory is m: entries dropped, and entries of
  // m filled in.
  ghost predicate Hardware(m: Memory, dir: nat, before: Cache, after: Cache)
    requires dir < |m.frames|
  {
    forall v :: v in after ==> (v in before && after[v] == before[v]) || Walks(m, dir, v, after[v])
  }

  lemma FillKeepsInv(m: Memory, dir: nat, before: Cache, after: Cache)
    requires Inv(Machine(m, before), dir) && Hardware(m, dir, before, after)
    ensures Inv(Machine(m, after), dir)
  {
  }

  // Storing the entry of a page that is not mapped makes nothing cached stale.
  lemma StoreEntryCoherent(m2: Memory, m': Memory, dir: nat, v: nat, t: Cache)
    requires dir < |m2.frames| == |m'.frames| && Coherent(m2, dir, t)
    requires v < PAGES && Pte(m2, dir, v) == 0
    requires forall d :: 0 <= d < 1024 ==> Pde(m', dir, d) == Pde(m2, dir, d)
    requires forall u :: 0 <= u < PAGES && u != v ==> Pte(m', dir, u) == Pte(m2, dir, u)
    ensures Coherent(m', dir, t)
  {
    hide Pfn, Pde, Pte;
  }

  // remove_page clears the entry, then frees the page, then invalidates. Fills in both gaps are
  // harmless: the entry is already clear, so only the stale translation of v can be cached, and it
  // is dropped at the end.
  lemma RemoveUnderFills(s: Machine, dir: nat, v: nat,
                         t1: Cache, t2: Cache)
    requires Inv(s, dir) && v < PAGES && Dynamic(v) && HasTable(s.mem, dir, v / 1024)
    requires Hardware(SetPte(s.mem, dir, v, 0), dir, s.tlb, t1)
    requires Hardware(Remove(s.mem, dir, v), dir, t1, t2)
    ensures Inv(Machine(Remove(s.mem, dir, v), t2 - {v}), dir)
  {
    var m1, m' := SetPte(s.mem, dir, v, 0), Remove(s.mem, dir, v);
    RemoveCounted(s.mem, dir, v);
    SetPteWalks(s.mem, dir, v, 0);
    hide Present, Pfn, Pde, Pte, Remove, SetPte;
    forall u | u in t2 - {v}
      ensures Walks(m', dir, u, t2[u])
    {
      assert Walks(m1, dir, u, t2[u]) ==> Walks(m', dir, u, t2[u]);
      assert Walks(s.mem, dir, u, t2[u]) ==> Walks(m', dir, u, t2[u]);
    }
  }

  // Fills in every gap of insert_page where it maps a page anew, turning m into m': t[0] while the
  // table is being fetched from the free list, t[1] once it is in the directory, t[2] after the entry
  // of an evicted page is cleared, t[3] after that page is released and before its translation is
  // dropped, t[4] before the new entry is stored, and t[5] after.
  ghost predicate InsertFills(m: Memory, m': Memory, dir: nat, v: nat, tlb: Cache, t: seq<Cache>)
    requires Tree(m, dir) && v < PAGES && v / 1024 != SELF && (HasTable(m, dir, v / 1024) || |m.free| > 0)
    requires |t| == 6 && |m'.frames| == |m.frames|
  {
    var m1 := WithTable(m, dir, v / 1024);
    WithTableWalks(m, dir, v / 1024);
    && Hardware(m, dir, tlb, t[0]) && Hardware(m1, dir, t[0], t[1])
    && (if Present(Pte(m1, dir, v)) then
          && Hardware(SetPte(m1, dir, v, 0), dir, t[1], t[2])
          && Hardware(Remove(m1, dir, v), dir, t[2], t[3])
          && Hardware(Remove(m1, dir, v), dir, t[3] - {v}, t[4])
        else Hardware(m1, dir, t[1], t[4]))
    && Hardware(m', dir, t[4], t[5])
  }

  // They are all harmless: the evicted translation is dropped, and the store finds nothing cached.
  lemma InsertUnderFills(s: Machine, dir: nat, p: nat, v: nat, perm: nat, t: seq<Cache>)
    requires Inv(s, dir) && Enabled(s, dir, InsertPage(p, v, perm)) && Search(s.mem, dir, v) != p
    requires |t| == 6 && InsertFills(s.mem, Insert(s.mem, dir, p, v, perm), dir, v, s.tlb, t)
    ensures Inv(Machine(Insert(s.mem, dir, p, v, perm), t[5]), dir)
  {
    var m, m1, m' := s.mem, WithTable(s.mem, dir, v / 1024), Insert(s.mem, dir, p, v, perm);
    hide Present, Pfn, Pte, Pde, Insert, MapHere, WithTable, Remove, SetPte, Coherent, Counted;
    FillKeepsInv(m, dir, s.tlb, t[0]);
    TableKeepsInv(Machine(m, t[0]), dir, v / 1024);
    WithTableWalks(m, dir, v / 1024);
    FillKeepsInv(m1, dir, t[0], t[1]);
    MapsAnew(m, m1, m', dir, p, v, perm);
    if Present(Pte(m1, dir, v)) {
      RemoveUnderFills(Machine(m1, t[1]), dir, v, t[2], t[3]);
      FillKeepsInv(Remove(m1, dir, v), dir, t[3] - {v}, t[4]);
      StoreEntryCoherent(Remove(m1, dir, v), m', dir, v, t[4]);
    } else {
      FillKeepsInv(m1, dir, t[1], t[4]);
      StoreEntryCoherent(m1, m', dir, v, t[4]);
    }
    FillKeepsInv(m', dir, t[4], t[5]);
  }

  lemma MapsAnew(m: Memory, m1: Memory, m': Memory, dir: nat, p: nat, v: nat, perm: nat)
    requires CanInsert(m, dir, p, v) && perm < PAGE_SIZE && p != 0
    requires m1 == WithTable(m, dir, v / 1024) && m' == Insert(m, dir, p, v, perm)
    ensures Counted(m1, dir) && Counted(m', dir) && HasTable(m1, dir, v / 1024)
    ensures var m2 := if Present(Pte(m1, dir, v)) then Remove(m1, dir, v) else m1;
            && |m2.frames| == |m'.frames| && Pte(m2, dir, v) == 0
            && (forall d :: 0 <= d < 1024 ==> Pde(m', dir, d) == Pde(m2, dir, d))
            && (forall u :: 0 <= u < PAGES && u != v ==> Pte(m', dir, u) == Pte(m2, dir, u))
  {
    hide Present, Pfn, CountOf, Mappings;
    WithTableWalks(m, dir, v / 1024);
    WithTableCounted(m, dir, v / 1024);
    NotTable(m, dir, v / 1024, p);
    MapHereCounted(m1, dir, p, v, perm);
    RemoveCounted(m1, dir, v);
    assert EntryOk(m1, dir, v);
  }

  // Rewriting the entry of a page already mapped there goes the other way round: insert_page
  // invalidates first and writes after. With fills in the gap the cache is coherent afterwards
  // exactly when the hardware did not fill v there, or the entry did not change.
  lemma RewriteUnderFillsIff(s: Machine, dir: nat, p: nat, v: nat, t: Cache)
    requires Inv(s, dir) && CanInsert(s.mem, dir, p, v) && p != 0 && Search(s.mem, dir, v) == p
    requires Hardware(s.mem, dir, s.tlb - {v}, t)
    ensures Coherent(Insert(s.mem, dir, p, v, 0), dir, t) <==>
            (v !in t || Pte(s.mem, dir, v) == Entry(p, 0))
  {
    var m, m' := s.mem, Insert(s.mem, dir, p, v, 0);
    InsertCounted(m, dir, p, v, 0);
    WindowEntries(m, m', dir);
    assert EntryOk(m, dir, v);
    assert HasTable(m, dir, v / 1024);
    hide Present, Pfn, Insert;
    forall u | u in t && u != v
      ensures Walks(m', dir, u, t[u])
    {
      assert Walks(m, dir, u, t[u]);
      if u / 1024 == SELF {
        assert Pte(m, dir, u) == Pde(m, dir, u % 1024);
        assert Pte(m', dir, u) == Pde(m', dir, u % 1024);
      }
    }
    if v in t {
      assert Walks(m, dir, v, t[v]);
    }
  }

  // So a caller can rely on the rewrite exactly when it does not change the entry: whenever it does,
  // the hardware may leave the old translation cached.
  lemma RewriteCoherentIff(s: Machine, dir: nat, p: nat, v: nat)
    requires Inv(s, dir) && CanInsert(s.mem, dir, p, v) && p != 0 && Search(s.mem, dir, v) == p
    ensures (forall t :: Hardware(s.mem, dir, s.tlb - {v}, t) ==> Coherent(Insert(s.mem, dir, p, v, 0), dir, t))
            <==> Pte(s.mem, dir, v) == Entry(p, 0)
  {
    var m, m' := s.mem, Insert(s.mem, dir, p, v, 0);
    forall t | Hardware(m, dir, s.tlb - {v}, t)
      ensures Coherent(m', dir, t) <==> (v !in t || Pte(m, dir, v) == Entry(p, 0))
    {
      RewriteUnderFillsIff(s, dir, p, v, t);
    }
    var filled := (s.tlb - {v})[v := (Pde(m, dir, v / 1024), Pte(m, dir, v))];
    assert EntryOk(m, dir, v);
    ZeroEntry();
    assert Walks(m, dir, v, filled[v]);
    assert Hardware(m, dir, s.tlb - {v}, filled);
  }

  // ----- the directory of a task, over runs

  // No frame that is reserved in m changes but the kernel's directory, and no slot of that loses its
  // table.
  ghost predicate KeepsShared(m: Memory, m': Memory, dir: nat)
    requires dir < |m.frames|
  {
    && |m'.frames| == |m.frames| && m.reserved <= m'.reserved
    && (forall q :: q in m.reserved && q != dir && q < |m.frames| ==> m'.frames[q] == m.frames[q])
    && (forall d :: 0 <= d < 1024 && HasTable(m, dir, d) ==> Pde(m', dir, d) == Pde(m, dir, d))
  }

  lemma StepKeepsShared(s: Machine, dir: nat, step: Step)
    requires Inv(s, dir) && Enabled(s, dir, step)
    ensures KeepsShared(s.mem, Next(s, dir, step).mem, dir)
  {
    hide Present, Pfn;
    StepKeepsInv(s, dir, step);
    var m, m' := s.mem, Next(s, dir, step).mem;
    match step
    case InsertPage(p, v, perm) =>
      InsertCounted(m, dir, p, v, perm);
      InsertFrames(m, dir, p, v, perm);
    case RemovePage(v) =>
      RemoveCounted(m, dir, v);
      RemoveFrames(m, dir, v);
    case Store(v, x, w) =>
      StoreTarget(s, dir, v);
    case _ =>
  }

  lemma RemoveFrames(m: Memory, dir: nat, v: nat)
    requires Tree(m, dir) && v < PAGES && HasTable(m, dir, v / 1024)
    ensures forall q :: q in m.reserved && q < |m.frames| ==> Remove(m, dir, v).frames[q] == m.frames[q]
  {
    hide Present, Pfn;
    SlotInside(m, dir, v / 1024);
    assert TableOf(m, dir, v / 1024) !in m.reserved;
  }

  lemma InsertFrames(m: Memory, dir: nat, p: nat, v: nat, perm: nat)
    requires Tree(m, dir) && p < |m.frames| && v < PAGES && v / 1024 != SELF && perm < PAGE_SIZE
    requires HasTable(m, dir, v / 1024) || |m.free| > 0
    ensures forall q :: q in m.reserved && q != dir && q < |m.frames| ==>
              Insert(m, dir, p, v, perm).frames[q] == m.frames[q]
  {
    hide Present, Pfn;
    var m1 := WithTable(m, dir, v / 1024);
    WithTableWalks(m, dir, v / 1024);
    RemoveFrames(m1, dir, v);
    EvictSlots(m1, dir, v);
    assert TableOf(m1, dir, v / 1024) !in m1.reserved;
    assert m1.reserved == m.reserved;
  }

  lemma {:induction false} RunKeepsShared(s: Machine, dir: nat, steps: seq<Step>)
    requires Inv(s, dir) && Runs(s, dir, steps)
    ensures KeepsShared(s.mem, Run(s, dir, steps).mem, dir)
    decreases |steps|
  {
    hide Inv, Enabled, Next, Present;
    if steps != [] {
      StepKeepsInv(s, dir, steps[0]);
      StepKeepsShared(s, dir, steps[0]);
      RunKeepsShared(Next(s, dir, steps[0]), dir, steps[1..]);
    }
  }

  // No step narrows the rights of a table.
  lemma StepKeepsOpen(s: Machine, dir: nat, step: Step)
    requires Inv(s, dir) && Enabled(s, dir, step) && TablesOpen(s.mem, dir)
    ensures dir < |Next(s, dir, step).mem.frames| && TablesOpen(Next(s, dir, step).mem, dir)
  {
    hide Present, Pfn;
    StepKeepsInv(s, dir, step);
    match step
    case InsertPage(p, v, perm) =>
      InsertOpen(s.mem, dir, p, v, perm);
    case RemovePage(v) =>
      RemoveCounted(s.mem, dir, v);
    case Store(v, x, w) =>
      StoreTarget(s, dir, v);
      var p, m' := Target(s, dir, v), Next(s, dir, step).mem;
      WriteElsewhere(s.mem, m', dir, p, m'.frames[p]);
    case AllocPage(zero) =>
      AllocCounted(s.mem, dir, zero);
    case FreePage(p) =>
      ReleaseCounted(s.mem, dir, p);
    case NewTask =>
      TaskDirectoryTranslates(s.mem, dir);
    case _ =>
  }

  lemma {:induction false} RunKeepsOpen(s: Machine, dir: nat, steps: seq<Step>)
    requires Inv(s, dir) && Runs(s, dir, steps) && TablesOpen(s.mem, dir)
    ensures var m' := Run(s, dir, steps).mem; dir < |m'.frames| && TablesOpen(m', dir)
    decreases |steps|
  {
    hide Enabled, Next, Present, TablesOpen;
    if steps != [] {
      StepKeepsInv(s, dir, steps[0]);
      StepKeepsOpen(s, dir, steps[0]);
      RunKeepsOpen(Next(s, dir, steps[0]), dir, steps[1..]);
    }
  }

  // From its creation on, over every run, the directory of a task holds the words the kernel's held
  // then, but for its self-map, which only the kernel may use; it translates each address whose slot
  // had a table then exactly as the kernel's directory does now, and no other.
  lemma TaskOverRuns(s: Machine, dir: nat, steps: seq<Step>)
    requires Inv(s, dir) && Runs(s, dir, [NewTask] + steps)
    ensures var m', p := Run(s, dir, [NewTask] + steps).mem, s.mem.free[0];
            && p < |m'.frames| && dir < |m'.frames| && SelfMapped(m', p)
            && Pde(m', p, SELF) == p * PAGE_SIZE + 3
            && (forall d :: 0 <= d < 1024 && d != SELF ==> Pde(m', p, d) == Pde(s.mem, dir, d))
            && forall va: Word :: Pdx(va) != SELF ==>
                 Physical(m', p, va) == if HasTable(s.mem, dir, Pdx(va)) then Physical(m', dir, va) else -1
  {
    var all, p := [NewTask] + steps, s.mem.free[0];
    assert all[1..] == steps;
    StepKeepsInv(s, dir, NewTask);
    var s1 := Next(s, dir, NewTask);
    var m1, m' := s1.mem, Run(s1, dir, steps).mem;
    TaskDirectoryTranslates(s.mem, dir);
    RunKeepsShared(s1, dir, steps);
    hide Present, Pfn, Run, Runs, Inv;
    assert p in s.mem.free && p != dir;
    assert m'.frames[p] == m1.frames[p];
    forall va: Word | Pdx(va) != SELF
      ensures Physical(m', p, va) == if HasTable(s.mem, dir, Pdx(va)) then Physical(m', dir, va) else -1
    {
      Decompose(va);
      SharedSlot(s.mem, m1, m', dir, p, va / PAGE_SIZE);
    }
  }

  lemma SharedSlot(m: Memory, m1: Memory, m': Memory, dir: nat, p: nat, v: nat)
    requires dir < |m.frames| == |m1.frames| == |m'.frames| && p < |m.frames| && v < PAGES && v / 1024 != SELF
    requires Pde(m1, dir, v / 1024) == Pde(m, dir, v / 1024) == Pde(m1, p, v / 1024)
    requires KeepsShared(m1, m', dir) && m'.frames[p] == m1.frames[p]
    ensures Walk(m', p, v) == if HasTable(m, dir, v / 1024) then Walk(m', dir, v) else -1
  {
    hide Pfn;
    ZeroEntry();
  }
}
