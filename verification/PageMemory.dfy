// Physical memory as the kernel's page allocator and page tables see it (src/kernel/kmap.c):
// the free list, the reference counts and the page frames, with the operations on them as
// functions, and what each operation keeps and changes.
module PageMemory {
  import opened Words
  import opened Mmu

  // PDX(U_VIRTUAL_PAGE_TABLE): the directory slot that points back to the directory.
  const SELF: nat := 957

  type Frame = f: seq<Word> | |f| == 1024 witness seq(1024, _ => 0)

  function ZeroFrame(): Frame {
    seq(1024, _ => 0)
  }

  // reserved holds the pages never given to the pool: page 0, the IO hole, the kernel image, boot
  // allocations and task directories.
  datatype Memory = Memory(free: seq<nat>, refs: seq<nat>, frames: seq<Frame>, reserved: set<nat>)

  // ----- walking the tables

  function Pde(m: Memory, dir: nat, d: nat): Word
    requires dir < |m.frames| && d < 1024
  {
    m.frames[dir][d]
  }

  // The entry that maps virtual page v, or zero where there is no table.
  function Pte(m: Memory, dir: nat, v: nat): Word
    requires dir < |m.frames| && v < PAGES
  {
    var e := Pde(m, dir, v / 1024);
    if Present(e) && Pfn(e) < |m.frames| then m.frames[Pfn(e)][v % 1024] else 0
  }

  predicate HasTable(m: Memory, dir: nat, d: nat)
    requires dir < |m.frames|
  {
    d < 1024 && d != SELF && Present(Pde(m, dir, d))
  }

  function TableOf(m: Memory, dir: nat, d: nat): nat
    requires dir < |m.frames| && d < 1024
  {
    Pfn(Pde(m, dir, d))
  }

  ghost predicate IsTable(m: Memory, dir: nat, p: nat)
    requires dir < |m.frames|
  {
    exists d :: HasTable(m, dir, d) && TableOf(m, dir, d) == p
  }

  // ----- what every operation keeps

  ghost predicate FreeList(m: Memory) {
    && |m.refs| == |m.frames| <= PAGES
    && (forall i :: 0 <= i < |m.free| ==>
          m.free[i] < |m.frames| && m.free[i] !in m.reserved && m.refs[m.free[i]] == 0)
    && (forall i, j :: 0 <= i < j < |m.free| ==> m.free[i] != m.free[j])
  }

  // Every directory slot but the self-map owns a table of its own, off the free list.
  ghost predicate Tree(m: Memory, dir: nat) {
    && FreeList(m)
    && dir < |m.frames| && dir in m.reserved
    && Present(Pde(m, dir, SELF)) && Pfn(Pde(m, dir, SELF)) == dir
    && (forall d {:trigger TableOf(m, dir, d)} :: 0 <= d < 1024 && HasTable(m, dir, d) ==>
          var t := TableOf(m, dir, d); t < |m.frames| && t !in m.free && t !in m.reserved)
    && (forall c, d {:trigger TableOf(m, dir, c), TableOf(m, dir, d)} ::
          0 <= c < d < 1024 && HasTable(m, dir, c) && HasTable(m, dir, d) ==>
          TableOf(m, dir, c) != TableOf(m, dir, d))
  }

  // ----- operations

  // The entry that maps frame p.
  function Entry(p: nat, perm: nat): (e: Word)
    requires p < PAGES && perm < PAGE_SIZE
    ensures Pfn(e) == p && Present(e) && e % PAGE_SIZE == perm / 2 * 2 + 1
  {
    MakeEntry(p * PAGE_SIZE, perm)
  }

  // page_alloc; the page handed out is the old head of the free list.
  function Alloc(m: Memory, zero: bool): Memory
    requires |m.free| > 0 && m.free[0] < |m.frames|
  {
    m.(free := m.free[1..],
       frames := if zero then m.frames[m.free[0] := ZeroFrame()] else m.frames)
  }

  // free_page
  function Release(m: Memory, p: nat): Memory
    requires p < |m.refs|
  {
    m.(free := [p] + m.free, refs := m.refs[p := 0])
  }

  // page_decref; a count is an unsigned 32-bit number.
  function Decref(m: Memory, p: nat): Memory
    requires p < |m.refs|
  {
    var m' := m.(refs := m.refs[p := if m.refs[p] == 0 then TWO32 - 1 else m.refs[p] - 1]);
    if m'.refs[p] == 0 then Release(m', p) else m'
  }

  // get_page_table with create set: the table of slot d, taken zeroed from the free list if absent.
  function WithTable(m: Memory, dir: nat, d: nat): (m': Memory)
    requires Tree(m, dir) && d < 1024 && (Present(Pde(m, dir, d)) || |m.free| > 0)
    ensures |m'.frames| == |m.frames| && |m'.refs| == |m.refs|
  {
    if Present(Pde(m, dir, d)) then m
    else
      var t, m' := m.free[0], Alloc(m, true);
      m'.(refs := m'.refs[t := m'.refs[t] + 1],
          frames := m'.frames[dir := m'.frames[dir][d := Entry(t, PTE_W + PTE_P + PTE_U)]])
  }

  function SetPte(m: Memory, dir: nat, v: nat, e: Word): Memory
    requires dir < |m.frames| && v < PAGES && TableOf(m, dir, v / 1024) < |m.frames|
  {
    var t := TableOf(m, dir, v / 1024);
    m.(frames := m.frames[t := m.frames[t][v % 1024 := e]])
  }

  // ----- tables

  // Writing a frame that is neither the directory nor a table changes no walk.
  lemma WriteElsewhere(m: Memory, m': Memory, dir: nat, p: nat, f: Frame)
    requires dir < |m.frames| && p < |m.frames| && p != dir && !IsTable(m, dir, p)
    requires Present(Pde(m, dir, SELF)) && Pfn(Pde(m, dir, SELF)) == dir
    requires m'.frames == m.frames[p := f]
    ensures SameWalks(m, m', dir)
  {
    hide Present, Pfn;
    forall d | 0 <= d < 1024
      ensures Pde(m', dir, d) == Pde(m, dir, d)
    {
    }
    forall v | 0 <= v < PAGES
      ensures Pte(m', dir, v) == Pte(m, dir, v)
    {
      var d := v / 1024;
      assert Pde(m', dir, d) == Pde(m, dir, d);
      if HasTable(m, dir, d) {
        assert TableOf(m, dir, d) != p;
      }
    }
  }

  ghost predicate SameWalks(m: Memory, m': Memory, dir: nat)
    requires dir < |m.frames|
  {
    && |m'.frames| == |m.frames|
    && (forall d :: 0 <= d < 1024 ==> Pde(m', dir, d) == Pde(m, dir, d))
    && (forall v :: 0 <= v < PAGES ==> Pte(m', dir, v) == Pte(m, dir, v))
  }

  lemma SetPteWalks(m: Memory, dir: nat, v: nat, e: Word)
    requires Tree(m, dir) && v < PAGES && HasTable(m, dir, v / 1024)
    ensures var m' := SetPte(m, dir, v, e);
            && Tree(m', dir)
            && (forall d :: 0 <= d < 1024 ==> Pde(m', dir, d) == Pde(m, dir, d))
            && (forall u :: 0 <= u < PAGES ==> Pte(m', dir, u) == if u == v then e else Pte(m, dir, u))
  {
    hide Present, Pfn;
    var m' := SetPte(m, dir, v, e);
    var t := TableOf(m, dir, v / 1024);
    assert t != dir;
    forall d | 0 <= d < 1024
      ensures Pde(m', dir, d) == Pde(m, dir, d)
      ensures TableOf(m', dir, d) == TableOf(m, dir, d)
      ensures HasTable(m', dir, d) <==> HasTable(m, dir, d)
    {
    }
    forall u | 0 <= u < PAGES
      ensures Pte(m', dir, u) == if u == v then e else Pte(m, dir, u)
    {
      var d := u / 1024;
      assert Pde(m', dir, d) == Pde(m, dir, d);
      assert u == d * 1024 + u % 1024 && v == v / 1024 * 1024 + v % 1024;
      if HasTable(m, dir, d) && d != v / 1024 {
        assert TableOf(m, dir, d) != t;
      }
    }
  }

  // Adding a table moves the head of the free list into the directory and changes no mapping
  // outside the self-map window.
  lemma WithTableWalks(m: Memory, dir: nat, d: nat)
    requires Tree(m, dir) && d < 1024 && d != SELF && (Present(Pde(m, dir, d)) || |m.free| > 0)
    ensures var m' := WithTable(m, dir, d);
            && Tree(m', dir) && HasTable(m', dir, d)
            && (forall c :: 0 <= c < 1024 && c != d ==> Pde(m', dir, c) == Pde(m, dir, c))
            && (forall u :: 0 <= u < PAGES && u / 1024 != SELF ==> Pte(m', dir, u) == Pte(m, dir, u))
            && (Present(Pde(m, dir, d)) ==> m' == m)
            && (!Present(Pde(m, dir, d)) ==>
                 m'.free == m.free[1..] && TableOf(m', dir, d) == m.free[0]
                 && m'.refs == m.refs[m.free[0] := 1])
  {
    hide Present, Pfn;
    if !Present(Pde(m, dir, d)) {
      var t, m' := m.free[0], WithTable(m, dir, d);
      forall c | 0 <= c < 1024
        ensures c != d ==> Pde(m', dir, c) == Pde(m, dir, c) && TableOf(m', dir, c) == TableOf(m, dir, c)
        ensures HasTable(m, dir, c) && c != d ==> TableOf(m, dir, c) != t
      {
        assert t in m.free;
      }
      assert TableOf(m', dir, d) == t;
      forall u | 0 <= u < PAGES && u / 1024 != SELF
        ensures Pte(m', dir, u) == Pte(m, dir, u)
      {
        var c := u / 1024;
        if c != d {
          assert Pde(m', dir, c) == Pde(m, dir, c);
          assert HasTable(m, dir, c) ==> TableOf(m, dir, c) != t;
        }
      }
      assert Pde(m', dir, SELF) == Pde(m, dir, SELF);
    }
  }

  // ----- reference counts

  // Pages outside the windows mapped at boot: slots 956 (pages), 957 (self-map), 959 (stack) and
  // 960 up (remapped physical memory) are static and are never counted.
  predicate Dynamic(v: nat) {
    v / 1024 < 956 || v / 1024 == 958
  }

  predicate MapsTo(m: Memory, dir: nat, v: nat, p: nat)
    requires dir < |m.frames|
  {
    v < PAGES && Dynamic(v) && Present(Pte(m, dir, v)) && Pfn(Pte(m, dir, v)) == p
  }

  // The dynamic virtual pages that name physical page p.
  ghost function Mappings(m: Memory, dir: nat, p: nat): set<nat>
    requires dir < |m.frames|
  {
    set v: nat | v < PAGES && MapsTo(m, dir, v, p)
  }

  ghost function CountOf(m: Memory, dir: nat, p: nat): nat
    requires dir < |m.frames|
  {
    |Mappings(m, dir, p)| + (if IsTable(m, dir, p) then 1 else 0) + (if p in m.reserved then 1 else 0)
  }

  // A dynamic entry is zero, or names a pool page that is not itself a table.
  ghost predicate EntryOk(m: Memory, dir: nat, v: nat)
    requires dir < |m.frames| && v < PAGES
  {
    var e := Pte(m, dir, v);
    e == 0 || (Present(e) && Pfn(e) < |m.frames| && Pfn(e) !in m.reserved && !IsTable(m, dir, Pfn(e)))
  }

  ghost predicate Counted(m: Memory, dir: nat) {
    && Tree(m, dir)
    && (forall p :: 0 <= p < |m.refs| ==> m.refs[p] == CountOf(m, dir, p))
    && (forall v :: 0 <= v < PAGES && Dynamic(v) ==> EntryOk(m, dir, v))
  }

  // ----- search, remove, insert

  // The frame behind virtual page v, or -1.
  function Walk(m: Memory, dir: nat, v: nat): int
    requires dir < |m.frames| && v < PAGES
  {
    var e := Pte(m, dir, v);
    if Present(e) then Pfn(e) else -1
  }

  // search_page on a present directory slot; an entry that names no page of the machine is not found.
  function Search(m: Memory, dir: nat, v: nat): int
    requires dir < |m.frames| && v < PAGES
  {
    var p := Walk(m, dir, v);
    if p < |m.frames| then p else -1
  }

  // remove_page on a present directory slot.
  function Remove(m: Memory, dir: nat, v: nat): (m': Memory)
    requires Tree(m, dir) && v < PAGES && Present(Pde(m, dir, v / 1024))
    ensures |m'.frames| == |m.frames| && |m'.refs| == |m.refs|
  {
    var p := Search(m, dir, v);
    if p == -1 then m
    else
      SlotInside(m, dir, v / 1024);
      Decref(SetPte(m, dir, v, 0), p)
  }

  lemma SlotInside(m: Memory, dir: nat, d: nat)
    requires Tree(m, dir) && d < 1024 && Present(Pde(m, dir, d))
    ensures TableOf(m, dir, d) < |m.frames|
  {
    hide Present, Pfn;
    if d != SELF {
      assert HasTable(m, dir, d);
    }
  }

  // insert_page outside the self-map window: make sure there is a table, then map.
  function Insert(m: Memory, dir: nat, p: nat, v: nat, perm: nat): (m': Memory)
    requires Tree(m, dir) && p < |m.frames| && v < PAGES && v / 1024 != SELF && perm < PAGE_SIZE
    requires HasTable(m, dir, v / 1024) || |m.free| > 0
    ensures |m'.frames| == |m.frames| && |m'.refs| == |m.refs|
  {
    WithTableWalks(m, dir, v / 1024);
    MapHere(WithTable(m, dir, v / 1024), dir, p, v, perm)
  }

  // The rest of insert_page. Re-inserting the mapped page keeps the old entry unless permissions is
  // zero, since the comparison with the old permissions is an assignment.
  function MapHere(m: Memory, dir: nat, p: nat, v: nat, perm: nat): (m': Memory)
    requires Tree(m, dir) && p < |m.frames| && v < PAGES && HasTable(m, dir, v / 1024) && perm < PAGE_SIZE
    ensures |m'.frames| == |m.frames| && |m'.refs| == |m.refs|
  {
    var was := Pte(m, dir, v);
    SlotInside(m, dir, v / 1024);
    if Pfn(was) == p then
      if perm != 0 then m else SetPte(m, dir, v, Entry(p, perm))
    else
      EvictSlots(m, dir, v);
      var m' := Evict(m, dir, v);
      SetPte(m'.(refs := m'.refs[p := m'.refs[p] + 1]), dir, v, Entry(p, perm))
  }

  // remove_page where something is mapped.
  function Evict(m: Memory, dir: nat, v: nat): (m': Memory)
    requires Tree(m, dir) && v < PAGES && HasTable(m, dir, v / 1024)
    ensures |m'.frames| == |m.frames| && |m'.refs| == |m.refs|
  {
    if Present(Pte(m, dir, v)) then Remove(m, dir, v) else m
  }

  // Outside the self-map window that leaves the directory alone.
  lemma EvictSlots(m: Memory, dir: nat, v: nat)
    requires Tree(m, dir) && v < PAGES && HasTable(m, dir, v / 1024)
    ensures var m' := Evict(m, dir, v);
            && m'.frames[dir] == m.frames[dir]
            && TableOf(m', dir, v / 1024) < |m'.frames|
  {
    hide Present, Pfn;
    assert TableOf(m, dir, v / 1024) !in m.reserved;
    SlotInside(m, dir, v / 1024);
  }

  // What insert_page must be given to keep the counts: a pool page that is held or already mapped, a
  // dynamic address, and a page for the table if one is missing.
  ghost predicate CanInsert(m: Memory, dir: nat, p: nat, v: nat) {
    && Counted(m, dir) && v < PAGES && Dynamic(v)
    && p < |m.frames| && p !in m.reserved && p !in m.free && !IsTable(m, dir, p)
    && (HasTable(m, dir, v / 1024) || |m.free| > 0)
  }

  lemma CountPositive(m: Memory, dir: nat, v: nat)
    requires Counted(m, dir) && v < PAGES && Dynamic(v) && Present(Pte(m, dir, v))
    ensures var p := Pfn(Pte(m, dir, v)); p < |m.refs| && m.refs[p] > 0 && p !in m.free
  {
    var p := Pfn(Pte(m, dir, v));
    assert EntryOk(m, dir, v);
    assert v in Mappings(m, dir, p);
  }

  lemma SameTables(m: Memory, m': Memory, dir: nat)
    requires dir < |m.frames| == |m'.frames|
    requires forall d :: 0 <= d < 1024 ==> Pde(m', dir, d) == Pde(m, dir, d)
    ensures forall p :: IsTable(m', dir, p) <==> IsTable(m, dir, p)
  {
    hide Present, Pfn;
    forall p
      ensures IsTable(m', dir, p) <==> IsTable(m, dir, p)
    {
      if IsTable(m, dir, p) {
        var d :| HasTable(m, dir, d) && TableOf(m, dir, d) == p;
        assert HasTable(m', dir, d) && TableOf(m', dir, d) == p;
      }
      if IsTable(m', dir, p) {
        var d :| HasTable(m', dir, d) && TableOf(m', dir, d) == p;
        assert HasTable(m, dir, d) && TableOf(m, dir, d) == p;
      }
    }
  }

  // Same directory, same mappings outside the self-map window: same counts.
  lemma SameMappings(m: Memory, m': Memory, dir: nat)
    requires dir < |m.frames| == |m'.frames|
    requires forall v :: 0 <= v < PAGES && Dynamic(v) ==> Pte(m', dir, v) == Pte(m, dir, v)
    ensures forall p :: Mappings(m', dir, p) == Mappings(m, dir, p)
  {
    hide Pte, Present, Pfn, Dynamic;
  }

  lemma FreePageUnmapped(m: Memory, dir: nat, p: nat)
    requires Counted(m, dir) && p in m.free
    ensures p < |m.refs| && m.refs[p] == 0 && Mappings(m, dir, p) == {} && !IsTable(m, dir, p)
    ensures forall v :: 0 <= v < PAGES && Dynamic(v) && Present(Pte(m, dir, v)) ==> Pfn(Pte(m, dir, v)) != p
  {
    assert m.refs[p] == CountOf(m, dir, p);
    forall v | 0 <= v < PAGES && Dynamic(v) && Present(Pte(m, dir, v))
      ensures Pfn(Pte(m, dir, v)) != p
    {
      assert v in Mappings(m, dir, Pfn(Pte(m, dir, v)));
    }
  }

  lemma WithTableCounted(m: Memory, dir: nat, d: nat)
    requires Counted(m, dir) && d < 1024 && d != SELF && (Present(Pde(m, dir, d)) || |m.free| > 0)
    ensures var m' := WithTable(m, dir, d);
            && Counted(m', dir)
            && (forall p :: IsTable(m', dir, p) <==>
                  IsTable(m, dir, p) || (!Present(Pde(m, dir, d)) && p == m.free[0]))
  {
    hide Present, Pfn;
    WithTableWalks(m, dir, d);
    if !Present(Pde(m, dir, d)) {
      var t, m' := m.free[0], WithTable(m, dir, d);
      hide WithTable;
      FreePageUnmapped(m, dir, t);
      NewTable(m, m', dir, d, t);
      SameMappings(m, m', dir);
      hide Pte, Pde, Tree, IsTable, Mappings;
      forall p | 0 <= p < |m'.refs|
        ensures m'.refs[p] == CountOf(m', dir, p)
      {
        assert m.refs[p] == CountOf(m, dir, p);
      }
      forall v | 0 <= v < PAGES && Dynamic(v)
        ensures EntryOk(m', dir, v)
      {
        assert EntryOk(m, dir, v);
        assert Pte(m', dir, v) == Pte(m, dir, v);
      }
    }
  }

  lemma NewTable(m: Memory, m': Memory, dir: nat, d: nat, t: nat)
    requires dir < |m.frames| == |m'.frames| && d < 1024 && d != SELF
    requires !HasTable(m, dir, d) && HasTable(m', dir, d) && TableOf(m', dir, d) == t
    requires forall c :: 0 <= c < 1024 && c != d ==> Pde(m', dir, c) == Pde(m, dir, c)
    ensures forall p :: IsTable(m', dir, p) <==> IsTable(m, dir, p) || p == t
  {
    hide Present, Pfn;
    forall p
      ensures IsTable(m', dir, p) <==> IsTable(m, dir, p) || p == t
    {
      if IsTable(m, dir, p) {
        var c :| HasTable(m, dir, c) && TableOf(m, dir, c) == p;
        assert HasTable(m', dir, c) && TableOf(m', dir, c) == p;
      }
      if IsTable(m', dir, p) && p != t {
        var c :| HasTable(m', dir, c) && TableOf(m', dir, c) == p;
        assert HasTable(m, dir, c) && TableOf(m, dir, c) == p;
      }
    }
  }

  lemma AllocCounted(m: Memory, dir: nat, zero: bool)
    requires Counted(m, dir) && |m.free| > 0
    ensures var m', p := Alloc(m, zero), m.free[0];
            && Counted(m', dir) && SameWalks(m, m', dir)
            && m'.free == m.free[1..] && m'.refs == m.refs && m'.reserved == m.reserved
            && (forall q :: 0 <= q < |m.frames| && q != p ==> m'.frames[q] == m.frames[q])
            && (forall x :: 0 <= x < 1024 ==> m'.frames[p][x] == if zero then 0 else m.frames[p][x])
  {
    var p, m' := m.free[0], Alloc(m, zero);
    FreePageUnmapped(m, dir, p);
    assert p in m.free;
    WriteElsewhere(m, m', dir, p, m'.frames[p]);
    CountedFromWalks(m, m', dir);
  }

  // A page whose count is zero and which is not on the list can be put on it.
  lemma ReleaseCounted(m: Memory, dir: nat, p: nat)
    requires Counted(m, dir) && p < |m.refs| && m.refs[p] == 0 && p !in m.free
    ensures Counted(Release(m, p), dir) && SameWalks(m, Release(m, p), dir)
  {
    var m' := Release(m, p);
    assert m'.refs == m.refs;
    assert m.refs[p] == CountOf(m, dir, p);
    forall d | 0 <= d < 1024 && HasTable(m, dir, d)
      ensures TableOf(m, dir, d) != p
    {
      assert IsTable(m, dir, TableOf(m, dir, d));
    }
    CountedFromWalks(m, m', dir);
  }

  // Moving untouched pages on or off the free list keeps the counts.
  lemma CountedFromWalks(m: Memory, m': Memory, dir: nat)
    requires Counted(m, dir) && SameWalks(m, m', dir)
    requires m'.refs == m.refs && m'.reserved == m.reserved && FreeList(m')
    requires forall d :: 0 <= d < 1024 && HasTable(m, dir, d) ==> TableOf(m, dir, d) !in m'.free
    ensures Counted(m', dir)
  {
    hide Present, Pfn;
    SameTables(m, m', dir);
    SameMappings(m, m', dir);
    forall d | 0 <= d < 1024
      ensures HasTable(m', dir, d) <==> HasTable(m, dir, d)
      ensures TableOf(m', dir, d) == TableOf(m, dir, d)
    {
      assert Pde(m', dir, d) == Pde(m, dir, d);
    }
    assert Pde(m', dir, SELF) == Pde(m, dir, SELF);
    hide Pte, Pde, IsTable, Mappings;
    forall p | 0 <= p < |m'.refs|
      ensures m'.refs[p] == CountOf(m', dir, p)
    {
      assert m.refs[p] == CountOf(m, dir, p);
    }
    forall v | 0 <= v < PAGES && Dynamic(v)
      ensures EntryOk(m', dir, v)
    {
      assert EntryOk(m, dir, v);
      assert Pte(m', dir, v) == Pte(m, dir, v);
    }
  }

  // One dynamic entry changes from its old value to e, and the two counts with it.
  lemma CountedAfterWrite(m: Memory, m': Memory, dir: nat, v: nat, e: Word)
    requires Counted(m, dir) && Tree(m', dir) && v < PAGES && Dynamic(v)
    requires |m'.refs| == |m.refs| && m'.reserved == m.reserved
    requires forall p :: IsTable(m', dir, p) <==> IsTable(m, dir, p)
    requires forall u :: 0 <= u < PAGES ==> Pte(m', dir, u) == if u == v then e else Pte(m, dir, u)
    requires e == 0 || (Present(e) && Pfn(e) < |m.frames| && Pfn(e) !in m.reserved && !IsTable(m, dir, Pfn(e)))
    requires forall p :: 0 <= p < |m.refs| ==>
      m'.refs[p] + (if MapsTo(m, dir, v, p) then 1 else 0)
        == m.refs[p] + (if Present(e) && Pfn(e) == p then 1 else 0)
    ensures Counted(m', dir)
  {
    hide Present, Pfn, Pte, Pde, IsTable, Dynamic;
    forall p | 0 <= p < |m'.refs|
      ensures m'.refs[p] == CountOf(m', dir, p)
    {
      assert m.refs[p] == CountOf(m, dir, p);
      OneEntryCount(m, m', dir, v, e, p);
    }
    hide CountOf, Tree;
    forall u | 0 <= u < PAGES && Dynamic(u)
      ensures EntryOk(m', dir, u)
    {
      assert EntryOk(m, dir, u);
    }
  }

  lemma OneEntryCount(m: Memory, m': Memory, dir: nat, v: nat, e: Word, p: nat)
    requires dir < |m.frames| == |m'.frames| && v < PAGES && Dynamic(v) && m'.reserved == m.reserved
    requires IsTable(m', dir, p) == IsTable(m, dir, p)
    requires forall u :: 0 <= u < PAGES ==> Pte(m', dir, u) == if u == v then e else Pte(m, dir, u)
    ensures CountOf(m', dir, p) + (if MapsTo(m, dir, v, p) then 1 else 0)
            == CountOf(m, dir, p) + (if Present(e) && Pfn(e) == p then 1 else 0)
  {
    hide Present, Pfn, Pte, IsTable, Dynamic;
    var rest := Mappings(m, dir, p) - {v};
    assert Mappings(m, dir, p) == if MapsTo(m, dir, v, p) then rest + {v} else rest;
    assert Mappings(m', dir, p) == if Present(e) && Pfn(e) == p then rest + {v} else rest;
  }

  // What remove_page changes: one entry, one count, and the free list when the count reaches zero.
  lemma RemoveCounted(m: Memory, dir: nat, v: nat)
    requires Counted(m, dir) && v < PAGES && Dynamic(v) && HasTable(m, dir, v / 1024)
    ensures var m' := Remove(m, dir, v);
            && Counted(m', dir) && m'.reserved == m.reserved && |m'.frames| == |m.frames|
            && (forall d :: 0 <= d < 1024 ==> Pde(m', dir, d) == Pde(m, dir, d))
            && (forall u :: 0 <= u < PAGES ==> Pte(m', dir, u) == if u == v then 0 else Pte(m, dir, u))
    ensures Search(Remove(m, dir, v), dir, v) == -1
    ensures Present(Pte(m, dir, v)) ==>
            var p, m' := Pfn(Pte(m, dir, v)), Remove(m, dir, v);
            && p < |m.refs| && m.refs[p] > 0 && m'.refs == m.refs[p := m.refs[p] - 1]
            && m'.free == if m.refs[p] == 1 then [p] + m.free else m.free
  {
    var e := Pte(m, dir, v);
    assert EntryOk(m, dir, v);
    if Present(e) {
      var p, m1, m' := Pfn(e), SetPte(m, dir, v, 0), Remove(m, dir, v);
      CountPositive(m, dir, v);
      SetPteWalks(m, dir, v, 0);
      SameTables(m, m1, dir);
      assert m'.refs == m.refs[p := m.refs[p] - 1] && m'.frames == m1.frames;
      assert m'.free == if m.refs[p] == 1 then [p] + m.free else m.free;
      assert Present(0) == false;
      hide Present, Pfn, SetPte, Remove;
      DecrefTree(m1, m', dir, p);
      SameTables(m1, m', dir);
      CountedAfterWrite(m, m', dir, v, 0);
    }
  }

  lemma DecrefTree(m: Memory, m': Memory, dir: nat, p: nat)
    requires Tree(m, dir) && p < |m.refs| && p !in m.free && p !in m.reserved && !IsTable(m, dir, p)
    requires m.refs[p] > 0 && m'.refs == m.refs[p := m.refs[p] - 1]
    requires m'.frames == m.frames && m'.reserved == m.reserved
    requires m'.free == if m.refs[p] == 1 then [p] + m.free else m.free
    ensures Tree(m', dir) && SameWalks(m, m', dir)
  {
    hide Present, Pfn;
    forall d | 0 <= d < 1024
      ensures Pde(m', dir, d) == Pde(m, dir, d)
      ensures HasTable(m, dir, d) ==> TableOf(m', dir, d) == TableOf(m, dir, d) != p
    {
      if HasTable(m, dir, d) {
        assert IsTable(m, dir, TableOf(m, dir, d));
      }
    }
  }

  lemma NotTable(m: Memory, dir: nat, d: nat, p: nat)
    requires Counted(m, dir) && d < 1024 && d != SELF && (Present(Pde(m, dir, d)) || |m.free| > 0)
    requires p < |m.frames| && p !in m.free && !IsTable(m, dir, p)
    ensures var m' := WithTable(m, dir, d); p !in m'.free && !IsTable(m', dir, p) && m'.reserved == m.reserved
  {
    hide Present, Pfn;
    WithTableWalks(m, dir, d);
    WithTableCounted(m, dir, d);
    if !Present(Pde(m, dir, d)) {
      assert m.free[0] in m.free;
    }
  }

  lemma ZeroEntry()
    ensures Pfn(0) == 0 && !Present(0)
  {
  }

  // The counts after mapping p over what search_page found before: p gains a mapping and an evicted
  // page loses one, going to the head of the free list if it was its last.
  ghost predicate MapCounts(m: Memory, m': Memory, p: nat, was: int) {
    && |m'.refs| == |m.refs|
    && (forall q :: 0 <= q < |m.refs| ==>
          m'.refs[q] + (if q == was && was != p then 1 else 0) == m.refs[q] + (if q == p && was != p then 1 else 0))
    && m'.free == if was != p && 0 <= was < |m.refs| && m.refs[was] == 1 then [was] + m.free else m.free
  }

  // m' is m with e as the entry of v, and p counted once more.
  ghost predicate MapsPage(m: Memory, m': Memory, dir: nat, p: nat, v: nat, e: Word)
    requires dir < |m.frames| && p < |m.refs|
  {
    && Counted(m', dir)
    && m'.refs == m.refs[p := m.refs[p] + 1] && m'.free == m.free && m'.reserved == m.reserved
    && |m'.frames| == |m.frames|
    && (forall d :: 0 <= d < 1024 ==> Pde(m', dir, d) == Pde(m, dir, d))
    && (forall u :: 0 <= u < PAGES ==> Pte(m', dir, u) == if u == v then e else Pte(m, dir, u))
  }

  // One more mapping of a page that is off the list.
  lemma MapPage(m: Memory, dir: nat, p: nat, v: nat, e: Word)
    requires Counted(m, dir) && v < PAGES && Dynamic(v) && HasTable(m, dir, v / 1024)
    requires Pte(m, dir, v) == 0 && Present(e) && Pfn(e) == p
    requires p < |m.frames| && p !in m.reserved && p !in m.free && !IsTable(m, dir, p)
    ensures var m1 := m.(refs := m.refs[p := m.refs[p] + 1]);
            && HasTable(m1, dir, v / 1024) && TableOf(m1, dir, v / 1024) < |m1.frames|
            && MapsPage(m, SetPte(m1, dir, v, e), dir, p, v, e)
  {
    hide Present, Pfn;
    ZeroEntry();
    var m1 := m.(refs := m.refs[p := m.refs[p] + 1]);
    assert p !in m1.free;
    assert SameWalks(m, m1, dir);
    forall d | 0 <= d < 1024
      ensures HasTable(m1, dir, d) <==> HasTable(m, dir, d)
      ensures TableOf(m1, dir, d) == TableOf(m, dir, d)
    {
    }
    assert Tree(m1, dir);
    SetPteWalks(m1, dir, v, e);
    var m' := SetPte(m1, dir, v, e);
    SameTables(m, m', dir);
    CountedAfterWrite(m, m', dir, v, e);
  }

  // The entry that insert_page leaves where it found was.
  function Mapped(was: Word, p: nat, perm: nat): Word
    requires p < PAGES && perm < PAGE_SIZE
  {
    if Pfn(was) == p && perm != 0 then was else Entry(p, perm)
  }

  // Mapping the page already mapped there touches no count.
  lemma Remap(m: Memory, dir: nat, p: nat, v: nat, e: Word)
    requires CanInsert(m, dir, p, v) && HasTable(m, dir, v / 1024) && p != 0
    requires Pfn(Pte(m, dir, v)) == p && Present(e) && Pfn(e) == p
    ensures Present(Pte(m, dir, v)) && Counted(SetPte(m, dir, v, e), dir)
  {
    hide Present, Pfn;
    ZeroEntry();
    assert EntryOk(m, dir, v);
    SetPteWalks(m, dir, v, e);
    SameTables(m, SetPte(m, dir, v, e), dir);
    CountedAfterWrite(m, SetPte(m, dir, v, e), dir, v, e);
  }

  lemma MapHereCounted(m: Memory, dir: nat, p: nat, v: nat, perm: nat)
    requires CanInsert(m, dir, p, v) && HasTable(m, dir, v / 1024) && perm < PAGE_SIZE && p != 0
    ensures MapsHere(m, MapHere(m, dir, p, v, perm), dir, p, v, perm)
  {
    hide Present, Pfn, CountOf, Mappings;
    var was, e := Pte(m, dir, v), Entry(p, perm);
    assert EntryOk(m, dir, v);
    ZeroEntry();
    if Pfn(was) == p {
      Remap(m, dir, p, v, e);
      SetPteWalks(m, dir, v, e);
    } else {
      MapOverCounted(m, dir, p, v, perm);
    }
  }

  ghost predicate MapsHere(m: Memory, m': Memory, dir: nat, p: nat, v: nat, perm: nat)
    requires dir < |m.frames| && v < PAGES && p < PAGES && perm < PAGE_SIZE
  {
    && Counted(m', dir) && |m'.frames| == |m.frames| && m'.reserved == m.reserved
    && (forall d :: 0 <= d < 1024 ==> Pde(m', dir, d) == Pde(m, dir, d))
    && (forall u :: 0 <= u < PAGES ==>
          Pte(m', dir, u) == if u == v then Mapped(Pte(m, dir, v), p, perm) else Pte(m, dir, u))
    && MapCounts(m, m', p, Search(m, dir, v))
  }

  lemma MapOverCounted(m: Memory, dir: nat, p: nat, v: nat, perm: nat)
    requires CanInsert(m, dir, p, v) && HasTable(m, dir, v / 1024) && perm < PAGE_SIZE && p != 0
    requires Pfn(Pte(m, dir, v)) != p
    ensures MapsHere(m, MapHere(m, dir, p, v, perm), dir, p, v, perm)
  {
    CountedTree(m, dir);
    MapHereOver(m, dir, p, v, perm);
    hide Present, Pfn, Counted, IsTable, Pte, Pde, SetPte, Tree, Evict, Mapped, Search, Walk, MapHere;
    hide Entry, HasTable, TableOf, Dynamic, Evicts, MapsPage, MapsHere;
    EvictCounted(m, dir, v);
    var m2, m' := Evict(m, dir, v), MapHere(m, dir, p, v, perm);
    EvictKeepsHeld(m, m2, dir, p, v);
    MapPage(m2, dir, p, v, Entry(p, perm));
    MapsOver(m, m2, m', dir, p, v, perm);
  }

  lemma MapsOver(m: Memory, m2: Memory, m': Memory, dir: nat, p: nat, v: nat, perm: nat)
    requires dir < |m.frames| && v < PAGES && p < |m.refs| <= PAGES && perm < PAGE_SIZE && Search(m, dir, v) != p
    requires |m2.frames| == |m.frames| && |m2.refs| == |m.refs| && Evicts(m, m2, dir, v)
    requires MapsPage(m2, m', dir, p, v, Entry(p, perm)) && Mapped(Pte(m, dir, v), p, perm) == Entry(p, perm)
    ensures MapsHere(m, m', dir, p, v, perm)
  {
    hide Present, Pfn, Counted, Pte, Pde, Mapped, Search, Entry;
    OneMore(m, m2, m', p, Search(m, dir, v));
    hide MapCounts;
  }

  lemma MapHereOver(m: Memory, dir: nat, p: nat, v: nat, perm: nat)
    requires Tree(m, dir) && p < |m.frames| && v < PAGES && HasTable(m, dir, v / 1024) && perm < PAGE_SIZE
    requires Pfn(Pte(m, dir, v)) != p
    ensures var m2 := Evict(m, dir, v);
            && TableOf(m2, dir, v / 1024) < |m2.frames|
            && MapHere(m, dir, p, v, perm)
               == SetPte(m2.(refs := m2.refs[p := m2.refs[p] + 1]), dir, v, Entry(p, perm))
    ensures Mapped(Pte(m, dir, v), p, perm) == Entry(p, perm)
  {
    hide Present, Pfn, Evict;
    EvictSlots(m, dir, v);
  }

  lemma OneMore(m: Memory, m2: Memory, m': Memory, p: nat, was: int)
    requires |m2.refs| == |m.refs| && p < |m.refs| && was != p
    requires forall q :: 0 <= q < |m.refs| ==> m2.refs[q] + (if q == was then 1 else 0) == m.refs[q]
    requires m2.free == if 0 <= was < |m.refs| && m.refs[was] == 1 then [was] + m.free else m.free
    requires m'.refs == m2.refs[p := m2.refs[p] + 1] && m'.free == m2.free
    ensures MapCounts(m, m', p, was)
  {
  }

  lemma CountedTree(m: Memory, dir: nat)
    requires Counted(m, dir)
    ensures Tree(m, dir) && dir < |m.frames| && |m.frames| == |m.refs|
  {
  }

  // m' is m with v unmapped, and what it mapped counted once less.
  ghost predicate Evicts(m: Memory, m': Memory, dir: nat, v: nat)
    requires dir < |m.frames| == |m'.frames| && v < PAGES && |m'.refs| == |m.refs|
  {
    var was := Search(m, dir, v);
    && Counted(m', dir) && m'.reserved == m.reserved
    && (forall d :: 0 <= d < 1024 ==> Pde(m', dir, d) == Pde(m, dir, d))
    && (forall u :: 0 <= u < PAGES ==> Pte(m', dir, u) == if u == v then 0 else Pte(m, dir, u))
    && (forall q :: 0 <= q < |m.refs| ==> m'.refs[q] + (if q == was then 1 else 0) == m.refs[q])
    && m'.free == if 0 <= was < |m.refs| && m.refs[was] == 1 then [was] + m.free else m.free
  }

  lemma EvictCounted(m: Memory, dir: nat, v: nat)
    requires Counted(m, dir) && v < PAGES && Dynamic(v) && HasTable(m, dir, v / 1024)
    ensures Evicts(m, Evict(m, dir, v), dir, v)
  {
    RemoveCounted(m, dir, v);
    assert EntryOk(m, dir, v);
    ZeroEntry();
  }

  lemma EvictKeepsHeld(m: Memory, m': Memory, dir: nat, p: nat, v: nat)
    requires CanInsert(m, dir, p, v) && HasTable(m, dir, v / 1024) && Pfn(Pte(m, dir, v)) != p
    requires m' == Evict(m, dir, v) && Evicts(m, m', dir, v)
    ensures Counted(m', dir) && m'.reserved == m.reserved && Pte(m', dir, v) == 0
    ensures p !in m'.free && !IsTable(m', dir, p) && HasTable(m', dir, v / 1024)
    ensures TableOf(m', dir, v / 1024) == TableOf(m, dir, v / 1024) < |m.frames|
    ensures Tree(m, dir) && Tree(m', dir) && Search(m, dir, v) != p
  {
    hide Present, Pfn;
    SameTables(m, m', dir);
    SlotInside(m, dir, v / 1024);
  }

  // insert_page on a page other than 0: the page is mapped, no other page's translation moves, a
  // missing table takes the head of the free list, and the counts follow.
  lemma InsertCounted(m: Memory, dir: nat, p: nat, v: nat, perm: nat)
    requires CanInsert(m, dir, p, v) && perm < PAGE_SIZE && p != 0
    ensures var m', was := Insert(m, dir, p, v, perm), Pte(m, dir, v);
            && Counted(m', dir) && |m'.frames| == |m.frames| && m'.reserved == m.reserved
            && HasTable(m', dir, v / 1024) && Search(m', dir, v) == p
            && (forall d :: 0 <= d < 1024 && (d != v / 1024 || HasTable(m, dir, d)) ==>
                  Pde(m', dir, d) == Pde(m, dir, d))
            && (forall u :: 0 <= u < PAGES && u / 1024 != SELF ==>
                  Pte(m', dir, u) == if u == v then Mapped(was, p, perm) else Pte(m, dir, u))
            && MapCounts(WithTable(m, dir, v / 1024), m', p, Search(m, dir, v))
  {
    hide Present, Pfn;
    var d := v / 1024;
    WithTableWalks(m, dir, d);
    WithTableCounted(m, dir, d);
    NotTable(m, dir, d, p);
    var m1 := WithTable(m, dir, d);
    MapHereCounted(m1, dir, p, v, perm);
    ZeroEntry();
    assert EntryOk(m, dir, v);
    assert Pte(m1, dir, v) == Pte(m, dir, v);
    assert Pde(Insert(m, dir, p, v, perm), dir, d) == Pde(m1, dir, d);
  }
}
