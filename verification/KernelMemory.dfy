// The page allocator and page tables as the kernel keeps them (src/kernel/kmap.c): an intrusive free
// list threaded through the page array, reference counts, page frames and the translation cache, all
// updated in place. Every operation is proved equal to its function on the abstract memory.
module KernelMemory {
  import opened Words
  import opened Mmu
  import opened PageMemory
  import opened PageLifecycle
  import opened AddressSpace
  import opened KernelMap
  import opened PageList
  import BootAlloc
  import Strings

  class KernelMemory {
    const dir: nat                   // frame number of kern_page_directory
    const next: array<int>           // pages[i].next_free
    const refs: array<nat>           // pages[i].refs
    const frames: array<Frame>       // physical memory, page by page
    var head: int                    // page_free_list
    var tlb: map<nat, (Word, Word)>
    ghost var free: seq<nat>
    ghost var reserved: set<nat>

    ghost predicate Valid()
      reads this, next, refs, frames
    {
      && next.Length == refs.Length == frames.Length
      && next as object != refs as object
      && Linked(next[..], head, free)
      && Unlinked(next[..], free)
    }

    ghost function Mem(): Memory
      reads this, refs, frames
    {
      Memory(free, refs[..], frames[..], reserved)
    }

    ghost function State(): Machine
      reads this, refs, frames
    {
      Machine(Mem(), tlb)
    }

    // The first i pages have been set up by init_pages.
    ghost predicate Initialised(i: int)
      reads this, next, refs, frames
    {
      && next.Length == refs.Length == frames.Length && next as object != refs as object
      && 1 <= i <= next.Length
      && Linked(next[..], head, free)
      && (forall p :: p in free ==> p < i)
      && (forall p :: 0 <= p < i && p !in free ==> next[p] == NULL && refs[p] == 1)
      && (forall p :: 0 <= p < i && p in free ==> refs[p] == 0)
    }

    // A page goes to the front of the free list, unreferenced.
    method PushFree(i: nat)
      requires i < next.Length && Initialised(i)
      modifies this`head, this`free, next, refs
      ensures Initialised(i + 1) && free == [i] + old(free)
    {
      PushLinked(next[..], head, free, i);
      hide Linked;
      next[i] := head;
      head := i;
      refs[i] := 0;
      free := [i] + free;
      assert next[..] == old(next[..])[i := old(head)];
    }

    // first_free_page; on an empty list the source reads through a null pointer.
    method FirstFreePage() returns (p: nat)
      requires Valid() && FreeList(Mem()) && free != []
      modifies this`head, this`free, next
      ensures Valid() && p == old(free)[0] && free == old(free)[1..]
    {
      PopLinked(next[..], head, free);
      p := head;
      head := next[p];
      next[p] := NULL;
      free := free[1..];
      assert next[..] == old(next[..])[p := NULL];
    }

    // page_alloc
    method PageAlloc(flags: nat) returns (p: nat)
      requires Valid() && FreeList(Mem()) && free != []
      modifies this`head, this`free, next, frames
      ensures Valid() && p == old(free)[0]
      ensures Mem() == Alloc(old(Mem()), flags % 2 == 1)
    {
      hide Linked, Unlinked, And, Pow2;
      Pow2Values();
      AndMask(flags, 1);
      p := FirstFreePage();
      if And(flags, 1) == 1 {
        FillFrame(p, 0);
        assert WordFrame(0) == ZeroFrame();
        assert Mem() == Alloc(old(Mem()), true);
      } else {
        assert frames[..] == old(frames[..]);
        assert Mem() == Alloc(old(Mem()), false);
      }
    }

    // memset of a whole frame: the bytes of the int c in turn make every word c.
    method FillFrame(p: nat, c: Word)
      requires p < frames.Length
      modifies frames
      ensures frames[..] == old(frames[..])[p := WordFrame(c)]
    {
      for i := 0 to 1024
        invariant forall q :: 0 <= q < frames.Length && q != p ==> frames[q] == old(frames[q])
        invariant forall j :: 0 <= j < i ==> frames[p][j] == c
      {
        frames[p] := frames[p][i := c];
      }
      assert frames[p] == WordFrame(c);
    }

    // free_page halts on a page that is referenced or linked. The tail of the list it cannot tell from
    // a page off the list: it makes that the head as well.
    method FreePage(p: nat) returns (halted: bool)
      requires Valid() && p < refs.Length
      modifies this`head, this`free, next, refs
      ensures halted <==> old(refs[p]) != 0 || old(p in free && !IsTail(free, p))
      ensures halted ==> Valid() && Mem() == old(Mem())
      ensures !halted && !old(IsTail(free, p)) ==> Valid() && Mem() == Release(old(Mem()), p)
      ensures !halted && old(IsTail(free, p)) ==>
                && next[..] == old(next[..])[p := old(head)] && head == p
                && refs[..] == old(refs[..]) && free == old(free)
    {
      if p in free && !IsTail(free, p) {
        LinkedBeforeTail(next[..], head, free, p);
      } else if p !in free {
        PushLinked(next[..], head, free, p);
      } else {
        LinkedTail(next[..], head, free);
      }
      if refs[p] != 0 || next[p] != NULL {
        return true;
      }
      ghost var tail := p in free;
      next[p] := head;
      head := p;
      refs[p] := 0;
      if !tail {
        free := [p] + free;
      }
      halted := false;
      assert next[..] == old(next[..])[p := old(head)];
    }

    // page_decref
    method PageDecref(p: nat)
      requires Valid() && p < refs.Length && (p in free ==> refs[p] == 0)
      modifies this`head, this`free, next, refs
      ensures Valid()
      ensures Mem() == Decref(old(Mem()), p)
    {
      hide Linked, Unlinked;
      refs[p] := if refs[p] == 0 then TWO32 - 1 else refs[p] - 1;
      if refs[p] == 0 {
        assert !IsTail(free, p);
        var halted := FreePage(p);
      }
    }

    // get_page_table: the frame and index of the entry for va. Without create, an absent directory
    // entry halts the kernel.
    method GetPageTable(va: Word, create: bool) returns (halted: bool, t: nat, x: nat)
      requires Valid() && Tree(Mem(), dir)
      requires create && !Present(Pde(Mem(), dir, Pdx(va))) ==> free != []
      modifies this`head, this`free, next, refs, frames
      ensures Valid()
      ensures halted <==> !create && !Present(old(Pde(Mem(), dir, Pdx(va))))
      ensures !halted ==> Mem() == WithTable(old(Mem()), dir, Pdx(va))
      ensures halted ==> Mem() == old(Mem())
      ensures !halted ==> t == TableOf(Mem(), dir, Pdx(va)) && x == Ptx(va)
    {
      hide And, Or, Shr, Pdx, Ptx, IsPresent, PteAddr, Present, Pfn, Linked;
      var d := Pdx(va);
      var pde := frames[dir][d];
      x := Ptx(va);
      t := 0;
      if !IsPresent(pde) && !create {
        return true, t, x;
      }
      if !IsPresent(pde) && create {
        var p := PageAlloc(1);
        refs[p] := refs[p] + 1;
        pde := Entry(p, PTE_W + PTE_P + PTE_U);
        frames[dir] := frames[dir][d := pde];
        NewDirectoryEntry(old(Mem()), Mem(), dir, d, p);
      }
      halted := false;
      t := PteAddr(pde) / PAGE_SIZE;
    }

    // search_page: the mapped frame, or NULL, and where its entry is.
    method SearchPage(va: Word) returns (halted: bool, p: int, t: nat, x: nat)
      requires Valid() && Tree(Mem(), dir)
      modifies this`head, this`free, next, refs, frames
      ensures Valid() && Mem() == old(Mem())
      ensures halted <==> !Present(Pde(Mem(), dir, Pdx(va)))
      ensures !halted ==> p == Search(Mem(), dir, Pgnum(va))
      ensures !halted ==> t == TableOf(Mem(), dir, Pdx(va)) && x == Ptx(va)
    {
      hide And, Shr, Pdx, Ptx, Pgnum, IsPresent, PteAddr, Present, Pfn, Linked;
      Decompose(va);
      halted, t, x := GetPageTable(va, false);
      p := NULL;
      if !halted {
        assert t < frames.Length;
        if IsPresent(frames[t][x]) && PteAddr(frames[t][x]) / PAGE_SIZE < frames.Length {
          p := PteAddr(frames[t][x]) / PAGE_SIZE;
        }
      }
    }

    // remove_page at any address: the page is released before the translation is invalidated.
    method RemovePage(va: Word) returns (halted: bool)
      requires Valid() && Tree(Mem(), dir)
      modifies this`head, this`free, this`tlb, next, refs, frames
      ensures Valid()
      ensures halted <==> !Present(old(Pde(Mem(), dir, Pdx(va))))
      ensures halted ==> State() == old(State())
      ensures Pdx(va) == Pgnum(va) / 1024
      ensures !halted ==> Mem() == Remove(old(Mem()), dir, Pgnum(va))
      ensures !halted ==> tlb == if old(Search(Mem(), dir, Pgnum(va))) != -1 then old(tlb) - {Pgnum(va)} else old(tlb)
    {
      hide And, Shr, Pdx, Ptx, Pgnum, IsPresent, PteAddr, Present, Pfn, Linked;
      Decompose(va);
      var p, t, x;
      halted, p, t, x := SearchPage(va);
      if halted {
        return;
      }
      SlotInside(Mem(), dir, Pdx(va));
      if p == NULL {
        return;
      }
      assert p in free ==> refs[p] == 0;
      frames[t] := frames[t][x := 0];
      assert Mem() == SetPte(old(Mem()), dir, Pgnum(va), 0);
      PageDecref(p);
      tlb := tlb - {Pgnum(va)};
    }

    // The store of a composed entry.
    method WriteEntry(t: nat, x: nat, p: nat, v: nat, perm: nat)
      requires Valid() && dir < frames.Length && v < PAGES
      requires t == TableOf(Mem(), dir, v / 1024) < frames.Length && x == v % 1024
      requires p < PAGES && perm < PAGE_SIZE
      modifies frames
      ensures Valid() && Mem() == SetPte(old(Mem()), dir, v, Entry(p, perm))
    {
      hide And, Or, Shr, PteAddr, Present, Pfn, Linked, MakeEntry;
      frames[t] := frames[t][x := MakeEntry(p * PAGE_SIZE, perm)];
    }

    // insert_page at any address outside the self-map window.
    method InsertPage(p: nat, va: Word, perm: nat)
      requires Valid() && Tree(Mem(), dir) && p < refs.Length && perm < PAGE_SIZE && Pdx(va) != SELF
      requires HasTable(Mem(), dir, Pdx(va)) || free != []
      modifies this`head, this`free, this`tlb, next, refs, frames
      ensures Valid() && Pdx(va) == Pgnum(va) / 1024
      ensures Mem() == Insert(old(Mem()), dir, p, Pgnum(va), perm)
      ensures tlb == if Invalidates(old(Mem()), dir, p, Pgnum(va), perm) then old(tlb) - {Pgnum(va)} else old(tlb)
    {
      hide And, Or, Shr, Pdx, Ptx, Pgnum, IsPresent, PteAddr, Present, Pfn, Linked;
      Decompose(va);
      var v := Pgnum(va);
      WithTableWalks(Mem(), dir, v / 1024);
      var halted, t, x := GetPageTable(va, true);
      MapPageHere(p, va, perm, t, x);
    }

    // The rest of insert_page, once the table is there.
    method MapPageHere(p: nat, va: Word, perm: nat, t: nat, x: nat)
      requires Valid() && Tree(Mem(), dir) && p < refs.Length && perm < PAGE_SIZE
      requires HasTable(Mem(), dir, Pdx(va)) && t == TableOf(Mem(), dir, Pdx(va)) && x == Ptx(va)
      modifies this`head, this`free, this`tlb, next, refs, frames
      ensures Valid()
      ensures Pgnum(va) / 1024 == Pdx(va) && Mem() == MapHere(old(Mem()), dir, p, Pgnum(va), perm)
      ensures tlb == if Invalidates(old(Mem()), dir, p, Pgnum(va), perm) then old(tlb) - {Pgnum(va)} else old(tlb)
    {
      hide And, Or, Shr, Pdx, Ptx, Pgnum, IsPresent, PteAddr, Present, Pfn, Linked;
      hide SetPte, Remove;
      Decompose(va);
      var v := Pgnum(va);
      SlotInside(Mem(), dir, v / 1024);
      EvictSlots(Mem(), dir, v);
      var e := frames[t][x];
      if PteAddr(e) == p * PAGE_SIZE {
        if perm == 0 {
          tlb := tlb - {v};
          WriteEntry(t, x, p, v, perm);
        }
        return;
      }
      if IsPresent(e) {
        var halted := RemovePage(va);
      }
      refs[p] := refs[p] + 1;
      WriteEntry(t, x, p, v, perm);
    }

    // init_pages: every page below used that is not base memory is marked in use, as is page 0.
    method InitPages(base: nat, used: nat)
      requires next.Length == refs.Length == frames.Length && next as object != refs as object
      requires 0 < next.Length && base <= next.Length && used <= next.Length && head == NULL
      modifies this`head, this`free, this`reserved, next, refs
      ensures Valid()
      ensures free == Down(Max(1, Max(base, used)), next.Length) + Down(1, base)
      ensures forall p: nat :: p in reserved <==> p < next.Length && p !in free
      ensures forall p :: 0 <= p < refs.Length ==> refs[p] == if p in reserved then 1 else 0
    {
      hide Linked;
      refs[0] := 1;
      next[0] := NULL;
      free := [];
      NothingLinked(next[..]);
      assert Down(1, 1) == [];
      var i := InitFree(1, base);
      assert free == Down(1, base);
      i := InitUsed(i, used);
      i := InitFree(i, next.Length);
      reserved := set p: nat | p < next.Length && p !in free;
    }

    // The loops over base and extended memory: the pages from lo go on the list one by one.
    method InitFree(lo: nat, end: nat) returns (i: nat)
      requires Initialised(lo) && end <= next.Length
      modifies this`head, this`free, next, refs
      ensures i == Max(lo, end) && Initialised(i) && free == Down(lo, end) + old(free)
    {
      hide Linked, Initialised;
      i := lo;
      assert Down(lo, i) + free == free;
      while i < end
        invariant lo <= i <= Max(lo, end)
        invariant Initialised(i) && free == Down(lo, i) + old(free)
      {
        PushFree(i);
        DownStep(lo, i);
        i := i + 1;
      }
      assert Down(lo, end) == Down(lo, i);
    }

    // The loop over the IO hole, the kernel and the boot allocations.
    method InitUsed(lo: nat, end: nat) returns (i: nat)
      requires Initialised(lo) && end <= next.Length
      modifies next, refs
      ensures i == Max(lo, end) && Initialised(i)
    {
      hide Initialised;
      i := lo;
      while i < end
        invariant lo <= i <= Max(lo, end) && Initialised(i)
      {
        MarkUsed(i);
        i := i + 1;
      }
    }

    method MarkUsed(i: nat)
      requires i < next.Length && Initialised(i)
      modifies next, refs
      ensures Initialised(i + 1)
    {
      LinkOutside(next[..], head, free, i);
      hide Linked;
      next[i] := NULL;
      refs[i] := 1;
      assert next[..] == old(next[..])[i := NULL];
    }

    // check_page_list(1): the list is partitioned in place through two tail pointers, then every
    // free page below 4MB is poisoned. The fill value is the int 0x97, of which memset stores all
    // four bytes in turn.
    method CheckPageList()
      requires Valid() && Distinct(free)
      modifies this`head, this`free, next, frames
      ensures Valid() && free == Partitioned(old(free))
      ensures frames[..] == Poisoned(old(frames[..]), free)
    {
      PartitionList();
      Poison();
    }

    // A write through a tail pointer, which is either the local head (NULL here) or the link of page
    // tail.
    method WriteTail(tail: int, p: int, first: int) returns (first': int)
      requires tail != NULL ==> 0 <= tail < next.Length
      modifies next
      ensures first' == if tail == NULL then p else first
      ensures next[..] == Written(old(next[..]), tail, p)
    {
      if tail == NULL {
        first' := p;
      } else {
        first' := first;
        next[tail] := p;
      }
    }

    // The poison loop.
    method Poison()
      requires Valid()
      modifies frames
      ensures frames[..] == Poisoned(old(frames[..]), free)
    {
      hide Linked, Unlinked, Rest, Poisoned, WordFrame;
      var ps := head;
      ghost var i: nat := 0;
      HeadOf(next[..], head, free);
      PoisonNone(frames[..], free);
      while ps != NULL
        invariant i <= |free| && ps == At(free, i) && next[..] == old(next[..])
        invariant frames[..] == Poisoned(old(frames[..]), free[..i])
        decreases |free| - i
      {
        RestAt(next[..], free, i);
        PoisonNext(old(frames[..]), free, i);
        FourMegabytes(ps);
        if ps * PAGE_SIZE / PAGE_TABLE_SIZE < 1 {
          FillFrame(ps, 0x97);
        }
        ps := next[ps];
        i := i + 1;
      }
      assert free[..i] == free;
    }

    method PartitionList()
      requires Valid() && Distinct(free)
      modifies this`head, this`free, next
      ensures Valid() && free == Partitioned(old(free))
    {
      var ps1, t0, ps2, t1 := BuildChains();
      FinishPartition(next[..], free, ps1, t0, ps2, t1);
      hide Linked, Partitioning, Partitioned, Unlinked;
      ps2 := WriteTail(t1, NULL, ps2);
      ps1 := WriteTail(t0, ps2, ps1);
      head := ps1;
      free := Partitioned(free);
    }

    // The loop: each page is appended to the chain of its kind through that chain's tail pointer.
    method BuildChains() returns (ps1: int, t0: int, ps2: int, t1: int)
      requires Valid() && Distinct(free)
      modifies next
      ensures Partitioning(next[..], free, |free|, ps1, t0, ps2, t1)
    {
      ps1, ps2, t0, t1 := NULL, NULL, NULL, NULL;
      var ps := head;
      ghost var i: nat := 0;
      StartPartition(next[..], head, free);
      hide Linked, Partitioning;
      while ps != NULL
        invariant i <= |free| && ps == At(free, i) && Partitioning(next[..], free, i, ps1, t0, ps2, t1)
        decreases |free| - i
      {
        StepPartition(next[..], free, i, ps1, t0, ps2, t1);
        FourMegabytes(ps);
        if ps * PAGE_SIZE / PAGE_TABLE_SIZE >= 1 {
          ps2 := WriteTail(t1, ps, ps2);
          t1 := ps;
        } else {
          ps1 := WriteTail(t0, ps, ps1);
          t0 := ps;
        }
        ps := next[ps];
        i := i + 1;
      }
    }

    // map_memory_region
    method MapMemoryRegion(va: Word, size: Word, pa: Word, perm: nat)
      requires Valid() && Tree(Mem(), dir) && perm < PAGE_SIZE
      requires Pgnum(va) + size / PAGE_SIZE <= PAGES && !Touched(Pgnum(va), size / PAGE_SIZE, SELF)
      requires TablesNeeded(Mem(), dir, Pgnum(va), size / PAGE_SIZE) <= |free|
      modifies this`head, this`free, next, refs, frames
      ensures Valid() && Region(old(Mem()), Mem(), dir, Pgnum(va), size / PAGE_SIZE, pa, perm)
      ensures forall v :: Pgnum(va) <= v < Pgnum(va) + size / PAGE_SIZE ==>
                MapsRegion(Pte(Mem(), dir, v), v - Pgnum(va), pa, perm)
    {
      hide And, Or, Shr, Pdx, Ptx, Pgnum, PteAddr, Present, Pfn, Linked, MakeEntry, TablesNeeded, Region;
      var n := size / PAGE_SIZE;
      ghost var v0 := Pgnum(va);
      RegionEmpty(Mem(), dir, v0, pa, perm);
      for i := 0 to n
        invariant Valid() && Tree(Mem(), dir) && Region(old(Mem()), Mem(), dir, v0, i, pa, perm)
      {
        MapRegionPage(va, pa, perm, i, old(Mem()), n);
      }
      RegionMeans(old(Mem()), Mem(), dir, v0, n, pa, perm);
    }

    // one iteration of map_memory_region
    method MapRegionPage(va: Word, pa: Word, perm: nat, i: nat, ghost start: Memory, ghost n: nat)
      requires Valid() && Tree(Mem(), dir) && Tree(start, dir) && perm < PAGE_SIZE && i < n
      requires Pgnum(va) + n <= PAGES && !Touched(Pgnum(va), n, SELF)
      requires TablesNeeded(start, dir, Pgnum(va), n) <= |start.free|
      requires Region(start, Mem(), dir, Pgnum(va), i, pa, perm)
      modifies this`head, this`free, next, refs, frames
      ensures Valid() && Tree(Mem(), dir) && Region(start, Mem(), dir, Pgnum(va), i + 1, pa, perm)
    {
      hide And, Or, Shr, Pdx, Ptx, Pgnum, PteAddr, Present, Pfn, Linked, MakeEntry, TablesNeeded, Region;
      ghost var v0 := Pgnum(va);
      TablesNeededGrows(start, dir, v0, i + 1, n);
      RegionStep(start, Mem(), dir, v0, i, pa, perm);
      NextPage(va, i);
      var page := va + i * PAGE_SIZE;
      Decompose(page);
      ghost var before := Mem();
      WithTableWalks(Mem(), dir, Pdx(page));
      var halted, t, x := GetPageTable(page, true);
      frames[t] := frames[t][x := MakeEntry((pa + i * PAGE_SIZE) % TWO32, perm)];
      assert Mem() == MapOne(before, dir, v0 + i, RegionEntry(pa, i, perm));
      RegionTree(start, Mem(), dir, v0, i + 1, pa, perm);
    }

    // check_va2pa
    method CheckVa2pa(va: Word) returns (res: Word)
      requires Valid() && Tree(Mem(), dir)
      ensures res == Va2pa(Mem(), dir, va)
    {
      hide And, Shr, Pdx, Ptx, Pgnum, IsPresent, PteAddr, Present, Pfn, Linked;
      Decompose(va);
      var pde := frames[dir][Pdx(va)];
      ZeroEntry();
      if !IsPresent(pde) {
        return 0xFFFF_FFFF;
      }
      var t := PteAddr(pde) / PAGE_SIZE;
      assert t == TableOf(Mem(), dir, Pdx(va)) && t < frames.Length;
      var e := frames[t][Ptx(va)];
      res := if IsPresent(e) then PteAddr(e) else 0xFFFF_FFFF;
    }

    // check_kern_pgdir, on any map: false if it reaches an error branch.
    method CheckKernPgdir(pagesPa: Word, stackPa: Word) returns (ok: bool)
      requires Valid() && Tree(Mem(), dir) && next.Length <= 0x8_0000
      ensures ok <==> Passes(Mem(), dir, next.Length, pagesPa, stackPa)
    {
      hide Linked, Present, Pfn, Leads, SlotsRight;
      Windows();
      RoundedPages(next.Length);
      var n := BootAlloc.RoundUp(next.Length * 8) % TWO32;
      ok := CheckRange(U_PAGES, n, ArrayPages(next.Length), pagesPa);
      if !ok {
        return;
      }
      ok := CheckRange(KERNEL_BASE_ADDRESS, next.Length * PAGE_SIZE, next.Length, 0);
      if !ok {
        return;
      }
      ok := CheckRange(KERNEL_STACK_TOP - KERNEL_STACK_SIZE, KERNEL_STACK_SIZE, 8, stackPa);
      if !ok {
        return;
      }
      ok := CheckSlots();
    }

    // One of its three address loops: size bytes from va lead to size bytes from pa.
    method CheckRange(va: Word, size: nat, ghost n: nat, pa: Word) returns (ok: bool)
      requires Valid() && Tree(Mem(), dir) && size == n * PAGE_SIZE
      ensures ok <==> Leads(Mem(), dir, va, n, pa)
    {
      hide Linked, Unlinked, Present, Pfn, Va2pa;
      assert dir < frames.Length;
      hide Tree;
      var i: nat := 0;
      ghost var k: nat := 0;
      while i < size
        invariant k <= n && i == k * PAGE_SIZE && Leads(Mem(), dir, va, k, pa)
      {
        var res := CheckVa2pa((va + i) % TWO32);
        assert LeadsAt(Mem(), dir, va, pa, k) <==> res == (pa + i) % TWO32;
        if res != (pa + i) % TWO32 {
          return false;
        }
        i := i + PAGE_SIZE;
        k := k + 1;
      }
      ok := true;
    }

    // Its loop over the directory.
    method CheckSlots() returns (ok: bool)
      requires Valid() && Tree(Mem(), dir)
      ensures ok <==> SlotsRight(Mem(), dir)
    {
      hide Linked, Unlinked, Pfn, And, AllowsWrite;
      for d := 0 to 1024
        invariant (d > 956 ==> Present(frames[dir][956])) && (d > 957 ==> Present(frames[dir][957]))
        invariant d > 959 ==> Present(frames[dir][959])
        invariant forall c :: 960 < c < d ==> Present(frames[dir][c]) && AllowsWrite(frames[dir][c])
      {
        var e := frames[dir][d];
        assert e == Pde(Mem(), dir, d);
        if (d == Pdx(U_VIRTUAL_PAGE_TABLE) || d == Pdx(KERNEL_STACK_TOP - 1) || d == Pdx(U_PAGES)) && !IsPresent(e) {
          return false;
        }
        if d > Pdx(KERNEL_BASE_ADDRESS) && (!IsPresent(e) || !IsWritable(e)) {
          return false;
        }
      }
      assert forall c :: 0 <= c < 1024 ==> Pde(Mem(), dir, c) == frames[dir][c];
      ok := true;
    }

    // initialize_memory to the switch of page tables, on a machine with a frame for every element of
    // frames, base of them base memory. dir is the frame of the first boot allocation. It halts if the
    // boot allocations do not fit, and is not ok if check_kern_pgdir stops it.
    method InitializeMemory(b: BootAlloc.BootAllocator, base: nat, stackPa: Word)
      returns (halted: bool, ok: bool, pagesPa: Word, ghost start: Memory)
      requires 0 < next.Length == refs.Length == frames.Length <= 0x20_0000 && next as object != refs as object
      requires head == NULL && b.nextFree == 0 && BootAlloc.Image(b.endBss)
      requires 0 < base && base * PAGE_SIZE <= BootAlloc.IO_HOLE
      requires dir == Paddr(BootAlloc.BootPointer(b.endBss, next.Length, 0)) / PAGE_SIZE
      requires BootAlloc.BootFits(b.endBss, next.Length) ==>
                 var used := UsedCount(b.endBss, next.Length);
                 used <= next.Length && LowPages(1, base) + LowPages(used, next.Length) >= 66
      modifies b, this`head, this`free, this`reserved, this`tlb, next, refs, frames
      ensures halted <==> !BootAlloc.BootFits(b.endBss, next.Length)
      ensures !halted ==>
                && Valid() && Blank(start, dir) && Built(start, Mem(), dir, pagesPa, stackPa)
                && Counted(Mem(), dir) && TablesLow(Mem(), dir) && TablesOpen(Mem(), dir) && 0 in reserved
      ensures !halted ==> start.free == Partitioned(BootAlloc.Pool(base, UsedCount(b.endBss, next.Length), next.Length))
      ensures !halted ==> pagesPa == Paddr(BootAlloc.BootPointer(b.endBss, next.Length, 1))
      ensures !halted ==>
                && next.Length <= 0x8_0000 && BootAlloc.Apart(dir, pagesPa, pagesPa + 8 * next.Length)
                && forall i: nat :: i < next.Length ==> Physical(Mem(), dir, ElementAddress(i)) == pagesPa + 8 * i
      ensures !halted ==>
                forall p :: p in start.free ==>
                  && p != 0 && p != dir && BootAlloc.Apart(p, pagesPa, pagesPa + 8 * next.Length)
                  && BootAlloc.Apart(p, BootAlloc.IO_HOLE, Paddr(b.endBss))
      ensures !halted ==> (ok <==> next.Length <= 0xFFFF && stackPa % PAGE_SIZE == 0)
      ensures !halted && ok ==> Inv(State(), dir)
    {
      hide Linked, Unlinked, Partitioned, Down, Tree, Built, Blank, LowPages, Counted, TablesLow, Inv;
      hide BootAlloc.BootPointer, BootAlloc.Image, BootAlloc.Ready, BootAlloc.Bump, BootAlloc.Apart, Paddr;
      var count := next.Length;
      BootAlloc.BootPointers(b.endBss, count);
      BootAlloc.BootNotNull(b.endBss, count);
      ok, pagesPa, start := false, 0, Mem();
      var pgdir, pages, end;
      halted, pgdir := b.Alloc(PAGE_SIZE);
      if halted {
        return;
      }
      halted, pages := b.Alloc(count * 8);
      if halted {
        return;
      }
      halted, end := b.Alloc(0);
      BootAlloc.BootLayout(b.endBss, base, count);
      pagesPa := Paddr(pages);
      var used := Paddr(end) / PAGE_SIZE;
      assert pages == BootAlloc.BootPointer(b.endBss, count, 1);
      assert end == BootAlloc.BootPointer(b.endBss, count, 3);
      ok, start := BuildKernelSpace(base, used, pagesPa, stackPa);
      PoolMembers(base, used, count);
      forall i: nat | i < count
        ensures Physical(Mem(), dir, ElementAddress(i)) == pagesPa + 8 * i
      {
        PagesTranslate(start, Mem(), dir, pagesPa, stackPa, 8 * i);
      }
    }

    // initialize_memory after its boot allocations, to the switch of page tables. The frames and the
    // list are set up from nothing.
    method BuildKernelSpace(base: nat, used: nat, pagesPa: Word, stackPa: Word)
      returns (ok: bool, ghost start: Memory)
      requires next.Length == refs.Length == frames.Length <= 0x8_0000 && next as object != refs as object
      requires 0 < base <= dir < used <= next.Length && head == NULL
      requires LowPages(1, base) + LowPages(used, next.Length) >= 66
      requires pagesPa % PAGE_SIZE == 0 && pagesPa + PAGE_TABLE_SIZE <= TWO32
      modifies this`head, this`free, this`reserved, this`tlb, next, refs, frames
      ensures Valid() && Blank(start, dir) && Tree(start, dir)
      ensures start.free == Partitioned(Down(used, next.Length) + Down(1, base))
      ensures 0 in start.reserved && reserved == start.reserved
      ensures Built(start, Mem(), dir, pagesPa, stackPa) && Counted(Mem(), dir)
      ensures TablesLow(Mem(), dir) && TablesOpen(Mem(), dir)
      ensures ok <==> next.Length <= 0xFFFF && stackPa % PAGE_SIZE == 0
      ensures ok ==> Inv(State(), dir)
    {
      SetUpPages(base, used);
      start := Mem();
      hide Linked, Unlinked, Partitioned, Down, Tree, Built, Blank, LowPages, Counted, TablesLow, LowFirst, OnlyReserved;
      ok := MapAndSwitch(pagesPa, stackPa);
      hide TablesOpen;
      BuiltOpen(start, Mem(), dir, pagesPa, stackPa);
    }

    // the three regions, check_kern_pgdir and, unless that halts, the switch to the new tables
    method MapAndSwitch(pagesPa: Word, stackPa: Word) returns (ok: bool)
      requires Valid() && Blank(Mem(), dir) && OnlyReserved(Mem()) && LowFirst(free) && next.Length <= 0x8_0000
      requires pagesPa % PAGE_SIZE == 0 && pagesPa + PAGE_TABLE_SIZE <= TWO32
      modifies this`head, this`free, this`tlb, next, refs, frames
      ensures Valid() && Tree(old(Mem()), dir) && Built(old(Mem()), Mem(), dir, pagesPa, stackPa)
      ensures Counted(Mem(), dir) && TablesLow(Mem(), dir)
      ensures ok <==> next.Length <= 0xFFFF && stackPa % PAGE_SIZE == 0
      ensures ok ==> Inv(State(), dir)
    {
      ghost var start := Mem();
      hide Linked, Unlinked, Built, Blank, Tree, Counted, TablesLow, LowFirst, OnlyReserved;
      MapKernel(pagesPa, stackPa);
      BuiltTree(start, Mem(), dir, pagesPa, stackPa);
      BuiltPassesIff(start, Mem(), dir, next.Length, pagesPa, stackPa);
      hide Passes;
      ok := CheckKernPgdir(pagesPa, stackPa);
      if ok {
        tlb := map[];
      }
    }

    // the directory, init_pages and check_page_list
    method SetUpPages(base: nat, used: nat)
      requires next.Length == refs.Length == frames.Length <= 0x8_0000 && next as object != refs as object
      requires 0 < base <= dir < used <= next.Length && head == NULL
      requires LowPages(1, base) + LowPages(used, next.Length) >= 66
      modifies this`head, this`free, this`reserved, next, refs, frames
      ensures Valid() && Blank(Mem(), dir)
      ensures free == Partitioned(Down(used, next.Length) + Down(1, base))
      ensures OnlyReserved(Mem()) && LowFirst(free) && 0 in reserved
    {
      hide Linked, Unlinked, MakeEntry;
      hide Partitioned, Down, Select, LowPages, Distinct, Poisoned, Blank, FreeList;
      CreateDirectory();
      assert Max(1, Max(base, used)) == used;
      InitPages(base, used);
      TwoRanges(base, used, next.Length);
      CheckPageList();
      SetUpFreeList(Mem(), base, used, dir);
      StartBlank(Mem(), dir);
    }

    // create_kern_pgdir and the self-map
    method CreateDirectory()
      requires dir < frames.Length <= PAGES
      modifies frames
      ensures frames[dir][SELF] == MakeEntry(dir * PAGE_SIZE, PTE_U)
      ensures forall d :: 0 <= d < 1024 && d != SELF ==> frames[dir][d] == 0
    {
      FillFrame(dir, 0);
      var d := Pdx(U_VIRTUAL_PAGE_TABLE);
      frames[dir] := frames[dir][d := MakeEntry(dir * PAGE_SIZE, PTE_U)];
    }

    // the three calls of map_memory_region
    method MapKernel(pagesPa: Word, stackPa: Word)
      requires Valid() && Blank(Mem(), dir) && OnlyReserved(Mem()) && LowFirst(free)
      modifies this`head, this`free, next, refs, frames
      ensures Valid() && Tree(old(Mem()), dir) && Built(old(Mem()), Mem(), dir, pagesPa, stackPa)
      ensures Counted(Mem(), dir)
      ensures TablesLow(Mem(), dir)
    {
      hide Linked, Unlinked, Present, Pfn, TablesNeeded, Touched, And, Shr, Pgnum, MakeEntry;
      Windows();
      ghost var m0 := Mem();
      RegionNeeds(m0, dir, PAGES_AT, 1024, 1);
      MapMemoryRegion(U_PAGES, PAGE_TABLE_SIZE, pagesPa, PTE_U);
      ghost var m1 := Mem();
      OnlySlots(m0, m1, dir, PAGES_AT, 1024, 1, 956, 956);
      RegionNeeds(m1, dir, STACK_AT, 1024, 2);
      MapMemoryRegion(KERNEL_STACK_TOP - KERNEL_STACK_SIZE, PAGE_TABLE_SIZE, stackPa, PTE_U);
      ghost var m2 := Mem();
      OnlySlots(m1, m2, dir, STACK_AT, 1024, 2, 959, 960);
      RegionNeeds(m2, dir, BASE_AT, REMAPPED, 63);
      MapMemoryRegion(KERNEL_BASE_ADDRESS, 0xFFFF_FFFF - KERNEL_BASE_ADDRESS, 0, PTE_W);
      ThreeRegions(m0, m1, m2, Mem(), dir, pagesPa, stackPa);
      BuiltCounted(m0, Mem(), dir, pagesPa, stackPa);
      TablesBelowFourMegabytes(m0, Mem(), dir, pagesPa, stackPa);
    }

    // proc_init_vm: the frame of the new task's directory.
    method ProcInitVm() returns (p: nat)
      requires Valid() && Counted(Mem(), dir) && free != []
      modifies this`head, this`free, this`reserved, next, refs, frames
      ensures Valid() && p == old(free)[0] && Mem() == TaskDirectory(old(Mem()), dir)
    {
      hide Linked, Unlinked, Present, Pfn, And, Or, Shr, Pdx, MakeEntry;
      assert free[0] != dir;
      p := PageAlloc(1);
      CopyFrame(p, dir);
      frames[p] := frames[p][Pdx(U_VIRTUAL_PAGE_TABLE) := MakeEntry(p * PAGE_SIZE, PTE_P + PTE_W)];
      refs[p] := refs[p] + 1;
      reserved := reserved + {p};
      assert frames[..] == old(frames[..])[p := old(frames[dir])[SELF := Entry(p, PTE_P + PTE_W)]];
    }

    // memcpy of a whole frame
    method CopyFrame(p: nat, q: nat)
      requires p < frames.Length && q < frames.Length && p != q
      modifies frames
      ensures frames[..] == old(frames[..])[p := old(frames[q])]
    {
      for i := 0 to 1024
        invariant forall r :: 0 <= r < frames.Length && r != p ==> frames[r] == old(frames[r])
        invariant forall j :: 0 <= j < i ==> frames[p][j] == old(frames[q])[j]
      {
        frames[p] := frames[p][i := frames[q][i]];
      }
      assert frames[p] == old(frames[q]);
    }
  }

  // The two ranges of free pages: what is on the partitioned list, and how many low pages lead it.
  lemma TwoRanges(base: nat, used: nat, n: nat)
    requires base <= used
    ensures var s := Down(used, n) + Down(1, base); var t := Partitioned(s);
            && Distinct(s) && Distinct(t)
            && (forall p :: p in s <==> 1 <= p < base || used <= p < n)
            && (forall p :: p in t <==> 1 <= p < base || used <= p < n)
            && (forall i :: 0 <= i < |t| ==> (t[i] < 1024 <==> i < LowPages(1, base) + LowPages(used, n)))
            && |t| >= LowPages(1, base) + LowPages(used, n)
  {
    hide Down, Select, LowPages, Partitioned, Distinct;
    var a, b := Down(used, n), Down(1, base);
    DownDistinct(used, n);
    DownDistinct(1, base);
    SelectAppend(a, b, true);
    DownLow(used, n);
    DownLow(1, base);
    LowSide(a + b);
    var s := a + b;
    DistinctUnion(a, b);
    PartitionedPages(s);
  }

  lemma DownDistinct(lo: nat, hi: nat)
    ensures Distinct(Down(lo, hi)) && forall p :: p in Down(lo, hi) <==> lo <= p < hi
  {
    DownPages(lo, hi);
    hide Down;
  }

  lemma LowSide(s: seq<nat>)
    ensures |Partitioned(s)| >= |Select(s, true)|
  {
  }

  // The free list that the kernel map is built from has the pages of the pool.
  lemma PoolMembers(base: nat, used: nat, n: nat)
    requires base <= used
    ensures forall p :: p in Partitioned(Down(used, n) + Down(1, base)) <==> p in BootAlloc.Pool(base, used, n)
  {
    TwoRanges(base, used, n);
    hide Down, Partitioned;
  }

  lemma SetUpFreeList(m: Memory, base: nat, used: nat, dir: nat)
    requires |m.refs| == |m.frames| <= PAGES && Distinct(m.free) && base <= dir < used <= |m.refs|
    requires forall p :: p in m.free <==> 1 <= p < base || used <= p < |m.refs|
    requires forall p: nat :: p in m.reserved <==> p < |m.refs| && p !in m.free
    requires forall p :: 0 <= p < |m.refs| ==> m.refs[p] == if p in m.reserved then 1 else 0
    ensures FreeList(m) && dir in m.reserved
  {
    assert forall i :: 0 <= i < |m.free| ==> m.free[i] in m.free;
  }

  // A directory of zeros but for its self-map, in a reserved frame.
  lemma StartBlank(m: Memory, dir: nat)
    requires FreeList(m) && dir < |m.frames| && dir in m.reserved
    requires m.frames[dir][SELF] == MakeEntry(dir * PAGE_SIZE, PTE_U)
    requires forall d :: 0 <= d < 1024 && d != SELF ==> m.frames[dir][d] == 0
    ensures Blank(m, dir)
  {
    hide MakeEntry, Pfn, Present;
    ZeroEntry();
  }

  function WordFrame(c: Word): (f: Frame)
    ensures forall i :: 0 <= i < 1024 ==> f[i] == c
  {
    seq(1024, _ => c)
  }

  // That is what memset leaves of the int c, byte for byte.
  lemma FrameBytes(c: Word, i: nat)
    requires i < 1024
    ensures WordFrame(c)[i] == Strings.MaskByte(c, 4 * i) + 0x100 * Strings.MaskByte(c, 4 * i + 1)
                               + 0x1_0000 * Strings.MaskByte(c, 4 * i + 2) + 0x100_0000 * Strings.MaskByte(c, 4 * i + 3)
  {
    hide Strings.MaskByte;
    Strings.MaskWord(c, i);
  }

  // Where the page array's window shows element i, and where free memory starts after the boot
  // allocations.
  function ElementAddress(i: nat): Word
    requires i < 0x8_0000
  {
    U_PAGES + 8 * i
  }

  function UsedCount(endBss: Word, count: nat): nat
    requires count <= 0x20_0000
  {
    Paddr(BootAlloc.BootPointer(endBss, count, 3)) / PAGE_SIZE
  }

  // Every page of free below 4MB filled with the poison, everything else untouched.
  ghost function Poisoned(frames: seq<Frame>, free: seq<nat>): (r: seq<Frame>)
    ensures |r| == |frames|
    ensures forall p :: 0 <= p < |frames| ==> r[p] == if p in free && p < 1024 then WordFrame(0x97) else frames[p]
  {
    seq(|frames|, p requires 0 <= p < |frames| => if p in free && p < 1024 then WordFrame(0x97) else frames[p])
  }

  lemma PoisonNone(frames: seq<Frame>, free: seq<nat>)
    ensures Poisoned(frames, free[..0]) == frames
  {
  }

  lemma PoisonNext(frames: seq<Frame>, free: seq<nat>, i: nat)
    requires i < |free| && free[i] < |frames|
    ensures Poisoned(frames, free[..i + 1]) ==
            if free[i] < 1024 then Poisoned(frames, free[..i])[free[i] := WordFrame(0x97)]
            else Poisoned(frames, free[..i])
  {
    assert free[..i + 1] == free[..i] + [free[i]];
  }

  lemma RoundedPages(count: nat)
    requires count <= 0x8_0000
    ensures BootAlloc.RoundUp(count * 8) % TWO32 == ArrayPages(count) * PAGE_SIZE
  {
  }

  lemma FourMegabytes(p: nat)
    ensures p * PAGE_SIZE / PAGE_TABLE_SIZE >= 1 <==> p >= 1024
  {
  }

  function Max(a: int, b: int): int {
    if a < b then b else a
  }

  lemma DownStep(lo: nat, i: nat)
    requires lo <= i
    ensures Down(lo, i + 1) == [i] + Down(lo, i)
  {
  }

  lemma NextPage(va: Word, i: nat)
    requires Pgnum(va) + i < PAGES
    ensures va + i * PAGE_SIZE < TWO32 && Pgnum(va + i * PAGE_SIZE) == Pgnum(va) + i
  {
    hide And, Shr, Pgnum;
    var x := va % PAGE_SIZE;
    assert va == Pgnum(va) * PAGE_SIZE + x;
    DivUnique(va + i * PAGE_SIZE, PAGE_SIZE, Pgnum(va) + i, x);
  }

  lemma NewDirectoryEntry(m: Memory, m': Memory, dir: nat, d: nat, p: nat)
    requires Tree(m, dir) && d < 1024 && !Present(Pde(m, dir, d)) && |m.free| > 0 && p == m.free[0]
    requires m'.free == m.free[1..] && m'.reserved == m.reserved
    requires m'.refs == m.refs[p := m.refs[p] + 1]
    requires m'.frames == m.frames[p := ZeroFrame()][dir := m.frames[dir][d := Entry(p, PTE_W + PTE_P + PTE_U)]]
    ensures m' == WithTable(m, dir, d)
  {
  }
}
