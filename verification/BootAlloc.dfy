// The boot allocator that hands out memory above the kernel image before there is a page pool
// (src/kernel/kmap.c), and its separation from that pool.
module BootAlloc {
  import opened Words
  import opened Mmu
  import opened PageList

  // Memory mapped by the entry directory ends here.
  const LIMIT: nat := KERNEL_BASE_ADDRESS + PAGE_TABLE_SIZE

  const IO_HOLE: nat := 0xA_0000      // IOPHYSMEM

  // PAGE_ALLIGNED_ROUND on unbounded numbers: always to a later page boundary.
  function RoundUp(x: nat): (r: nat)
    ensures r % PAGE_SIZE == 0 && x < r <= x + PAGE_SIZE
  {
    x + (PAGE_SIZE - x % PAGE_SIZE)
  }

  // The pointer after an allocation of n bytes at p; both the sum and the rounding wrap.
  function Bump(p: Word, n: Word): Word {
    RoundUp((p + n) % TWO32) % TWO32
  }

  // The pointer a call starts from: the first call, or one that finds a null pointer, starts above
  // the kernel.
  function Ready(endBss: Word, nextFree: Word): Word {
    if nextFree == 0 then RoundUp(endBss) % TWO32 else nextFree
  }

  class BootAllocator {
    const endBss: Word
    var nextFree: Word       // 0 until the first call

    // boot_alloc; past the limit the kernel halts.
    method Alloc(nbytes: Word) returns (halted: bool, addr: Word)
      modifies this
      ensures addr == Ready(endBss, old(nextFree))
      ensures nextFree == if nbytes == 0 then addr else Bump(addr, nbytes)
      ensures halted <==> nbytes != 0 && Bump(addr, nbytes) > LIMIT
    {
      if nextFree == 0 {
        nextFree := RoundUp(endBss) % TWO32;
      }
      addr := nextFree;
      if nbytes == 0 {
        return false, addr;
      }
      nextFree := RoundUp((nextFree + nbytes) % TWO32) % TWO32;
      halted := nextFree > LIMIT;
    }
  }

  ghost predicate Sound(p: Word) {
    p % PAGE_SIZE == 0 && KERNEL_BASE_ADDRESS < p <= LIMIT
  }

  // An allocation that does not halt has memory of its own exactly when the rounded end does not
  // wrap. When it does wrap, the pointer moves back and the test for the limit passes.
  lemma AllocSoundIff(p: Word, n: Word)
    requires Sound(p) && n > 0 && Bump(p, n) <= LIMIT
    ensures p + n <= Bump(p, n) <==> RoundUp(p + n) < TWO32
    ensures RoundUp(p + n) < TWO32 ==> Sound(Bump(p, n)) && Bump(p, n) == RoundUp(p + n)
    ensures RoundUp(p + n) >= TWO32 ==> Bump(p, n) <= p
  {
    var x := p + n;
    if x < TWO32 {
      assert RoundUp(x) <= TWO32;
    } else {
      var y := x - TWO32;
      assert y < p && RoundUp(y) <= p;
    }
  }

  // ----- sequences of calls

  // The pointer before the i-th of a sequence of calls.
  function Pointer(p: Word, sizes: seq<Word>, i: nat): Word
    requires i <= |sizes|
  {
    if i == 0 then p
    else
      var q := Pointer(p, sizes, i - 1);
      if sizes[i - 1] == 0 then q else Bump(q, sizes[i - 1])
  }

  // No call halts and no rounded end wraps.
  ghost predicate Served(p: Word, sizes: seq<Word>) {
    forall i :: 0 <= i < |sizes| && sizes[i] != 0 ==>
      var q := Pointer(p, sizes, i);
      Bump(q, sizes[i]) <= LIMIT && RoundUp(q + sizes[i]) < TWO32
  }

  lemma PointerStep(p: Word, sizes: seq<Word>, k: nat)
    requires Served(p, sizes) && k < |sizes| && Sound(Pointer(p, sizes, k))
    ensures Sound(Pointer(p, sizes, k + 1))
    ensures Pointer(p, sizes, k) + sizes[k] <= Pointer(p, sizes, k + 1)
  {
    hide RoundUp, Bump, Sound;
    if sizes[k] != 0 {
      AllocSoundIff(Pointer(p, sizes, k), sizes[k]);
    }
  }

  lemma {:induction false} PointerAdvances(p: Word, sizes: seq<Word>, i: nat, j: nat)
    requires Sound(p) && Served(p, sizes) && i <= j <= |sizes|
    ensures Sound(Pointer(p, sizes, i)) && Sound(Pointer(p, sizes, j))
    ensures Pointer(p, sizes, i) <= Pointer(p, sizes, j)
    ensures i < j ==> Pointer(p, sizes, i) + sizes[i] <= Pointer(p, sizes, j)
    decreases j
  {
    hide Sound, Served;
    if j > 0 {
      PointerAdvances(p, sizes, if i < j then i else j - 1, j - 1);
      PointerStep(p, sizes, j - 1);
    }
  }

  // Every region handed out is page aligned, above the start and below the limit, and ends before
  // any later one begins.
  lemma RegionsDisjoint(p: Word, sizes: seq<Word>)
    requires Sound(p) && Served(p, sizes)
    ensures forall i :: 0 <= i < |sizes| ==>
              var a := Pointer(p, sizes, i); a % PAGE_SIZE == 0 && p <= a && a + sizes[i] <= 0xF040_0000
    ensures forall i, j :: 0 <= i < j < |sizes| ==> Pointer(p, sizes, i) + sizes[i] <= Pointer(p, sizes, j)
  {
    forall i | 0 <= i < |sizes|
      ensures var a := Pointer(p, sizes, i); a % PAGE_SIZE == 0 && p <= a && a + sizes[i] <= 0xF040_0000
    {
      PointerAdvances(p, sizes, 0, i);
      PointerAdvances(p, sizes, i, i + 1);
    }
    forall i, j | 0 <= i < j < |sizes|
      ensures Pointer(p, sizes, i) + sizes[i] <= Pointer(p, sizes, j)
    {
      PointerAdvances(p, sizes, i, j);
    }
  }

  // ----- the page pool

  // The pages init_pages puts on the free list, given the page counts of base and of used memory.
  function Pool(base: nat, used: nat, count: nat): seq<nat> {
    Down(if base <= used then used else base, count) + Down(1, base)
  }

  ghost predicate Apart(p: nat, lo: nat, hi: nat) {
    (p + 1) * PAGE_SIZE <= lo || hi <= p * PAGE_SIZE
  }

  // With used_count taken from the boot allocator, no free page is page 0 or meets the IO hole, the
  // kernel image up to end_bss, or a boot allocation.
  lemma PoolApart(endBss: Word, sizes: seq<Word>, base: nat, count: nat, p: nat)
    requires Sound(RoundUp(endBss) % TWO32) && Paddr(endBss) >= IO_HOLE && KERNEL_BASE_ADDRESS <= endBss
    requires var start := Ready(endBss, 0);
             Served(start, sizes)
             && base * PAGE_SIZE <= IO_HOLE
             && p in Pool(base, Paddr(Pointer(start, sizes, |sizes|)) / PAGE_SIZE, count)
    ensures p != 0 && Apart(p, IO_HOLE, Paddr(endBss))
    ensures forall i :: 0 <= i < |sizes| ==>
              var a := Paddr(Pointer(Ready(endBss, 0), sizes, i)); Apart(p, a, a + sizes[i])
  {
    hide Pointer, Served, Ready, RoundUp, Pool, Sound, Paddr;
    var start := Ready(endBss, 0);
    var end := Pointer(start, sizes, |sizes|);
    StartAbove(endBss);
    PointerAdvances(start, sizes, 0, |sizes|);
    PhysicalEnd(end);
    PhysicalEnd(start);
    PoolBounds(base, Paddr(end) / PAGE_SIZE, count, p);
    forall i | 0 <= i < |sizes|
      ensures var a := Paddr(Pointer(start, sizes, i)); Apart(p, a, a + sizes[i])
    {
      PointerAdvances(start, sizes, 0, i);
      PointerAdvances(start, sizes, i, |sizes|);
      PhysicalEnd(Pointer(start, sizes, i));
    }
  }

  lemma PoolBounds(base: nat, used: nat, count: nat, p: nat)
    requires p in Pool(base, used, count)
    ensures 1 <= p < base || (used <= p < count && base <= p)
  {
    DownPages(1, base);
    DownPages(if base <= used then used else base, count);
  }

  lemma StartAbove(endBss: Word)
    requires Sound(RoundUp(endBss) % TWO32) && KERNEL_BASE_ADDRESS <= endBss
    ensures Ready(endBss, 0) > endBss && Sound(Ready(endBss, 0))
    ensures Paddr(endBss) == endBss - KERNEL_BASE_ADDRESS
    ensures forall sizes :: Pointer(Ready(endBss, 0), sizes, 0) == Ready(endBss, 0)
  {
  }

  lemma PhysicalEnd(p: Word)
    requires Sound(p)
    ensures p >= KERNEL_BASE_ADDRESS && Paddr(p) == p - KERNEL_BASE_ADDRESS && Paddr(p) / PAGE_SIZE * PAGE_SIZE == Paddr(p)
  {
  }

  // ----- what initialize_memory allocates

  // The kernel image lies above the IO hole and ends inside the window of the entry directory.
  ghost predicate Image(endBss: Word) {
    KERNEL_BASE_ADDRESS + IO_HOLE <= endBss && Sound(RoundUp(endBss) % TWO32)
  }

  // The page directory, the page array of count entries of 8 bytes, and a query for the end. The
  // counts that CMOS memory sizes can give are below 2^21.
  function BootSizes(count: nat): seq<Word>
    requires count <= 0x20_0000
  {
    [PAGE_SIZE, 8 * count, 0]
  }

  function BootPointer(endBss: Word, count: nat, i: nat): Word
    requires count <= 0x20_0000 && i <= 3
  {
    Pointer(Ready(endBss, 0), BootSizes(count), i)
  }

  lemma BootPointers(endBss: Word, count: nat)
    requires 0 < count <= 0x20_0000
    ensures BootPointer(endBss, count, 0) == Ready(endBss, 0)
    ensures BootPointer(endBss, count, 1) == Bump(Ready(endBss, 0), PAGE_SIZE)
    ensures BootPointer(endBss, count, 2) == Bump(Bump(Ready(endBss, 0), PAGE_SIZE), 8 * count)
    ensures BootPointer(endBss, count, 3) == BootPointer(endBss, count, 2)
  {
    hide Ready, Bump;
    var p, sizes := Ready(endBss, 0), BootSizes(count);
    assert Pointer(p, sizes, 0) == p;
    assert Pointer(p, sizes, 1) == Bump(p, PAGE_SIZE);
    assert Pointer(p, sizes, 2) == Bump(Bump(p, PAGE_SIZE), 8 * count);
  }

  // Neither allocation halts.
  predicate BootFits(endBss: Word, count: nat)
    requires count <= 0x20_0000
  {
    BootPointer(endBss, count, 1) <= LIMIT && BootPointer(endBss, count, 2) <= LIMIT
  }

  // If neither allocation halts, no rounded end has wrapped.
  lemma BootServed(endBss: Word, count: nat)
    requires Image(endBss) && 0 < count <= 0x20_0000
    requires BootFits(endBss, count)
    ensures Served(Ready(endBss, 0), BootSizes(count))
  {
    BootPointers(endBss, count);
    StartAbove(endBss);
    var p, sizes := Ready(endBss, 0), BootSizes(count);
    hide Ready, Bump, Pointer;
    NoWrap(p, PAGE_SIZE);
    AllocSoundIff(p, PAGE_SIZE);
    NoWrap(BootPointer(endBss, count, 1), 8 * count);
    forall i | 0 <= i < |sizes| && sizes[i] != 0
      ensures var q := Pointer(p, sizes, i); Bump(q, sizes[i]) <= LIMIT && RoundUp(q + sizes[i]) < TWO32
    {
      assert i == 0 || i == 1;
    }
  }

  // The pointer is not null again before the allocations halt, so no call starts over.
  lemma BootNotNull(endBss: Word, count: nat)
    requires Image(endBss) && 0 < count <= 0x20_0000
    ensures var p := BootPointer(endBss, count, 1); Ready(endBss, p) == p
    ensures var p := BootPointer(endBss, count, 2); BootPointer(endBss, count, 1) <= LIMIT ==> Ready(endBss, p) == p
  {
    BootPointers(endBss, count);
    StartAbove(endBss);
    var p, q := Ready(endBss, 0), BootPointer(endBss, count, 1);
    NoWrap(p, PAGE_SIZE);
    if q <= LIMIT {
      AllocSoundIff(p, PAGE_SIZE);
      NoWrap(q, 8 * count);
    }
  }

  lemma AboveBase(p: Word)
    requires Sound(p)
    ensures KERNEL_BASE_ADDRESS < p <= LIMIT
  {
  }

  lemma NoWrap(p: Word, n: Word)
    requires Sound(p) && n <= 4 * PAGE_TABLE_SIZE
    ensures RoundUp(p + n) < TWO32
  {
  }

  // Where that puts things: the directory in a frame above base memory, the page array aligned above
  // it, the first page that may be free above both; no page of the pool meets any of them, and the
  // page array is small enough for its window.
  lemma BootLayout(endBss: Word, base: nat, count: nat)
    requires Image(endBss) && 0 < count <= 0x20_0000 && base * PAGE_SIZE <= IO_HOLE
    requires BootFits(endBss, count)
    ensures var dir, pages, used := Paddr(BootPointer(endBss, count, 0)) / PAGE_SIZE,
                                    Paddr(BootPointer(endBss, count, 1)),
                                    Paddr(BootPointer(endBss, count, 3)) / PAGE_SIZE;
            && count <= 0x8_0000 && base <= dir < used && pages % PAGE_SIZE == 0 && pages + PAGE_TABLE_SIZE <= TWO32
            && Apart(dir, pages, pages + 8 * count)
            && forall p :: p in Pool(base, used, count) ==>
                 && p != 0 && p != dir && Apart(p, IO_HOLE, Paddr(endBss)) && Apart(p, pages, pages + 8 * count)
  {
    var start, sizes := Ready(endBss, 0), BootSizes(count);
    BootServed(endBss, count);
    StartAbove(endBss);
    hide Pointer, Served, Ready, RoundUp, Pool, Sound, Paddr;
    PointerAdvances(start, sizes, 0, 3);
    PointerAdvances(start, sizes, 1, 2);
    PointerAdvances(start, sizes, 1, 3);
    AboveBase(Pointer(start, sizes, 1));
    AboveBase(Pointer(start, sizes, 2));
    PointerAdvances(start, sizes, 0, 1);
    PhysicalEnd(Pointer(start, sizes, 0));
    PhysicalEnd(Pointer(start, sizes, 1));
    PhysicalEnd(Pointer(start, sizes, 3));
    var dir, pages, used := Paddr(Pointer(start, sizes, 0)) / PAGE_SIZE, Paddr(Pointer(start, sizes, 1)),
                            Paddr(Pointer(start, sizes, 3)) / PAGE_SIZE;
    forall p | p in Pool(base, used, count)
      ensures p != 0 && p != dir && Apart(p, IO_HOLE, Paddr(endBss)) && Apart(p, pages, pages + 8 * count)
    {
      PoolApart(endBss, sizes, base, count, p);
      var a := Paddr(Pointer(start, sizes, 0));
      assert Apart(p, a, a + sizes[0]) && Apart(p, pages, pages + sizes[1]);
    }
  }
}
