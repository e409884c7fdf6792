// Address decomposition, page-table entries and the memory layout (src/inc/mmu.h,
// src/inc/memlayout.h), with the meaning of every shift and mask as arithmetic.
module Mmu {
  import opened Words

  const PAGE_SIZE: nat := 4096
  const NUMBER_ENTRIES: nat := 1024
  const PAGE_TABLE_SIZE: nat := 0x40_0000

  const PTE_P: nat := 0x001
  const PTE_W: nat := 0x002
  const PTE_U: nat := 0x004

  const KERNEL_BASE_ADDRESS: nat := 0xF000_0000
  const KERNEL_STACK_SIZE: nat := 8 * PAGE_SIZE
  const KERNEL_STACK_TOP: nat := KERNEL_BASE_ADDRESS
  const U_LIMIT: nat := KERNEL_STACK_TOP - PAGE_TABLE_SIZE - PAGE_TABLE_SIZE
  const U_VIRTUAL_PAGE_TABLE: nat := U_LIMIT - PAGE_TABLE_SIZE
  const U_PAGES: nat := U_VIRTUAL_PAGE_TABLE - PAGE_TABLE_SIZE

  // Number of virtual pages, and an upper bound on the number of physical ones.
  const PAGES: nat := 0x10_0000

  function Pdx(la: Word): (d: nat)
    ensures d == la / PAGE_TABLE_SIZE && d < NUMBER_ENTRIES
  {
    FieldBits(la);
    And(Shr(la, 22), 0x3FF)
  }

  function Ptx(la: Word): (x: nat)
    ensures x == la / PAGE_SIZE % NUMBER_ENTRIES
  {
    FieldBits(la);
    And(Shr(la, 12), 0x3FF)
  }

  function Pgnum(la: Word): (n: nat)
    ensures n == la / PAGE_SIZE && n < PAGES
  {
    FieldBits(la);
    And(Shr(la, 12), 0xFFFFF)
  }

  function Pgoff(la: Word): (o: nat)
    ensures o == la % PAGE_SIZE
  {
    FieldBits(la);
    And(la, 0xFFF)
  }

  lemma FieldBits(la: Word)
    ensures And(Shr(la, 22), 0x3FF) == la / PAGE_TABLE_SIZE < NUMBER_ENTRIES
    ensures And(Shr(la, 12), 0x3FF) == la / PAGE_SIZE % NUMBER_ENTRIES
    ensures And(Shr(la, 12), 0xFFFFF) == la / PAGE_SIZE < PAGES
    ensures And(la, 0xFFF) == la % PAGE_SIZE
  {
    hide And, Shr, Pow2;
    Pow2Values();
    ShrIsDiv(la, 22);
    ShrIsDiv(la, 12);
    AndMask(Shr(la, 22), 10);
    AndMask(Shr(la, 12), 10);
    AndMask(Shr(la, 12), 20);
    AndMask(la, 12);
    SmallQuotients(la);
  }

  lemma SmallQuotients(la: Word)
    ensures la / PAGE_TABLE_SIZE % NUMBER_ENTRIES == la / PAGE_TABLE_SIZE < NUMBER_ENTRIES
    ensures la / PAGE_SIZE % PAGES == la / PAGE_SIZE < PAGES
  {
  }

  // A linear address is its directory index, table index and offset side by side, and the first
  // two are the page number.
  lemma Decompose(la: Word)
    ensures la == Pdx(la) * PAGE_TABLE_SIZE + Ptx(la) * PAGE_SIZE + Pgoff(la)
    ensures Pgnum(la) == Pdx(la) * NUMBER_ENTRIES + Ptx(la)
    ensures Pdx(la) == Pgnum(la) / NUMBER_ENTRIES && Ptx(la) == Pgnum(la) % NUMBER_ENTRIES
  {
    hide And, Shr, Pdx, Ptx, Pgnum, Pgoff;
  }

  // ----- entries

  // PTE_ADDR: the page-aligned physical address in an entry.
  function PteAddr(e: Word): (pa: Word)
    ensures pa == Pfn(e) * PAGE_SIZE
  {
    HighMask(e);
    And(e, 0xFFFF_F000)
  }

  predicate IsPresent(e: Word)
    ensures IsPresent(e) <==> Present(e)
  {
    Pow2Values();
    AndMask(e, 1);
    And(e, PTE_P) != 0
  }

  predicate IsWritable(e: Word)
    ensures IsWritable(e) <==> AllowsWrite(e)
  {
    AndEven(e, 1);
    Pow2Values();
    AndMask(e / 2, 1);
    And(e, PTE_W) != 0
  }

  // The entry for a physical address: permissions and the present bit are or-ed in.
  function MakeEntry(pa: Word, perm: nat): (e: Word)
    requires perm < PAGE_SIZE
    ensures Pfn(e) == pa / PAGE_SIZE && Present(e)
    ensures AllowsWrite(e) <==> AllowsWrite(pa) || AllowsWrite(perm)
    ensures AllowsUser(e) <==> AllowsUser(pa) || AllowsUser(perm)
    ensures pa % PAGE_SIZE == 0 ==> e % PAGE_SIZE == perm / 2 * 2 + 1
  {
    EntryBits(pa, perm);
    EntryRights(pa, perm);
    Or(Or(pa, perm), PTE_P)
  }

  // The frame number and the present bit, as arithmetic.
  function Pfn(e: Word): (p: nat)
    ensures p < PAGES
  {
    e / PAGE_SIZE
  }

  predicate Present(e: Word) {
    e % 2 == 1
  }

  // The rights an entry grants: bit 1 for writing, bit 2 for user code.
  predicate AllowsWrite(e: Word) {
    e / 2 % 2 == 1
  }

  predicate AllowsUser(e: Word) {
    e / 4 % 2 == 1
  }

  // They are the low bits of an entry.
  lemma LowBits(e: Word)
    ensures Present(e) <==> e % PAGE_SIZE % 2 == 1
    ensures AllowsWrite(e) <==> e % PAGE_SIZE / 2 % 2 == 1
    ensures AllowsUser(e) <==> e % PAGE_SIZE / 4 % 2 == 1
  {
    BitOfLow(e, 1, 2048);
    BitOfLow(e, 2, 1024);
    BitOfLow(e, 4, 512);
  }

  // Bit b of a word is bit b of its remainder by 4096.
  lemma BitOfLow(e: nat, b: nat, half: nat)
    requires b > 0 && 2 * half * b == PAGE_SIZE
    ensures e / b % 2 == e % PAGE_SIZE / b % 2
  {
    var q, x := e / PAGE_SIZE, e % PAGE_SIZE;
    var y := x / b;
    assert x == y * b + x % b;
    assert q * PAGE_SIZE == (q * half * 2) * b by {
      assert q * (2 * half * b) == (q * half * 2) * b;
    }
    assert (q * half * 2 + y) * b == (q * half * 2) * b + y * b;
    DivUnique(e, b, q * half * 2 + y, x % b);
    DivUnique(q * half * 2 + y, 2, q * half + y / 2, y % 2);
  }

  lemma EntryRights(pa: Word, perm: nat)
    requires perm < PAGE_SIZE
    ensures var e := Or(Or(pa, perm), PTE_P);
            && e / 2 % 2 == (if pa / 2 % 2 == 1 || perm / 2 % 2 == 1 then 1 else 0)
            && e / 4 % 2 == (if pa / 4 % 2 == 1 || perm / 4 % 2 == 1 then 1 else 0)
  {
    hide Or;
    var x := Or(pa, perm);
    OrHalves(x, PTE_P);
    OrZero(x / 2);
    OrHalves(pa, perm);
    OrHalves(pa / 2, perm / 2);
    OrHalves(pa / 4, perm / 4);
    assert Or(x, PTE_P) / 2 == x / 2 == Or(pa / 2, perm / 2);
    assert x / 2 / 2 == Or(pa / 4, perm / 4);
  }

  lemma HighMask(e: Word)
    ensures And(e, 0xFFFF_F000) == e / PAGE_SIZE * PAGE_SIZE
  {
    hide And, Shr, Shl, Pow2;
    Pow2Values();
    ShlIsMul(0xF_FFFF, 12);
    AndShifted(e, 0xF_FFFF, 12);
    ShrIsDiv(e, 12);
    AndMask(Shr(e, 12), 20);
    ShlIsMul(And(Shr(e, 12), 0xF_FFFF), 12);
  }

  lemma EntryBits(pa: Word, perm: nat)
    requires perm < PAGE_SIZE
    ensures var e := Or(Or(pa, perm), PTE_P);
            && e < TWO32 && e / PAGE_SIZE == pa / PAGE_SIZE && e % 2 == 1
            && (pa % PAGE_SIZE == 0 ==> e % PAGE_SIZE == perm / 2 * 2 + 1)
  {
    hide Or, Shl, Shr, Pow2;
    var x := Or(pa, perm);
    var e := Or(x, PTE_P);
    Pow2Values();
    OrLow(pa, 12, perm);
    OrLow(x, 12, PTE_P);
    ShrIsDiv(pa, 12);
    ShrIsDiv(x, 12);
    ShrIsDiv(e, 12);
    OrHalves(x, PTE_P);
    OrZero(x / 2);
    OrHalves(pa, perm);
    BelowTop(pa, e);
    if pa % PAGE_SIZE == 0 {
      ShlIsMul(pa / PAGE_SIZE, 12);
      OrDisjoint(pa / PAGE_SIZE, 12, perm);
      OrOne(pa + perm);
      EntryFields(pa, perm);
    }
  }

  lemma BelowTop(pa: Word, e: nat)
    requires e / PAGE_SIZE == pa / PAGE_SIZE
    ensures e < TWO32
  {
  }

  lemma EntryFields(pa: Word, perm: nat)
    requires pa % PAGE_SIZE == 0 && perm < PAGE_SIZE
    ensures var e := pa + perm / 2 * 2 + 1;
            e < TWO32 && e / PAGE_SIZE * PAGE_SIZE == pa && e % 2 == 1 && e % PAGE_SIZE == perm / 2 * 2 + 1
  {
    var p, h := pa / PAGE_SIZE, perm / 2;
    assert pa == p * PAGE_SIZE && p < PAGES && h < 2048;
    var e := p * PAGE_SIZE + (h * 2 + 1);
    DivUnique(e, PAGE_SIZE, p, h * 2 + 1);
    DivUnique(e, 2, p * 2048 + h, 1);
  }

  lemma OrOne(x: nat)
    ensures Or(x, 1) == x / 2 * 2 + 1
  {
    OrZero(x / 2);
  }

  // ----- physical and kernel virtual addresses

  // _paddr: the subtraction wraps, so its test for a negative result never fires.
  function Paddr(kva: Word): Word {
    (kva - KERNEL_BASE_ADDRESS) % TWO32
  }
}
