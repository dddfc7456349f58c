/** Linear addresses and page table words (inc/mmu.h).

    Addresses and table words are natural numbers; a right shift is a division
    by a power of two, a low mask a remainder, and an OR of fields that do not
    overlap a sum.
 */
module Mmu {

  const PGSIZE: nat := 4096
  const PTSIZE: nat := 4194304
  const NENTRIES: nat := 1024
  const ADDRESSES: nat := 0x1_0000_0000
  const UTOP: nat := 0xeec0_0000        // user addresses lie below
  const UVPT: nat := 0xef40_0000        // the page tables, for users to read
  const VPT: nat := 0xefc0_0000         // and for the kernel

  const PTE_P: nat := 1
  const PTE_W: nat := 2
  const PTE_U: nat := 4
  const PTE_COW: nat := 0x800

  function PDX(la: nat): nat { la / PTSIZE % NENTRIES }
  function PTX(la: nat): nat { la / PGSIZE % NENTRIES }
  function PGOFF(la: nat): nat { la % PGSIZE }
  function VPN(la: nat): nat { la / PGSIZE }
  function PGADDR(d: nat, t: nat, o: nat): nat { d * PTSIZE + t * PGSIZE + o }

  /** Users have the addresses below UTOP; above them come two tables for the
      kernel's data, the page tables as users and as the kernel see them, each at the
      start of a table of its own, and then physical memory. */
  lemma MemoryMap()
    ensures PTSIZE == NENTRIES * PGSIZE && ADDRESSES == NENTRIES * PTSIZE && PGSIZE == 4 * NENTRIES
    ensures UTOP % PTSIZE == 0 && UVPT == UTOP + 2 * PTSIZE && VPT == UVPT + 2 * PTSIZE
    ensures VPT + PTSIZE == 0xf000_0000 && PTE_P == 1 && PTE_W == 2 * PTE_P && PTE_U == 2 * PTE_W
  {
  }

  /** Splitting an address and putting it together again are inverse, in both
      directions; the page number is the pair of table indices. */
  lemma AddressSplit(la: nat)
    requires la < ADDRESSES
    ensures PGADDR(PDX(la), PTX(la), PGOFF(la)) == la
    ensures VPN(la) == PDX(la) * NENTRIES + PTX(la)
  {
    assert la / PTSIZE == la / PGSIZE / NENTRIES;
  }

  lemma AddressJoin(d: nat, t: nat, o: nat)
    requires d < NENTRIES && t < NENTRIES && o < PGSIZE
    ensures PGADDR(d, t, o) < ADDRESSES
    ensures PDX(PGADDR(d, t, o)) == d && PTX(PGADDR(d, t, o)) == t && PGOFF(PGADDR(d, t, o)) == o
  {
    var la := PGADDR(d, t, o);
    assert la / PGSIZE == d * NENTRIES + t;
    assert la / PTSIZE == d;
  }

  // ---- Table words ----

  datatype Entry = Entry(ppn: nat, perm: nat)

  predicate Present(w: nat) { w % 2 == 1 }
  predicate Writable(perm: nat) { perm / PTE_W % 2 == 1 }
  predicate User(perm: nat) { perm / PTE_U % 2 == 1 }
  predicate Cow(perm: nat) { perm / PTE_COW % 2 == 1 }

  /** `perm | PTE_P`. */
  function WithPresent(perm: nat): nat { if Present(perm) then perm else perm + 1 }

  /** `page2pa(pp) | perm | PTE_P`. */
  function MakePte(ppn: nat, perm: nat): nat { ppn * PGSIZE + WithPresent(perm) }

  /** PTE_ADDR (as a page number) and the flag bits. */
  function Decode(w: nat): Entry { Entry(w / PGSIZE, w % PGSIZE) }

  lemma PteRoundTrip(ppn: nat, perm: nat)
    requires perm < PGSIZE
    ensures Present(MakePte(ppn, perm))
    ensures Decode(MakePte(ppn, perm)) == Entry(ppn, WithPresent(perm))
  {
    var w := MakePte(ppn, perm);
    assert WithPresent(perm) < PGSIZE;
    assert w / PGSIZE == ppn && w % PGSIZE == WithPresent(perm);
    assert w % 2 == WithPresent(perm) % 2;
  }

  /** The checks `perm & PTE_U`, `perm & PTE_P` and `(perm | PTE_USER) == PTE_USER`
      of the page system calls; PTE_USER is 0xE07. */
  predicate UserPerm(perm: nat) {
    User(perm) && Present(perm) && perm < PGSIZE && perm / 8 % 64 == 0
  }

  /** Which bit of a permission each flag is: bits 0, 1, 2 and 11. */
  lemma PermissionBits(p: nat, w: nat, u: nat, others: nat, c: nat)
    requires p < 2 && w < 2 && u < 2 && others < 256 && c < 2
    ensures var perm := p + 2 * w + 4 * u + 8 * others + 0x800 * c;
            && (Present(perm) <==> p == 1) && (Writable(perm) <==> w == 1)
            && (User(perm) <==> u == 1) && (Cow(perm) <==> c == 1)
            && WithPresent(perm) == 1 + 2 * w + 4 * u + 8 * others + 0x800 * c
  {
  }

  /** The page system calls take the sixteen permissions made of PTE_P, PTE_U, PTE_W
      or not, and the three bits left to users. */
  lemma UserPermExactly(perm: nat)
    ensures UserPerm(perm) <==> exists free: nat :: free < 8 && (perm == 5 + 0x200 * free || perm == 7 + 0x200 * free)
    ensures UserPerm(perm) ==> (Writable(perm) <==> perm % 0x200 == 7)
  {
    if UserPerm(perm) {
      UserPermIs(perm);
    } else if exists free: nat :: free < 8 && (perm == 5 + 0x200 * free || perm == 7 + 0x200 * free) {
      UserPermHas(perm);
    }
  }

  lemma UserPermIs(perm: nat)
    requires UserPerm(perm)
    ensures var free := perm / 0x200; free < 8 && (perm == 5 + 0x200 * free || perm == 7 + 0x200 * free)
  {
    assert perm == perm % 8 + 8 * (perm / 8 % 64) + 0x200 * (perm / 0x200);
  }

  lemma UserPermHas(perm: nat)
    requires exists free: nat :: free < 8 && (perm == 5 + 0x200 * free || perm == 7 + 0x200 * free)
    ensures UserPerm(perm)
  {
    var free: nat :| free < 8 && (perm == 5 + 0x200 * free || perm == 7 + 0x200 * free);
    assert perm / 8 == 64 * free;
  }
}
