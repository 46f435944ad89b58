/** What the kernel's paging code relies on: the four tables paging_init built stay linked under
    entry 511 of every root in use, they are reachable through the kernel's linear map, and the
    TLB holds no outdated translation of the pages the kernel touches. */
module KernelSpace {
  import opened Words
  import opened PageTables

  /** The frames of the kernel's root, PDPT, PD and PT. */
  datatype Kernel = Kernel(root: nat, pdpt: nat, pd: nat, pt: nat)

  /** TEMP_PAGE: the one page through which every table below a root is accessed. */
  const WINDOW: Page := Page(511, 510, 0, 511)

  /** The page at KERNEL_BASE + t * PAGE_SIZE. */
  function LinearPage(t: Index): Page { Page(511, 510, 0, t) }

  type Tlb = map<Page, nat>

  /** Root r reaches the kernel's page table. */
  ghost predicate Chain(m: Memory, k: Kernel, r: nat) {
    && r in m && r != k.pt && MapsTo(m[r][511], k.pdpt)
    && k.pdpt in m && k.pdpt != k.pt && MapsTo(m[k.pdpt][510], k.pd)
    && k.pd in m && k.pd != k.pt && MapsTo(m[k.pd][0], k.pt)
    && k.pt in m
  }

  predicate IsKernelTable(k: Kernel, t: nat) { t == k.root || t == k.pdpt || t == k.pd || t == k.pt }

  /** The pages the kernel must keep as they are: its four tables and the window. */
  predicate Protected(k: Kernel, p: Page) {
    p == WINDOW || (p == LinearPage(p.i1) && IsKernelTable(k, p.i1))
  }

  ghost predicate KernelMap(m: Memory, k: Kernel) {
    && Chain(m, k, k.root)
    && k.root < 511 && k.pdpt < 511 && k.pd < 511 && k.pt < 511
    && (forall t: Index :: IsKernelTable(k, t) ==> MapsTo(m[k.pt][t], t))
    && Present(m[k.pt][511])
  }

  /** The invariant of the page tables, for the root loaded in cr3. */
  ghost predicate MapInv(m: Memory, ls: Labels, k: Kernel, cr3: nat) {
    && TablesOk(m, ls)
    && IsRoot(ls, k.root) && IsRoot(ls, cr3)
    && KernelMap(m, k) && Chain(m, k, cr3)
  }

  /** Every cached translation, stale pages aside, is the one in the current tables. */
  ghost predicate Coherent(m: Memory, cr3: nat, tlb: Tlb, stale: set<Page>) {
    forall p :: p in tlb && p !in stale ==> MapsTo(Entry(m, cr3, p), tlb[p])
  }

  /** Enough for the kernel to reach its tables and the window: it holds even while a table is
      linked but not yet zeroed. */
  ghost predicate Ready(m: Memory, k: Kernel, cr3: nat, tlb: Tlb) {
    && KernelMap(m, k) && Chain(m, k, cr3)
    && (forall p :: p in tlb && Protected(k, p) ==> MapsTo(m[k.pt][p.i1], tlb[p]))
  }

  /** The TLB gained no translation except for protected pages. */
  ghost predicate CacheFrom(tlb': Tlb, tlb: Tlb, k: Kernel) {
    forall p :: p in tlb' && !Protected(k, p) ==> p in tlb && tlb'[p] == tlb[p]
  }

  lemma KernelLabels(m: Memory, ls: Labels, k: Kernel)
    requires TablesOk(m, ls) && IsRoot(ls, k.root) && KernelMap(m, k)
    ensures k.pdpt in ls && ls[k.pdpt] == L3(511)
    ensures k.pd in ls && ls[k.pd] == L2(511, 510)
    ensures k.pt in ls && ls[k.pt] == L1(511, 510, 0)
  {
  }

  /** Under any root with the chain, the linear map and the window are read off the kernel's PT. */
  lemma ChainEntry(m: Memory, k: Kernel, r: nat, p: Page)
    requires Chain(m, k, r) && p.i4 == 511 && p.i3 == 510 && p.i2 == 0
    ensures Table1(m, r, p) == Some(k.pt) && Entry(m, r, p) == m[k.pt][p.i1]
  {
  }

  lemma ReadyFrom(m: Memory, ls: Labels, k: Kernel, cr3: nat, tlb: Tlb, stale: set<Page>)
    requires MapInv(m, ls, k, cr3) && Coherent(m, cr3, tlb, stale)
    requires forall p :: p in stale ==> !Protected(k, p)
    ensures Ready(m, k, cr3, tlb)
  {
    forall p | p in tlb && Protected(k, p) ensures MapsTo(m[k.pt][p.i1], tlb[p]) {
      ChainEntry(m, k, cr3, p);
    }
  }

  lemma CoherentFrom(m: Memory, m': Memory, ls: Labels, k: Kernel, cr3: nat, tlb: Tlb, tlb': Tlb, stale: set<Page>)
    requires IsRoot(ls, cr3) && SameEntries(m, m', ls, {WINDOW})
    requires Coherent(m, cr3, tlb, stale) && CacheFrom(tlb', tlb, k) && Ready(m', k, cr3, tlb')
    ensures Coherent(m', cr3, tlb', stale)
  {
    forall p | p in tlb' && p !in stale ensures MapsTo(Entry(m', cr3, p), tlb'[p]) {
      if Protected(k, p) { ChainEntry(m', k, cr3, p); }
    }
  }

  /** Storing an entry of an unprotected page keeps the tables. */
  lemma LeafKeepsMap(m: Memory, ls: Labels, k: Kernel, cr3: nat, f: nat, p: Page, w: Word)
    requires MapInv(m, ls, k, cr3)
    requires f in ls && ls[f] == L1(p.i4, p.i3, p.i2) && !Protected(k, p)
    ensures MapInv(Put(m, f, p.i1, w), ls, k, cr3)
  {
    KernelLabels(m, ls, k);
    LeafWrite(m, ls, f, p.i1, w);
  }

  /** Retargeting the window keeps the tables and changes the window's entry only. */
  lemma WindowKeepsMap(m: Memory, ls: Labels, k: Kernel, cr3: nat, w: Word)
    requires MapInv(m, ls, k, cr3) && Present(w)
    ensures MapInv(Put(m, k.pt, 511, w), ls, k, cr3)
    ensures SameEntries(m, Put(m, k.pt, 511, w), ls, {WINDOW})
    ensures KeepsTables(m, Put(m, k.pt, 511, w), ls)
  {
    KernelLabels(m, ls, k);
    LeafWrite(m, ls, k.pt, 511, w);
  }

  lemma LinkKeepsMap(m: Memory, m': Memory, ls: Labels, k: Kernel, cr3: nat, f: nat, i: Index, c: nat)
    requires MapInv(m, ls, k, cr3) && Linked(m, m', ls, f, i, c)
    ensures MapInv(m', ls[c := Child(ls[f], i)], k, cr3)
  {
    KernelLabels(m, ls, k);
    LinkKeepsTrees(m, m', ls, f, i, c);
  }

  /** Storing a link under an absent entry leaves the window usable, whatever the new table holds. */
  lemma StoreKeepsReady(m: Memory, ls: Labels, k: Kernel, cr3: nat, tlb: Tlb, f: nat, i: Index, w: Word)
    requires MapInv(m, ls, k, cr3) && Ready(m, k, cr3, tlb)
    requires f in ls && !ls[f].L1? && !Present(m[f][i])
    ensures Ready(Put(m, f, i, w), k, cr3, tlb)
  {
    KernelLabels(m, ls, k);
  }
}
