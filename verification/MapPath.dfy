/** What map_page does to memory level by level, stated on memories and proved from the tree of
    page tables; the methods of vmm.c are proved against these. */
module MapPath {
  import opened Words
  import opened Pool
  import opened PageTables
  import opened KernelSpace
  import opened Addresses

  /** The MMU, with page p translating to frame f. */
  ghost predicate Reaches(m: Memory, cr3: nat, tlb: Tlb, p: Page, f: nat) {
    MapsTo(Entry(m, cr3, p), f) && f in m && (p in tlb ==> tlb[p] == f)
  }

  ghost predicate FilledFrom(tlb': Tlb, tlb: Tlb, p: Page, f: nat) {
    forall q :: q in tlb' ==> (q in tlb && tlb'[q] == tlb[q]) || (q == p && tlb'[q] == f)
  }

  /** Tables are in use, and every free frame is RAM the kernel can address. */
  ghost predicate FramesOk(m: Memory, ls: Labels, free: set<nat>) {
    && (forall f :: f in ls ==> f !in free)
    && (forall f :: f in free ==> f in m && 512 <= f < TWO_40)
  }

  lemma LinearReaches(m: Memory, k: Kernel, cr3: nat, tlb: Tlb, va: Word, t: nat)
    requires Ready(m, k, cr3, tlb) && IsKernelTable(k, t) && va == Linear(t)
    ensures PageOf(va) == LinearPage(t) && Protected(k, PageOf(va)) && t in m
    ensures Reaches(m, cr3, tlb, PageOf(va), t)
  {
    LinearAddress(t);
    ChainEntry(m, k, cr3, LinearPage(t));
  }

  lemma WindowReaches(m: Memory, k: Kernel, cr3: nat, tlb: Tlb, f: nat)
    requires Ready(m, k, cr3, tlb) && MapsTo(m[k.pt][511], f) && f in m
    ensures PageOf(TEMP_PAGE) == WINDOW && Protected(k, WINDOW)
    ensures Reaches(m, cr3, tlb, WINDOW, f)
  {
    LinearAddress(0);
    ChainEntry(m, k, cr3, WINDOW);
  }

  /** The window's entry may change as long as its cached translation is dropped. */
  lemma WindowReady(m: Memory, k: Kernel, cr3: nat, tlb: Tlb, tlb': Tlb, w: Word)
    requires Ready(m, k, cr3, tlb) && Present(w) && FilledFrom(tlb', tlb, LinearPage(k.pt), k.pt)
    ensures Ready(Put(m, k.pt, 511, w), k, cr3, tlb' - {WINDOW})
    ensures CacheFrom(tlb' - {WINDOW}, tlb, k)
  {
  }

  /** The index page p takes out of a table on its path. */
  function IndexAt(t: Path, p: Page): Index {
    match t case Root => p.i4 case L3(_) => p.i3 case L2(_, _) => p.i2 case L1(_, _, _) => p.i1
  }

  function Depth(p: Path): nat {
    match p case Root => 3 case L3(_) => 2 case L2(_, _) => 1 case L1(_, _, _) => 0
  }

  /** The table on the walk to p that is `level` steps above the page table. */
  function TableAt(m: Memory, r: nat, p: Page, level: nat): Option<nat>
    requires level <= 3
  {
    if level == 3 then Some(r) else if level == 2 then Table3(m, r, p) else if level == 1 then Table2(m, r, p) else Table1(m, r, p)
  }

  lemma LevelLabel(m: Memory, ls: Labels, r: nat, p: Page, level: nat)
    requires TablesOk(m, ls) && IsRoot(ls, r) && level <= 3 && TableAt(m, r, p, level).Some?
    ensures var t := TableAt(m, r, p, level).value;
            && t in ls && Depth(ls[t]) == level
            && IndexAt(ls[t], p) == (if level == 3 then p.i4 else if level == 2 then p.i3 else if level == 1 then p.i2 else p.i1)
  {
    WalkLabels(m, ls, r, p);
  }

  /** The number of tables missing below table f on the way to page p; f is `level` steps above
      the page table, so its index is i4 at level 3, i3 at 2 and i2 at 1. */
  function Missing(m: Memory, f: nat, p: Page, level: nat): (n: nat)
    requires 1 <= level <= 3
    ensures n <= level
    decreases level, p
  {
    var i := if level == 3 then p.i4 else if level == 2 then p.i3 else p.i2;
    if f !in m || !Present(m[f][i]) then level
    else if level == 1 then 0
    else Missing(m, Target(m[f][i]), p, level - 1)
  }

  /** That is, one for each of the three tables the walk does not find. */
  lemma MissingIsNotFound(m: Memory, ls: Labels, r: nat, p: Page)
    requires TablesOk(m, ls) && IsRoot(ls, r)
    ensures Missing(m, r, p, 3) == (if Table3(m, r, p).Some? then 0 else 1) + (if Table2(m, r, p).Some? then 0 else 1)
                                   + (if Table1(m, r, p).Some? then 0 else 1)
  {
    WalkLabels(m, ls, r, p);
    if Table3(m, r, p).Some? {
      var t := Table3(m, r, p).value;
      assert Missing(m, r, p, 3) == Missing(m, t, p, 2);
      if Table2(m, r, p).Some? { assert Missing(m, t, p, 2) == Missing(m, Table2(m, r, p).value, p, 1); }
    }
  }

  /** Only the tables above the page tables decide what is missing. */
  lemma MissingSame(m: Memory, m': Memory, ls: Labels, k: Kernel, x: nat, f: nat, p: Page, level: nat)
    requires TablesOk(m, ls) && f in ls && k.pt in ls && ls[k.pt].L1?
    requires m'.Keys == m.Keys && forall g :: g in ls && g != k.pt && g != x ==> m'[g] == m[g]
    requires 1 <= level <= 3 && Depth(ls[f]) == level
    requires x in ls && Depth(ls[x]) > level
    ensures Missing(m', f, p, level) == Missing(m, f, p, level)
    decreases level, p
  {
    var i := if level == 3 then p.i4 else if level == 2 then p.i3 else p.i2;
    if Present(m[f][i]) && level > 1 {
      MissingSame(m, m', ls, k, x, Target(m[f][i]), p, level - 1);
    }
  }

  /** What reaching the table under entry i of table f did: nothing but the window moved when the
      entry was present, otherwise the lowest free frame was zeroed and linked there. */
  ghost predicate Opened(m: Memory, ls: Labels, free: set<nat>, m': Memory, ls': Labels, free': set<nat>,
                         k: Kernel, f: nat, i: Index)
    requires f in ls && !ls[f].L1?
  {
    && m'.Keys == m.Keys && f in m && k.pt in m
    && SameEntries(m, m', ls, {WINDOW}) && KeepsTables(m, m', ls)
    && Present(m'[f][i])
    && var c := Target(m'[f][i]);
    && MapsTo(m'[k.pt][511], c)
    && c in m && c in ls' && ls'[c] == Child(ls[f], i)
    && (if Present(m[f][i]) then ls' == ls && free' == free && m'[f][i] == m[f][i]
        else c in free && (forall q :: q in free ==> c <= q)
             && ls' == ls[c := Child(ls[f], i)] && free' == free - {c} && m'[c] == ZeroTable())
    && (forall g :: g in m && g != f && g != k.pt && (g in ls || g !in ls') ==> m'[g] == m[g])
    && (forall j: Index :: j != i ==> m'[f][j] == m[f][j])
    && (forall j: Index :: j != 511 ==> m'[k.pt][j] == m[k.pt][j])
  }

  /** Opening one table accounts for exactly one missing level. */
  lemma MissingStep(m: Memory, ls: Labels, free: set<nat>, m': Memory, ls': Labels, free': set<nat>,
                    k: Kernel, f: nat, i: Index, p: Page, level: nat)
    requires TablesOk(m, ls) && f in ls && !ls[f].L1? && k.pt in ls && ls[k.pt].L1?
    requires Opened(m, ls, free, m', ls', free', k, f, i)
    requires 1 <= level <= 3 && Depth(ls[f]) == level
    requires i == if level == 3 then p.i4 else if level == 2 then p.i3 else p.i2
    ensures |free| - |free'| == if Present(m[f][i]) then 0 else 1
    ensures |free| - |free'| + (if level == 1 then 0 else Missing(m', Target(m'[f][i]), p, level - 1)) == Missing(m, f, p, level)
  {
    if Present(m[f][i]) && level > 1 {
      MissingSame(m, m', ls, k, f, Target(m[f][i]), p, level - 1);
    }
  }

  lemma OpenPresent(m: Memory, ls: Labels, free: set<nat>, m': Memory, k: Kernel, cr3: nat, f: nat, i: Index, x: Word)
    requires MapInv(m, ls, k, cr3) && FramesOk(m, ls, free)
    requires f in ls && !ls[f].L1? && Present(m[f][i])
    requires MapsTo(x, Target(m[f][i])) && m' == Put(m, k.pt, 511, x)
    ensures MapInv(m', ls, k, cr3) && FramesOk(m', ls, free)
    ensures Opened(m, ls, free, m', ls, free, k, f, i)
  {
    WindowKeepsMap(m, ls, k, cr3, x);
    KernelLabels(m, ls, k);
  }

  lemma OpenAbsent(m: Memory, ls: Labels, free: set<nat>, k: Kernel, cr3: nat, f: nat, i: Index,
                   c: nat, w: Word, x: Word)
    requires MapInv(m, ls, k, cr3) && FramesOk(m, ls, free)
    requires f in ls && !ls[f].L1? && !Present(m[f][i])
    requires c in free && (forall q :: q in free ==> c <= q) && MapsTo(w, c) && MapsTo(x, c)
    ensures !IsKernelTable(k, c) && c != cr3 && k.pt in m && c in m
    ensures var m' := Put(Put(m, f, i, w), k.pt, 511, x)[c := ZeroTable()];
            && MapInv(m', ls[c := Child(ls[f], i)], k, cr3)
            && FramesOk(m', ls[c := Child(ls[f], i)], free - {c})
            && Opened(m, ls, free, m', ls[c := Child(ls[f], i)], free - {c}, k, f, i)
            && m'[f][i] == w
  {
    var m' := Put(Put(m, f, i, w), k.pt, 511, x)[c := ZeroTable()];
    var m1 := Put(m, k.pt, 511, x);
    KernelLabels(m, ls, k);
    WindowKeepsMap(m, ls, k, cr3, x);
    assert Linked(m1, m', ls, f, i, c);
    LinkKeepsMap(m1, m', ls, k, cr3, f, i, c);
    LinkKeepsEntries(m1, m', ls, f, i, c);
  }

  lemma OpenedCoherent(m: Memory, ls: Labels, free: set<nat>, m': Memory, ls': Labels, free': set<nat>,
                       k: Kernel, cr3: nat, f: nat, i: Index, tlb: Tlb, tlb': Tlb, stale: set<Page>)
    requires f in ls && !ls[f].L1? && Opened(m, ls, free, m', ls', free', k, f, i) && IsRoot(ls, cr3)
    requires Coherent(m, cr3, tlb, stale) && CacheFrom(tlb', tlb, k) && Ready(m', k, cr3, tlb')
    ensures Coherent(m', cr3, tlb', stale)
  {
    CoherentFrom(m, m', ls, k, cr3, tlb, tlb', stale);
  }

  lemma LinkReady(m: Memory, ls: Labels, k: Kernel, cr3: nat, tlb: Tlb, tlb': Tlb, stale: set<Page>,
                  p: Page, f: nat, i: Index, w: Word)
    requires MapInv(m, ls, k, cr3) && Coherent(m, cr3, tlb, stale)
    requires forall p :: p in stale ==> !Protected(k, p)
    requires f in ls && !ls[f].L1? && !Present(m[f][i])
    requires FilledFrom(tlb', tlb, p, f) && MapsTo(Entry(m, cr3, p), f)
    ensures Coherent(m, cr3, tlb', stale) && Ready(Put(m, f, i, w), k, cr3, tlb')
  {
    ReadyFrom(m, ls, k, cr3, tlb', stale);
    StoreKeepsReady(m, ls, k, cr3, tlb', f, i, w);
  }

  // ---------------------------------------------------------------- links between tables

  /** An entry of a table above the page tables is what it was, or, where none was present, the
      address of a new table with the flags and the present bit. */
  ghost predicate LinkOf(w': Word, w: Word, flags: Word) {
    w' == w || (!Present(w) && Present(w') && w' == Or(Or(Target(w') * PAGE_SIZE, flags), 1))
  }

  /** The entry before; new tables were empty. */
  function OldWord(m: Memory, ls: Labels, g: nat, j: Index): Word { if g in ls && g in m then m[g][j] else 0 }

  /** All links are as before or new. */
  ghost predicate LinksKept(m: Memory, ls: Labels, m': Memory, ls': Labels, flags: Word) {
    forall g, j: Index :: g in ls' && !ls'[g].L1? && g in m' ==> LinkOf(m'[g][j], OldWord(m, ls, g, j), flags)
  }

  ghost predicate LabelsGrow(m: Memory, ls: Labels, ls': Labels) {
    forall g :: g in ls ==> g in m && g in ls' && ls'[g] == ls[g]
  }

  lemma OpenedLinks(m: Memory, ls: Labels, free: set<nat>, m': Memory, ls': Labels, free': set<nat>,
                    k: Kernel, f: nat, i: Index, flags: Word)
    requires TablesOk(m, ls) && f in ls && !ls[f].L1? && k.pt in ls && ls[k.pt].L1?
    requires Opened(m, ls, free, m', ls', free', k, f, i) && LinkOf(m'[f][i], m[f][i], flags)
    requires forall g :: g in free ==> g !in ls
    ensures LinksKept(m, ls, m', ls', flags) && LabelsGrow(m, ls, ls')
  {
    forall g, j: Index | g in ls' && !ls'[g].L1? && g in m' ensures LinkOf(m'[g][j], OldWord(m, ls, g, j), flags) {
      if g in ls {
        if g != f { assert m'[g] == m[g]; }
      } else {
        assert m'[g] == ZeroTable();
      }
    }
  }

  lemma LinksTwice(m: Memory, ls: Labels, m1: Memory, ls1: Labels, m2: Memory, ls2: Labels, flags: Word)
    requires LinksKept(m, ls, m1, ls1, flags) && LinksKept(m1, ls1, m2, ls2, flags)
    requires LabelsGrow(m, ls, ls1) && LabelsGrow(m1, ls1, ls2)
    ensures LinksKept(m, ls, m2, ls2, flags) && LabelsGrow(m, ls, ls2)
  {
    forall g, j: Index | g in ls2 && !ls2[g].L1? && g in m2 ensures LinkOf(m2[g][j], OldWord(m, ls, g, j), flags) {
      assert LinkOf(m2[g][j], OldWord(m1, ls1, g, j), flags);
      if g in ls1 { assert LinkOf(m1[g][j], OldWord(m, ls, g, j), flags); }
    }
  }

  lemma LinksSame(m: Memory, ls: Labels, flags: Word)
    requires TablesOk(m, ls)
    ensures LinksKept(m, ls, m, ls, flags) && LabelsGrow(m, ls, ls)
  {
  }

  /** Storing a page's entry touches no link. */
  lemma LeafLinks(m: Memory, ls: Labels, m1: Memory, ls1: Labels, f: nat, i: Index, w: Word, flags: Word)
    requires LinksKept(m, ls, m1, ls1, flags) && f in m1 && f in ls1 && ls1[f].L1?
    ensures LinksKept(m, ls, Put(m1, f, i, w), ls1, flags)
  {
    forall g, j: Index | g in ls1 && !ls1[g].L1? && g in m1 ensures LinkOf(Put(m1, f, i, w)[g][j], OldWord(m, ls, g, j), flags) {
      assert LinkOf(m1[g][j], OldWord(m, ls, g, j), flags);
    }
  }

  // ---------------------------------------------------------------- the words map_page writes

  /** Entry j of table f is the one a walk to p uses. */
  predicate OnWalk(m: Memory, r: nat, p: Page, f: nat, j: Index) {
    || (f == r && j == p.i4)
    || (Table3(m, r, p) == Some(f) && j == p.i3)
    || (Table2(m, r, p) == Some(f) && j == p.i2)
    || (Table1(m, r, p) == Some(f) && j == p.i1)
  }

  /** In all of memory only new tables, entries on the walk to p, and the window's entry differ; tables
      found before are found where they were. */
  ghost predicate WalkOnly(m: Memory, ls: Labels, m': Memory, ls': Labels, k: Kernel, r: nat, p: Page) {
    && m'.Keys == m.Keys && KeepsTables(m, m', ls)
    && (forall f :: f in ls ==> f in ls' && ls'[f] == ls[f])
    && (forall f, j: Index :: f in m && (f in ls || f !in ls') && !OnWalk(m', r, p, f, j) && !(f == k.pt && j == 511) ==> m'[f][j] == m[f][j])
  }

  lemma WalkOnlyTwice(m: Memory, ls: Labels, m1: Memory, ls1: Labels, m2: Memory, ls2: Labels, k: Kernel, r: nat, p: Page)
    requires WalkOnly(m, ls, m1, ls1, k, r, p) && WalkOnly(m1, ls1, m2, ls2, k, r, p) && IsRoot(ls, r)
    ensures WalkOnly(m, ls, m2, ls2, k, r, p)
  {
    assert IsRoot(ls1, r);
    forall f, j: Index | f in m && (f in ls || f !in ls2) && !OnWalk(m2, r, p, f, j) && !(f == k.pt && j == 511)
      ensures m2[f][j] == m[f][j]
    {
      assert !OnWalk(m1, r, p, f, j);
    }
  }

  lemma WalkOnlySame(m: Memory, ls: Labels, k: Kernel, r: nat, p: Page)
    ensures WalkOnly(m, ls, m, ls, k, r, p)
  {
  }

  lemma OpenedWalkOnly(m: Memory, ls: Labels, free: set<nat>, m': Memory, ls': Labels, free': set<nat>,
                       k: Kernel, r: nat, f: nat, p: Page, level: nat)
    requires IsRoot(ls, r) && 1 <= level <= 3 && TableAt(m, r, p, level) == Some(f) && f in ls && !ls[f].L1?
    requires var i := if level == 3 then p.i4 else if level == 2 then p.i3 else p.i2;
             Opened(m, ls, free, m', ls', free', k, f, i)
    requires forall g :: g in free ==> g !in ls
    ensures WalkOnly(m, ls, m', ls', k, r, p)
  {
    forall g, j: Index | g in m && (g in ls || g !in ls') && !OnWalk(m', r, p, g, j) && !(g == k.pt && j == 511)
      ensures m'[g][j] == m[g][j]
    {
      if g != f && g != k.pt { assert m'[g] == m[g]; }
    }
  }

  /** Storing the page's own entry. */
  lemma LeafWalkOnly(m: Memory, ls: Labels, m1: Memory, ls1: Labels, k: Kernel, r: nat, p: Page, f: nat, w: Word)
    requires WalkOnly(m, ls, m1, ls1, k, r, p) && TablesOk(m1, ls1) && IsRoot(ls, r) && IsRoot(ls1, r) && Table1(m1, r, p) == Some(f)
    ensures f in m1 && WalkOnly(m, ls, Put(m1, f, p.i1, w), ls1, k, r, p)
  {
    WalkLabels(m1, ls1, r, p);
    LeafWrite(m1, ls1, f, p.i1, w);
    var m2 := Put(m1, f, p.i1, w);
    forall g, j: Index | g in m && (g in ls || g !in ls1) && !OnWalk(m2, r, p, g, j) && !(g == k.pt && j == 511)
      ensures m2[g][j] == m[g][j]
    {
      assert !OnWalk(m1, r, p, g, j) && !(g == f && j == p.i1);
    }
  }

  /** What a part of map_page above the page table leaves: the same address spaces outside the
      window, old tables where they were, and new tables that are the frames taken, empty except
      on the way to page p. */
  ghost predicate Extended(m: Memory, ls: Labels, free: set<nat>, m': Memory, ls': Labels, free': set<nat>, p: Page) {
    && m'.Keys == m.Keys
    && SameEntries(m, m', ls, {WINDOW}) && KeepsTables(m, m', ls)
    && free' <= free
    && (forall f :: f in ls' <==> f in ls || (f in free && f !in free'))
    && (forall f :: f in ls ==> ls'[f] == ls[f])
    && (forall f :: f in m && f !in ls' ==> m'[f] == m[f])
    && (forall f, j: Index :: f in ls' && f !in ls && f in m' && !ls'[f].L1? && j != IndexAt(ls'[f], p) ==> m'[f][j] == 0)
    && (forall f :: f in ls' && f !in ls && f in m' && ls'[f].L1? ==> m'[f] == ZeroTable())
  }

  lemma ExtendedStep(m0: Memory, ls0: Labels, free0: set<nat>, m1: Memory, ls1: Labels, free1: set<nat>,
                     m2: Memory, ls2: Labels, free2: set<nat>, k: Kernel, f: nat, p: Page)
    requires Extended(m0, ls0, free0, m1, ls1, free1, p)
    requires f in ls1 && !ls1[f].L1? && Opened(m1, ls1, free1, m2, ls2, free2, k, f, IndexAt(ls1[f], p))
    requires k.pt in ls0 && (forall g :: g in free0 ==> g !in ls0 && g in m0) && TablesOk(m1, ls1) && TablesOk(m2, ls2)
    ensures Extended(m0, ls0, free0, m2, ls2, free2, p)
  {
  }

  lemma LevelTable(m: Memory, ls: Labels, k: Kernel, r: nat, p: Page, level: nat)
    requires TablesOk(m, ls) && IsRoot(ls, k.root) && KernelMap(m, k)
    requires IsRoot(ls, r) && 1 <= level <= 3 && TableAt(m, r, p, level).Some?
    ensures var f := TableAt(m, r, p, level).value;
            f in m && f in ls && !ls[f].L1? && k.pt in ls && ls[k.pt].L1?
  {
    LevelLabel(m, ls, r, p, level);
    KernelLabels(m, ls, k);
  }

  /** One opened level on the way to p: what it adds to the state at m0, and the table it leads to. */
  lemma LevelOpened(m0: Memory, ls0: Labels, free0: set<nat>, m1: Memory, ls1: Labels, free1: set<nat>,
                    m2: Memory, ls2: Labels, free2: set<nat>, k: Kernel, r: nat, f: nat, p: Page, level: nat, flags: Word)
    requires Extended(m0, ls0, free0, m1, ls1, free1, p) && TablesOk(m1, ls1) && TablesOk(m2, ls2)
    requires k.pt in ls0 && (forall g :: g in free0 ==> g !in ls0 && g in m0)
    requires IsRoot(ls1, r) && 1 <= level <= 3 && TableAt(m1, r, p, level) == Some(f)
    requires f in ls1 && !ls1[f].L1? && k.pt in ls1 && ls1[k.pt].L1? && (forall g :: g in free1 ==> g !in ls1)
    requires var i := if level == 3 then p.i4 else if level == 2 then p.i3 else p.i2;
             Opened(m1, ls1, free1, m2, ls2, free2, k, f, i) && LinkOf(m2[f][i], m1[f][i], flags)
    ensures IsRoot(ls2, r) && Extended(m0, ls0, free0, m2, ls2, free2, p)
    ensures LinksKept(m1, ls1, m2, ls2, flags) && LabelsGrow(m1, ls1, ls2)
    ensures WalkOnly(m1, ls1, m2, ls2, k, r, p)
    ensures var t := TableAt(m2, r, p, level - 1);
            && t.Some? && MapsTo(m2[k.pt][511], t.value)
            && |free1| - |free2| + (if level == 1 then 0 else Missing(m2, t.value, p, level - 1)) == Missing(m1, f, p, level)
  {
    LevelLabel(m1, ls1, r, p, level);
    var i := IndexAt(ls1[f], p);
    ExtendedStep(m0, ls0, free0, m1, ls1, free1, m2, ls2, free2, k, f, p);
    MissingStep(m1, ls1, free1, m2, ls2, free2, k, f, i, p, level);
    OpenedLinks(m1, ls1, free1, m2, ls2, free2, k, f, i, flags);
    OpenedWalkOnly(m1, ls1, free1, m2, ls2, free2, k, r, f, p, level);
  }

  lemma LevelRefused(m: Memory, ls: Labels, r: nat, f: nat, p: Page, level: nat, flags: Word)
    requires TablesOk(m, ls) && IsRoot(ls, r) && 1 <= level <= 3 && TableAt(m, r, p, level) == Some(f) && f in m
    requires !Present(m[f][if level == 3 then p.i4 else if level == 2 then p.i3 else p.i2])
    ensures Missing(m, f, p, level) > 0
    ensures LinksKept(m, ls, m, ls, flags) && LabelsGrow(m, ls, ls)
  {
    LinksSame(m, ls, flags);
  }

  /** What map_page of page p leaves in every address space: no other entry changes, outside the
      window; the new tables are the frames taken, empty except on the way to p; the contents of
      all other frames stay. */
  ghost predicate Changed(m: Memory, ls: Labels, free: set<nat>, m': Memory, ls': Labels, free': set<nat>, p: Page) {
    && m'.Keys == m.Keys
    && SameEntries(m, m', ls, {WINDOW, p})
    && free' <= free
    && (forall f :: f in ls' <==> f in ls || (f in free && f !in free'))
    && (forall f :: f in ls ==> ls'[f] == ls[f])
    && (forall f :: f in m && f !in ls' ==> m'[f] == m[f])
    && (forall f, j: Index :: f in ls' && f !in ls && f in m' && j != IndexAt(ls'[f], p) ==> m'[f][j] == 0)
  }

  lemma ExtendedIsChanged(m: Memory, ls: Labels, free: set<nat>, m': Memory, ls': Labels, free': set<nat>, p: Page)
    requires Extended(m, ls, free, m', ls', free', p)
    ensures Changed(m, ls, free, m', ls', free', p)
  {
  }

  lemma ExtendedEntry(m: Memory, m': Memory, ls: Labels, p: Page, r: nat)
    requires IsRoot(ls, r) && SameEntries(m, m', ls, {WINDOW}) && p != WINDOW
    ensures Entry(m', r, p) == Entry(m, r, p)
  {
  }

  lemma ChangedFrom(m: Memory, ls: Labels, free: set<nat>, m': Memory, ls': Labels, free': set<nat>, p: Page, root: nat, w: Word)
    requires Extended(m, ls, free, m', ls', free', p) && TablesOk(m', ls') && IsRoot(ls', root) && Table1(m', root, p).Some?
    ensures var f := Table1(m', root, p).value;
            f in m' && Changed(m, ls, free, Put(m', f, p.i1, w), ls', free', p)
  {
    WalkLabels(m', ls', root, p);
    LeafWrite(m', ls', Table1(m', root, p).value, p.i1, w);
  }

  lemma LeafStored(m: Memory, ls: Labels, k: Kernel, cr3: nat, tlb: Tlb, tlb': Tlb, stale: set<Page>, stale': set<Page>,
                   f: nat, p: Page, w: Word, root: nat)
    requires MapInv(m, ls, k, cr3) && Coherent(m, cr3, tlb, stale) && !Protected(k, p)
    requires IsRoot(ls, root) && Table1(m, root, p) == Some(f)
    requires FilledFrom(tlb', tlb, WINDOW, f) && MapsTo(m[k.pt][511], f)
    requires stale' == stale + if Present(Entry(m, cr3, p)) then {p} else {}
    ensures f in m && MapInv(Put(m, f, p.i1, w), ls, k, cr3)
    ensures Coherent(Put(m, f, p.i1, w), cr3, tlb', stale')
    ensures SameEntries(m, Put(m, f, p.i1, w), ls, {p})
    ensures Entry(Put(m, f, p.i1, w), root, p) == w && Table1(Put(m, f, p.i1, w), root, p) == Some(f)
  {
    WalkLabels(m, ls, root, p);
    ChainEntry(m, k, cr3, WINDOW);
    LeafKeepsMap(m, ls, k, cr3, f, p, w);
    LeafWrite(m, ls, f, p.i1, w);
  }

  ghost predicate NonePresent(t: Table) { forall j: Index :: !Present(t[j]) }

  /** Another entry than i of the table is present. */
  ghost predicate PresentBeside(t: Table, i: Index) { exists j: Index :: j != i && Present(t[j]) }

  /** In all of memory one word was cleared, entry i of table t; only the window's entry may differ too. */
  ghost predicate OneWordCleared(m: Memory, m': Memory, k: Kernel, t: nat, i: Index) {
    && m'.Keys == m.Keys && t in m && m'[t][i] == 0
    && forall f, j: Index :: f in m && !(f == t && j == i) && !(f == k.pt && j == 511) ==> m'[f][j] == m[f][j]
  }

  lemma ClearedWord(m0: Memory, m1: Memory, ls: Labels, k: Kernel, t: nat, i: Index)
    requires WindowMoved(m0, m1, ls, k) && t in m1
    ensures OneWordCleared(m0, Put(m1, t, i, 0), k, t, i)
  {
  }

  lemma ClearedMoved(m0: Memory, m1: Memory, m2: Memory, ls: Labels, k: Kernel, t: nat, i: Index)
    requires OneWordCleared(m0, m1, k, t, i) && WindowMoved(m1, m2, ls, k) && (t == k.pt ==> i != 511)
    ensures OneWordCleared(m0, m2, k, t, i)
  {
  }

  /** Whether a cleared entry's table is empty can be told before: the window's own entry, if it is in
      that table, is present all along. */
  lemma EmptiedExactly(m0: Memory, m1: Memory, m2: Memory, ls: Labels, k: Kernel, cr3: nat, f: nat, p: Page)
    requires MapInv(m0, ls, k, cr3) && MapInv(m2, ls, k, cr3) && f in ls && ls[f] == L1(p.i4, p.i3, p.i2) && p != WINDOW
    requires OneWordCleared(m0, m1, k, f, p.i1) && WindowMoved(m1, m2, ls, k)
    ensures f in m2 && (NonePresent(m2[f]) <==> !PresentBeside(m0[f], p.i1))
  {
    if f == k.pt {
      KernelLabels(m0, ls, k);
      assert Present(m0[f][511]) && Present(m2[f][511]);
    } else {
      assert m2[f] == m1[f];
    }
  }

  /** Nothing but the window's entry differs. */
  ghost predicate WindowMoved(m: Memory, m': Memory, ls: Labels, k: Kernel) {
    && m'.Keys == m.Keys && k.pt in m
    && SameEntries(m, m', ls, {WINDOW}) && KeepsTables(m, m', ls)
    && (forall f :: f in m && f != k.pt ==> m'[f] == m[f])
    && (forall j: Index :: j != 511 ==> m'[k.pt][j] == m[k.pt][j])
  }

  lemma WindowMovedTwice(m0: Memory, m1: Memory, m2: Memory, ls: Labels, k: Kernel)
    requires WindowMoved(m0, m1, ls, k) && WindowMoved(m1, m2, ls, k)
    ensures WindowMoved(m0, m2, ls, k)
  {
  }

  lemma TablesAbovePt(m: Memory, ls: Labels, k: Kernel, r: nat, p: Page)
    requires TablesOk(m, ls) && IsRoot(ls, r) && Table1(m, r, p).Some?
    requires k.pt in ls && ls[k.pt].L1?
    ensures r in m && r != k.pt
    ensures var t := Table3(m, r, p); t.Some? && t.value in m && t.value != k.pt
    ensures var t := Table2(m, r, p); t.Some? && t.value in m && t.value != k.pt
    ensures Table1(m, r, p).value in m
    ensures Table3(m, r, p) == Some(Target(m[r][p.i4]))
    ensures Table2(m, r, p) == Some(Target(m[Table3(m, r, p).value][p.i3]))
    ensures Table1(m, r, p) == Some(Target(m[Table2(m, r, p).value][p.i2]))
  {
    WalkLabels(m, ls, r, p);
  }

  /** A frame of RAM outside the kernel's 2 MiB that is not a table. */
  ghost predicate IsDataFrame(m: Memory, ls: Labels, d: nat) { d in m && d >= 512 && d !in ls }

  ghost predicate PathIs(m: Memory, r: nat, p: Page, pdpt: Word, pd: Word, pt: Word) {
    && IsFrameAddress(pdpt) && Table3(m, r, p) == Some(pdpt / PAGE_SIZE)
    && IsFrameAddress(pd) && Table2(m, r, p) == Some(pd / PAGE_SIZE)
    && IsFrameAddress(pt) && Table1(m, r, p) == Some(pt / PAGE_SIZE)
  }

  lemma Cleared(m0: Memory, m1: Memory, ls: Labels, k: Kernel, r: nat, p: Page, pdpt: Word, pd: Word, pt: Word)
    requires TablesOk(m1, ls) && IsRoot(ls, r) && WindowMoved(m0, m1, ls, k) && PathIs(m0, r, p, pdpt, pd, pt)
    requires pt / PAGE_SIZE in m1
    ensures var m2 := Put(m1, pt / PAGE_SIZE, p.i1, 0);
            && SameEntries(m0, m2, ls, {WINDOW, p}) && PathIs(m2, r, p, pdpt, pd, pt)
  {
    WalkLabels(m1, ls, r, p);
    LeafWrite(m1, ls, pt / PAGE_SIZE, p.i1, 0);
  }

  lemma MovedAfter(m0: Memory, m1: Memory, m2: Memory, ls: Labels, k: Kernel, r: nat, p: Page)
    requires SameEntries(m0, m1, ls, {WINDOW, p}) && WindowMoved(m1, m2, ls, k) && IsRoot(ls, r)
    requires p != WINDOW && Table1(m1, r, p).Some?
    ensures SameEntries(m0, m2, ls, {WINDOW, p})
    ensures Entry(m2, r, p) == Entry(m1, r, p) && Table1(m2, r, p) == Table1(m1, r, p)
  {
  }

  /** Freeing the frames of a cleared entry and of its table: the frame invariant survives exactly if
      the one is ordinary RAM and the other, still a table, is not freed. */
  lemma FreedFrames(m: Memory, m': Memory, ls: Labels, free: set<nat>, data: set<nat>, t: nat, table: set<nat>)
    requires FramesOk(m, ls, free) && m'.Keys == m.Keys && t in ls && table <= {t}
    requires forall d :: d in data ==> d < TWO_40
    ensures FramesOk(m', ls, free + data + table) <==> table == {} && forall d :: d in data ==> IsDataFrame(m, ls, d)
  {
    if table != {} { assert t in table; }
    forall d | d in data && !IsDataFrame(m, ls, d) ensures !FramesOk(m', ls, free + data + table) {
      assert d in free + data + table;
    }
  }

  /** Both for unmap_page, told from the state before: m1 is the state with the entry cleared. */
  lemma Unmapped(m0: Memory, m1: Memory, m2: Memory, ls: Labels, k: Kernel, cr3: nat, free: set<nat>,
                 data: set<nat>, t: nat, tracked: set<nat>, p: Page)
    requires MapInv(m0, ls, k, cr3) && MapInv(m2, ls, k, cr3) && t in ls && ls[t] == L1(p.i4, p.i3, p.i2) && p != WINDOW
    requires OneWordCleared(m0, m1, k, t, p.i1) && WindowMoved(m1, m2, ls, k) && m1.Keys == m0.Keys
    requires FramesOk(m1, ls, free) && tracked <= {t} && forall d :: d in data ==> d < TWO_40
    ensures t in m0 && t in m2 && (NonePresent(m2[t]) <==> !PresentBeside(m0[t], p.i1))
    ensures OneWordCleared(m0, m2, k, t, p.i1)
    ensures FramesOk(m2, ls, free + data + if PresentBeside(m0[t], p.i1) then {} else tracked)
            <==> (forall d :: d in data ==> IsDataFrame(m0, ls, d)) && (PresentBeside(m0[t], p.i1) || tracked == {})
  {
    EmptiedExactly(m0, m1, m2, ls, k, cr3, t, p);
    if t == k.pt { KernelLabels(m0, ls, k); }
    ClearedMoved(m0, m1, m2, ls, k, t, p.i1);
    FreedFrames(m1, m2, ls, free, data, t, if PresentBeside(m0[t], p.i1) then {} else tracked);
  }

  /** map_page links a new page table before it zeroes it. In between, a page below the link has
      whatever entry the frame's old contents spell: it reads as mapped exactly when that old word
      has the present bit. (After the zeroing it reads as absent, LinkKeepsEntry.) */
  lemma LinkShowsOldContents(m: Memory, ls: Labels, r: nat, p: Page, f: nat, c: nat, w: Word)
    requires TablesOk(m, ls) && IsRoot(ls, r) && Table2(m, r, p) == Some(f) && !Present(m[f][p.i2])
    requires c in m && c !in ls && MapsTo(w, c)
    ensures f in m && Entry(m, r, p) == 0 && Entry(Put(m, f, p.i2, w), r, p) == m[c][p.i1]
  {
    WalkLabels(m, ls, r, p);
  }
}
