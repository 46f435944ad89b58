/** The virtual memory manager (vmm.c). Every table below a root is read and written through the
    single page TEMP_PAGE; the memory accesses here go through the MMU and a TLB that may keep
    any translation it has used until it is told to drop it. */
module Vmm {
  import opened Words
  import opened Pool
  import opened Pmm
  import opened PageTables
  import opened KernelSpace
  import opened Addresses
  import opened MapPath

  /** vmm.h page_table_t: the root's virtual address. */
  datatype PageTable = PageTable(pml4t: Word, isKernel: bool)

  class Machine {
    var mem: Memory
    var cr3: nat               // frame of the root in use
    var tlb: Tlb
    const pml4t: Word          // the kernel's root, by virtual address
    const pmm: FrameAllocator
    ghost const k: Kernel
    ghost var labels: Labels
    ghost var stale: set<Page> // pages remapped or unmapped without invalidation

    /** The tables and the TLB are as the kernel relies on. */
    ghost predicate Sound()
      reads this
    {
      && Set()
      && MapInv(mem, labels, k, cr3) && Coherent(mem, cr3, tlb, stale)
      && (forall p :: p in stale ==> !Protected(k, p))
    }

    /** In addition no frame in use as a table is free. */
    ghost predicate Valid()
      reads this, pmm.bitmap
    {
      Sound() && pmm.Valid() && FramesOk(mem, labels, pmm.Free())
    }

    constructor (mem: Memory, pml4t: Word, pmm: FrameAllocator, ghost k: Kernel, ghost labels: Labels)
      requires MapInv(mem, labels, k, k.root) && FramesOk(mem, labels, pmm.Free())
      requires pmm.Valid() && pml4t == k.root * PAGE_SIZE + KERNEL_BASE
      ensures Valid() && this.mem == mem && this.pml4t == pml4t && this.pmm == pmm
      ensures this.k == k && this.labels == labels && cr3 == k.root && stale == {}
    {
      this.mem, this.pml4t, this.pmm, this.k, this.labels := mem, pml4t, pmm, k, labels;
      cr3, tlb, stale := (pml4t - KERNEL_BASE) / PAGE_SIZE, map[], {};
    }

    // ------------------------------------------------------------ hardware

    /** One translation. A cached one is used without looking at the tables; a new one may be
        cached; any may be evicted. */
    method Translate(p: Page, ghost f: nat) returns (g: nat)
      requires Reaches(mem, cr3, tlb, p, f)
      modifies this`tlb
      ensures g == f && FilledFrom(tlb, old(tlb), p, f)
    {
      if p in tlb {
        g := tlb[p];
      } else {
        g := Target(Entry(mem, cr3, p));
        var cached: bool := *;
        if cached { tlb := tlb[p := g]; }
      }
      var evicted: set<Page> := *;
      tlb := tlb - evicted;
    }

    method Load(p: Page, i: Index, ghost f: nat) returns (w: Word)
      requires Reaches(mem, cr3, tlb, p, f)
      modifies this`tlb
      ensures w == mem[f][i] && FilledFrom(tlb, old(tlb), p, f)
    {
      var g := Translate(p, f);
      w := mem[g][i];
    }

    /** A read in a sound state. */
    method Read(p: Page, i: Index, ghost f: nat) returns (w: Word)
      requires Sound() && p !in stale && MapsTo(Entry(mem, cr3, p), f) && f in mem
      modifies this`tlb
      ensures Sound() && w == mem[f][i]
    {
      w := Load(p, i, f);
    }

    method Store(p: Page, i: Index, w: Word, ghost f: nat)
      requires Reaches(mem, cr3, tlb, p, f)
      modifies this`tlb, this`mem
      ensures mem == Put(old(mem), f, i, w) && FilledFrom(tlb, old(tlb), p, f)
    {
      var g := Translate(p, f);
      mem := Put(mem, g, i, w);
    }

    method Invlpg(p: Page)
      modifies this`tlb
      ensures tlb == old(tlb) - {p}
    {
      tlb := tlb - {p};
    }

    /** `mov cr3`: every translation cached under the old root is dropped. */
    method LoadCr3(root: nat)
      requires Sound() && IsRoot(labels, root) && Chain(mem, k, root)
      modifies this`cr3, this`tlb, this`stale
      ensures Sound() && cr3 == root && stale == {}
    {
      cr3, tlb, stale := root, map[], {};
    }

    // ------------------------------------------------------------ the window

    ghost predicate Set()
      reads this
    {
      pml4t == k.root * PAGE_SIZE + KERNEL_BASE < TWO_64
    }

    /** One step of temp_map's walk: entry i of a kernel table, as a linear-map address. */
    method Follow(va: Word, i: Index, ghost t: nat, ghost u: nat) returns (next: Word)
      requires Ready(mem, k, cr3, tlb) && IsKernelTable(k, t) && va == Linear(t)
      requires t in mem && Target(mem[t][i]) == u
      modifies this`tlb
      ensures next == Linear(u)
      ensures Ready(mem, k, cr3, tlb) && CacheFrom(tlb, old(tlb), k)
    {
      LinearReaches(mem, k, cr3, tlb, va, t);
      var w := Load(PageOf(va), i, t);
      next := (Target(w) * PAGE_SIZE + KERNEL_BASE) % TWO_64;
    }

    /** temp_map's walk to the window's page table. */
    method FollowWindow() returns (pt: Word)
      requires Set() && Ready(mem, k, cr3, tlb)
      modifies this`tlb
      ensures pt == Linear(k.pt) && Ready(mem, k, cr3, tlb) && CacheFrom(tlb, old(tlb), k)
    {
      LinearAddress(0);
      var page := PageOf(TEMP_PAGE);
      var pdpt := Follow(pml4t, page.i4, k.root, k.pdpt);
      var pd := Follow(pdpt, page.i3, k.pdpt, k.pd);
      pt := Follow(pd, page.i2, k.pd, k.pt);
    }

    /** temp_map: afterwards the window is the given frame, and the TLB agrees. */
    method TempMap(pa: Word)
      requires Set() && Ready(mem, k, cr3, tlb) && IsFrameAddress(pa)
      modifies this`tlb, this`mem
      ensures Ready(mem, k, cr3, tlb) && CacheFrom(tlb, old(tlb), k)
      ensures Or(pa, 0x13) < TWO_64 && mem == Put(old(mem), k.pt, 511, Or(pa, 0x13))
      ensures MapsTo(mem[k.pt][511], pa / PAGE_SIZE)
    {
      EntryFields(pa, 0x13);
      var pt := FollowWindow();
      LinearAddress(0);
      LinearReaches(mem, k, cr3, tlb, pt, k.pt);
      ghost var before := tlb;
      Store(PageOf(pt), PageOf(TEMP_PAGE).i1, Or(pa, 0x13), k.pt);
      WindowReady(old(mem), k, cr3, before, tlb, Or(pa, 0x13));
      Invlpg(PageOf(TEMP_PAGE));
    }

    /** memset(TEMP_PAGE, 0, 0x1000), a word at a time. */
    method ZeroWindow(ghost f: nat)
      requires Ready(mem, k, cr3, tlb) && MapsTo(mem[k.pt][511], f)
      requires f in mem && !IsKernelTable(k, f) && f != cr3
      modifies this`tlb, this`mem
      ensures Ready(mem, k, cr3, tlb) && CacheFrom(tlb, old(tlb), k)
      ensures mem == old(mem)[f := ZeroTable()]
    {
      for i := 0 to 512
        invariant Ready(mem, k, cr3, tlb) && CacheFrom(tlb, old(tlb), k)
        invariant mem.Keys == old(mem).Keys && forall g :: g in mem && g != f ==> mem[g] == old(mem)[g]
        invariant forall j: Index :: j < i ==> mem[f][j] == 0
      {
        WindowReaches(mem, k, cr3, tlb, f);
        Store(PageOf(TEMP_PAGE), i, 0, f);
      }
      assert mem[f] == ZeroTable();
    }

    // ------------------------------------------------------------ map_page

    /** The block map_page repeats at each level: make the window show the table under entry
        `index` of the table at page `table`, allocating and zeroing it if it is missing. False
        is panic: no frame was left. */
    method OpenTable(table: Page, index: Index, flags: Word, ghost f: nat) returns (ok: bool)
      requires Valid() && IsFlags(flags)
      requires table !in stale && MapsTo(Entry(mem, cr3, table), f)
      requires f in labels && !labels[f].L1?
      modifies this`tlb, this`mem, this`labels, pmm.bitmap
      ensures Valid()
      ensures !ok ==> pmm.Free() == old(pmm.Free()) == {} && !Present(old(mem)[f][index]) && mem == old(mem) && labels == old(labels)
      ensures ok ==> Opened(old(mem), old(labels), old(pmm.Free()), mem, labels, pmm.Free(), k, f, index)
                     && LinkOf(mem[f][index], old(mem)[f][index], flags)
    {
      var entry := Read(table, index, f);
      if !Present(entry) {
        ok := AddTable(table, index, flags, f);
      } else {
        ShowTable(index, Target(entry) * PAGE_SIZE, f, pmm.Free());
        ok := true;
      }
    }

    /** The part of the block for an absent entry. */
    method AddTable(table: Page, index: Index, flags: Word, ghost f: nat) returns (ok: bool)
      requires Valid() && IsFlags(flags)
      requires table !in stale && MapsTo(Entry(mem, cr3, table), f)
      requires f in labels && !labels[f].L1? && !Present(mem[f][index])
      modifies this`tlb, this`mem, this`labels, pmm.bitmap
      ensures Valid()
      ensures !ok ==> pmm.Free() == old(pmm.Free()) == {} && mem == old(mem) && labels == old(labels)
      ensures ok ==> Opened(old(mem), old(labels), old(pmm.Free()), mem, labels, pmm.Free(), k, f, index)
                     && LinkOf(mem[f][index], old(mem)[f][index], flags)
    {
      ghost var free := pmm.Free();
      var check := pmm.Alloc();
      if check == NULL { return false; }
      LinkTable(table, index, check, flags, f, free);
      LinkWord(check, flags);
      return true;
    }

    /** The part of the block for an entry that is present already. */
    method ShowTable(index: Index, address: Word, ghost f: nat, ghost free: set<nat>)
      requires Sound() && FramesOk(mem, labels, free) && IsFrameAddress(address)
      requires f in labels && !labels[f].L1? && MapsTo(mem[f][index], address / PAGE_SIZE)
      modifies this`tlb, this`mem
      ensures Sound() && FramesOk(mem, labels, free)
      ensures Opened(old(mem), labels, free, mem, labels, free, k, f, index)
    {
      ReadyFrom(mem, labels, k, cr3, tlb, stale);
      TempMap(address);
      OpenPresent(old(mem), labels, free, mem, k, cr3, f, index, mem[k.pt][511]);
      CoherentFrom(old(mem), mem, labels, k, cr3, old(tlb), tlb, stale);
    }

    /** The part of the block that links the new frame `entry`. */
    method LinkTable(table: Page, index: Index, entry: Word, flags: Word, ghost f: nat, ghost free: set<nat>)
      requires Sound() && FramesOk(mem, labels, free) && IsFlags(flags) && IsFrameAddress(entry)
      requires table !in stale && MapsTo(Entry(mem, cr3, table), f)
      requires f in labels && !labels[f].L1? && !Present(mem[f][index])
      requires entry / PAGE_SIZE in free && forall q :: q in free ==> entry / PAGE_SIZE <= q
      modifies this`tlb, this`mem, this`labels
      ensures Sound()
      ensures FramesOk(mem, labels, free - {entry / PAGE_SIZE})
      ensures Opened(old(mem), old(labels), free, mem, labels, free - {entry / PAGE_SIZE}, k, f, index)
      ensures f in mem && Or(entry, flags) < TWO_64 && mem[f][index] == Or(Or(entry, flags), 1)
    {
      EntryFields(entry, 0x13);
      LinkWord(entry, flags);
      ghost var m, ls, c := mem, labels, entry / PAGE_SIZE;
      var w := Or(Or(entry, flags), 1);
      StoreLink(table, index, w, f);
      ghost var before := tlb;
      OpenAbsent(m, ls, free, k, cr3, f, index, c, w, Or(entry, 0x13));
      TempMapZeroed(entry);
      labels := labels[c := Child(labels[f], index)];
      OpenedCoherent(m, ls, free, mem, labels, free - {c}, k, cr3, f, index, before, tlb, stale);
    }

    /** Store a link to a table that is not zeroed yet: the window can still be used. */
    method StoreLink(table: Page, index: Index, w: Word, ghost f: nat)
      requires Sound() && table !in stale && MapsTo(Entry(mem, cr3, table), f)
      requires f in labels && !labels[f].L1? && !Present(mem[f][index])
      modifies this`tlb, this`mem
      ensures mem == Put(old(mem), f, index, w)
      ensures Coherent(old(mem), cr3, tlb, stale) && Ready(mem, k, cr3, tlb)
    {
      Store(table, index, w, f);
      LinkReady(old(mem), labels, k, cr3, old(tlb), tlb, stale, table, f, index, w);
    }

    method TempMapZeroed(entry: Word)
      requires Set() && Ready(mem, k, cr3, tlb) && IsFrameAddress(entry)
      requires entry / PAGE_SIZE in mem && !IsKernelTable(k, entry / PAGE_SIZE) && entry / PAGE_SIZE != cr3
      modifies this`tlb, this`mem
      ensures Ready(mem, k, cr3, tlb) && CacheFrom(tlb, old(tlb), k)
      ensures Or(entry, 0x13) < TWO_64
      ensures mem == Put(old(mem), k.pt, 511, Or(entry, 0x13))[entry / PAGE_SIZE := ZeroTable()]
    {
      TempMap(entry);
      ZeroWindow(entry / PAGE_SIZE);
    }

    /** The root can be accessed through ctx, an aligned table of words. */
    ghost predicate Accesses(ctx: PageTable, root: nat)
      reads this
    {
      && ctx.pml4t % PAGE_SIZE == 0
      && IsRoot(labels, root) && PageOf(ctx.pml4t) !in stale && MapsTo(Entry(mem, cr3, PageOf(ctx.pml4t)), root)
    }

    /** The block at one level of the walk to `page`, with what it adds to the state at m0. */
    method OpenLevel(table: Page, page: Page, level: nat, flags: Word, ghost root: nat, ghost f: nat,
                     ghost m0: Memory, ghost ls0: Labels, ghost free0: set<nat>)
      returns (ok: bool)
      requires Valid() && IsFlags(flags) && IsRoot(ls0, root) && IsRoot(labels, root)
      requires table !in stale && MapsTo(Entry(mem, cr3, table), f)
      requires 1 <= level <= 3 && TableAt(mem, root, page, level) == Some(f)
      requires Extended(m0, ls0, free0, mem, labels, pmm.Free(), page) && k.pt in ls0 && TablesOk(m0, ls0)
      requires forall g :: g in free0 ==> g !in ls0 && g in m0
      modifies this`tlb, this`mem, this`labels, pmm.bitmap
      ensures Valid() && IsRoot(labels, root)
      ensures Extended(m0, ls0, free0, mem, labels, pmm.Free(), page)
      ensures LinksKept(old(mem), old(labels), mem, labels, flags) && LabelsGrow(old(mem), old(labels), labels)
      ensures WalkOnly(old(mem), old(labels), mem, labels, k, root, page)
      ensures !ok ==> pmm.Free() == old(pmm.Free()) == {} && Missing(old(mem), f, page, level) > 0
      ensures ok ==> var t := TableAt(mem, root, page, level - 1);
                && t.Some? && MapsTo(mem[k.pt][511], t.value)
                && |old(pmm.Free())| - |pmm.Free()| + (if level == 1 then 0 else Missing(mem, t.value, page, level - 1))
                   == Missing(old(mem), f, page, level)
    {
      LevelTable(mem, labels, k, root, page, level);
      var index := if level == 3 then page.i4 else if level == 2 then page.i3 else page.i2;
      ghost var m1, ls1, free1 := mem, labels, pmm.Free();
      ok := OpenTable(table, index, flags, f);
      if ok {
        LevelOpened(m0, ls0, free0, m1, ls1, free1, mem, labels, pmm.Free(), k, root, f, page, level, flags);
      } else {
        LevelRefused(m1, ls1, root, f, page, level, flags);
        WalkOnlySame(m1, ls1, k, root, page);
      }
    }

    /** The two levels reached through the window. */
    method OpenLower(page: Page, flags: Word, ghost root: nat, ghost m0: Memory, ghost ls0: Labels, ghost free0: set<nat>)
      returns (ok: bool)
      requires Valid() && IsFlags(flags) && IsRoot(ls0, root) && IsRoot(labels, root)
      requires var t := Table3(mem, root, page); t.Some? && MapsTo(mem[k.pt][511], t.value)
      requires Extended(m0, ls0, free0, mem, labels, pmm.Free(), page) && k.pt in ls0 && TablesOk(m0, ls0)
      requires forall g :: g in free0 ==> g !in ls0 && g in m0
      modifies this`tlb, this`mem, this`labels, pmm.bitmap
      ensures Valid()
      ensures Extended(m0, ls0, free0, mem, labels, pmm.Free(), page)
      ensures LinksKept(old(mem), old(labels), mem, labels, flags) && LabelsGrow(old(mem), old(labels), labels)
      ensures WalkOnly(old(mem), old(labels), mem, labels, k, root, page)
      ensures ok <==> |old(pmm.Free())| >= Missing(old(mem), Table3(old(mem), root, page).value, page, 2)
      ensures if ok then |old(pmm.Free())| - |pmm.Free()| == Missing(old(mem), Table3(old(mem), root, page).value, page, 2)
              else pmm.Free() == {}
      ensures ok ==> var t := Table1(mem, root, page); t.Some? && MapsTo(mem[k.pt][511], t.value)
    {
      LinearAddress(0);
      ChainEntry(mem, k, cr3, WINDOW);
      ok := OpenLevel(PageOf(TEMP_PAGE), page, 2, flags, root, Table3(mem, root, page).value, m0, ls0, free0);
      if !ok { return; }
      ghost var m1, ls1 := mem, labels;
      ChainEntry(mem, k, cr3, WINDOW);
      ok := OpenLevel(PageOf(TEMP_PAGE), page, 1, flags, root, Table2(mem, root, page).value, m0, ls0, free0);
      LinksTwice(old(mem), old(labels), m1, ls1, mem, labels, flags);
      WalkOnlyTwice(old(mem), old(labels), m1, ls1, mem, labels, k, root, page);
    }

    /** map_page down to the page table: afterwards the window shows the page table of `page`. */
    method OpenPath(ctx: PageTable, page: Page, flags: Word, ghost root: nat) returns (ok: bool)
      requires Valid() && IsFlags(flags) && Accesses(ctx, root)
      modifies this`tlb, this`mem, this`labels, pmm.bitmap
      ensures Valid() && cr3 == old(cr3)
      ensures Extended(old(mem), old(labels), old(pmm.Free()), mem, labels, pmm.Free(), page)
      ensures Changed(old(mem), old(labels), old(pmm.Free()), mem, labels, pmm.Free(), page)
      ensures LinksKept(old(mem), old(labels), mem, labels, flags)
      ensures WalkOnly(old(mem), old(labels), mem, labels, k, root, page)
      ensures ok <==> |old(pmm.Free())| >= Missing(old(mem), root, page, 3)
      ensures if ok then |old(pmm.Free())| - |pmm.Free()| == Missing(old(mem), root, page, 3) else pmm.Free() == {}
      ensures ok ==> var t := Table1(mem, root, page); t.Some? && MapsTo(mem[k.pt][511], t.value)
    {
      ghost var m0, ls0, free0 := mem, labels, pmm.Free();
      KernelLabels(mem, labels, k);
      ok := OpenLevel(PageOf(ctx.pml4t), page, 3, flags, root, root, m0, ls0, free0);
      if ok {
        ghost var m1, ls1 := mem, labels;
        ok := OpenLower(page, flags, root, m0, ls0, free0);
        LinksTwice(m0, ls0, m1, ls1, mem, labels, flags);
        WalkOnlyTwice(m0, ls0, m1, ls1, mem, labels, k, root, page);
      }
      ExtendedIsChanged(m0, ls0, free0, mem, labels, pmm.Free(), page);
    }

    /** map_page: one entry of the address space changes, and only frames taken from the free set
        become tables. False is panic, which happens exactly when frames run out. */
    method MapPage(ctx: PageTable, va: Word, pa: Word, flags: Word, ghost root: nat) returns (ok: bool)
      requires Valid() && Accesses(ctx, root)
      requires IsFrameAddress(pa) && IsFlags(flags) && !Protected(k, PageOf(va))
      modifies this`mem, this`tlb, this`labels, this`stale, pmm.bitmap
      ensures Valid() && cr3 == old(cr3)
      ensures ok <==> |old(pmm.Free())| >= Missing(old(mem), root, PageOf(va), 3)
      ensures Changed(old(mem), old(labels), old(pmm.Free()), mem, labels, pmm.Free(), PageOf(va))
      ensures LinksKept(old(mem), old(labels), mem, labels, flags)
      ensures WalkOnly(old(mem), old(labels), mem, labels, k, root, PageOf(va))
      ensures ok ==> Or(pa, flags) < TWO_64 && Entry(mem, root, PageOf(va)) == Or(pa, flags)
      ensures ok ==> Table1(mem, root, PageOf(va)).Some?
      ensures ok ==> |old(pmm.Free())| - |pmm.Free()| == Missing(old(mem), root, PageOf(va), 3)
      ensures stale == old(stale) + if ok && Present(Entry(old(mem), cr3, PageOf(va))) then {PageOf(va)} else {}
    {
      EntryFields(pa, flags);
      ok := OpenPath(ctx, PageOf(va), flags, root);
      if ok {
        FinishMap(PageOf(va), Or(pa, flags), flags, root, old(mem), old(labels), old(pmm.Free()));
      }
    }

    /** map_page once the window shows the page table. */
    method FinishMap(page: Page, w: Word, flags: Word, ghost root: nat, ghost m0: Memory, ghost ls0: Labels, ghost free0: set<nat>)
      requires Valid() && IsRoot(labels, root) && IsRoot(ls0, cr3) && !Protected(k, page)
      requires var t := Table1(mem, root, page); t.Some? && MapsTo(mem[k.pt][511], t.value)
      requires Extended(m0, ls0, free0, mem, labels, pmm.Free(), page) && LinksKept(m0, ls0, mem, labels, flags)
      requires WalkOnly(m0, ls0, mem, labels, k, root, page) && IsRoot(ls0, root)
      modifies this`mem, this`tlb, this`stale
      ensures Valid() && cr3 == old(cr3)
      ensures Changed(m0, ls0, free0, mem, labels, pmm.Free(), page) && LinksKept(m0, ls0, mem, labels, flags)
      ensures WalkOnly(m0, ls0, mem, labels, k, root, page)
      ensures Entry(mem, root, page) == w && Table1(mem, root, page).Some?
      ensures stale == old(stale) + if Present(Entry(m0, cr3, page)) then {page} else {}
    {
      ghost var m, t := mem, Table1(mem, root, page).value;
      ExtendedEntry(m0, m, ls0, page, cr3);
      WalkLabels(m, labels, root, page);
      StoreLeaf(page, w, root, t);
      ChangedFrom(m0, ls0, free0, m, labels, pmm.Free(), page, root, w);
      LeafLinks(m0, ls0, m, labels, t, page.i1, w, flags);
      LeafWalkOnly(m0, ls0, m, labels, k, root, page, t, w);
    }

    /** map_page's last statement, through the window. */
    method StoreLeaf(page: Page, w: Word, ghost root: nat, ghost f: nat)
      requires Valid() && IsRoot(labels, root) && !Protected(k, page)
      requires Table1(mem, root, page) == Some(f) && MapsTo(mem[k.pt][511], f)
      modifies this`mem, this`tlb, this`stale
      ensures Valid()
      ensures f in old(mem) && mem == Put(old(mem), f, page.i1, w)
      ensures Entry(mem, root, page) == w && Table1(mem, root, page) == Some(f)
      ensures stale == old(stale) + if Present(Entry(old(mem), cr3, page)) then {page} else {}
    {
      WalkLabels(mem, labels, root, page);
      LinearAddress(0);
      ChainEntry(mem, k, cr3, WINDOW);
      Store(PageOf(TEMP_PAGE), page.i1, w, f);
      stale := stale + if Present(Entry(old(mem), cr3, page)) then {page} else {};
      LeafStored(old(mem), labels, k, cr3, old(tlb), tlb, old(stale), stale, f, page, w, root);
    }

    // ------------------------------------------------------------ reading and removing entries

    /** temp_map in a sound state. */
    method Retarget(pa: Word)
      requires Sound() && IsFrameAddress(pa)
      modifies this`tlb, this`mem
      ensures Sound() && WindowMoved(old(mem), mem, labels, k)
      ensures MapsTo(mem[k.pt][511], pa / PAGE_SIZE)
    {
      ReadyFrom(mem, labels, k, cr3, tlb, stale);
      TempMap(pa);
      WindowKeepsMap(old(mem), labels, k, cr3, mem[k.pt][511]);
      CoherentFrom(old(mem), mem, labels, k, cr3, old(tlb), tlb, stale);
    }

    /** A read through the window. */
    method Peek(i: Index, ghost f: nat) returns (w: Word)
      requires Sound() && f in mem && MapsTo(mem[k.pt][511], f)
      modifies this`tlb
      ensures Sound() && w == mem[f][i]
    {
      LinearAddress(0);
      ChainEntry(mem, k, cr3, WINDOW);
      w := Load(PageOf(TEMP_PAGE), i, f);
    }

    /** One step of the walk below: show the table under entry i of the table the window shows. */
    method ShowNext(i: Index, ghost f: nat) returns (next: Word)
      requires Sound() && f in mem && MapsTo(mem[k.pt][511], f)
      modifies this`tlb, this`mem
      ensures Sound() && WindowMoved(old(mem), mem, labels, k)
      ensures IsFrameAddress(next) && next / PAGE_SIZE == Target(old(mem)[f][i])
      ensures MapsTo(mem[k.pt][511], next / PAGE_SIZE)
    {
      var e := Peek(i, f);
      next := Target(e) * PAGE_SIZE;
      Retarget(next);
    }

    /** The walk get_physical_address and unmap_page share; present bits are not looked at. */
    method WalkDown(ctx: PageTable, page: Page, ghost root: nat) returns (pdpt: Word, pd: Word, pt: Word)
      requires Sound() && Accesses(ctx, root) && Table1(mem, root, page).Some?
      modifies this`tlb, this`mem
      ensures Sound() && WindowMoved(old(mem), mem, labels, k)
      ensures IsFrameAddress(pdpt) && Table3(old(mem), root, page) == Some(pdpt / PAGE_SIZE)
      ensures IsFrameAddress(pd) && Table2(old(mem), root, page) == Some(pd / PAGE_SIZE)
      ensures IsFrameAddress(pt) && Table1(old(mem), root, page) == Some(pt / PAGE_SIZE)
      ensures MapsTo(mem[k.pt][511], pt / PAGE_SIZE)
    {
      KernelLabels(mem, labels, k);
      TablesAbovePt(mem, labels, k, root, page);
      ghost var m, f3, f2 := mem, Table3(mem, root, page).value, Table2(mem, root, page).value;
      var e4 := Read(PageOf(ctx.pml4t), page.i4, root);
      pdpt := Target(e4) * PAGE_SIZE;
      Retarget(pdpt);
      ghost var m1 := mem;
      assert m1[f3] == m[f3];
      pd := ShowNext(page.i3, f3);
      assert pd / PAGE_SIZE == f2;
      WindowMovedTwice(m, m1, mem, labels, k);
      m1 := mem;
      assert m1[f2] == m[f2];
      pt := ShowNext(page.i2, f2);
      assert Table1(m, root, page) == Some(pt / PAGE_SIZE);
      WindowMovedTwice(m, m1, mem, labels, k);
    }

    /** get_physical_address, for a page whose tables exist. */
    method GetPhysicalAddress(ctx: PageTable, va: Word, ghost root: nat) returns (pa: Word)
      requires Sound() && Accesses(ctx, root) && Table1(mem, root, PageOf(va)).Some? && PageOf(va) != WINDOW
      modifies this`tlb, this`mem
      ensures Sound() && WindowMoved(old(mem), mem, labels, k)
      ensures pa == Target(Entry(old(mem), root, PageOf(va))) * PAGE_SIZE + va % PAGE_SIZE
    {
      var _, _, pt := WalkDown(ctx, PageOf(va), root);
      WalkLabels(mem, labels, root, PageOf(va));
      var e := Peek(PageOf(va).i1, pt / PAGE_SIZE);
      pa := Target(e) * PAGE_SIZE + va % PAGE_SIZE;
    }

    /** The round trip: what map_page mapped, get_physical_address finds. */
    method MapThenTranslate(ctx: PageTable, va: Word, pa: Word, flags: Word, ghost root: nat) returns (ok: bool, found: Word)
      requires Valid() && Accesses(ctx, root) && PageOf(ctx.pml4t) != PageOf(va) && PageOf(ctx.pml4t) != WINDOW
      requires IsFrameAddress(pa) && IsFlags(flags) && !Protected(k, PageOf(va))
      modifies this`mem, this`tlb, this`labels, this`stale, pmm.bitmap
      ensures Sound()
      ensures ok <==> |old(pmm.Free())| >= Missing(old(mem), root, PageOf(va), 3)
      ensures ok ==> found == pa + va % PAGE_SIZE
      ensures ok ==> SameEntries(old(mem), mem, old(labels), {WINDOW, PageOf(va)})
    {
      EntryFields(pa, flags);
      ok := MapPage(ctx, va, pa, flags, root);
      found := 0;
      if ok {
        found := GetPhysicalAddress(ctx, va, root);
      }
    }

    /** unmap_page's scan: no present entry in the table the window shows. */
    method TableIsEmpty(ghost f: nat) returns (empty: bool)
      requires Sound() && f in mem && MapsTo(mem[k.pt][511], f)
      modifies this`tlb
      ensures Sound() && (empty <==> NonePresent(mem[f]))
    {
      for i := 0 to 512
        invariant Sound() && forall j: Index :: j < i ==> !Present(mem[f][j])
      {
        var e := Peek(i, f);
        if Present(e) { return false; }
      }
      return true;
    }

    /** The block unmap_page repeats at each level: free the table if nothing in it is present. */
    method Reclaim(address: Word)
      requires Sound() && pmm.Valid() && IsFrameAddress(address) && address / PAGE_SIZE in mem
      modifies this`tlb, this`mem, pmm.bitmap
      ensures Sound() && pmm.Valid() && WindowMoved(old(mem), mem, labels, k)
      ensures pmm.Free() == old(pmm.Free()) +
                if NonePresent(mem[address / PAGE_SIZE]) then pmm.Tracked(address / PAGE_SIZE) else {}
    {
      Retarget(address);
      var empty := TableIsEmpty(address / PAGE_SIZE);
      if empty { pmm.Release(address); }
    }

    /** unmap_page up to the freeing of the frame the entry names, whatever that is. */
    method ClearEntry(ctx: PageTable, page: Page, ghost root: nat) returns (pdpt: Word, pd: Word, pt: Word)
      requires Valid() && Accesses(ctx, root) && !Protected(k, page) && Table1(mem, root, page).Some?
      modifies this`tlb, this`mem, this`stale, pmm.bitmap
      ensures Sound() && pmm.Valid() && FramesOk(mem, labels, old(pmm.Free())) && PathIs(mem, root, page, pdpt, pd, pt)
      ensures mem.Keys == old(mem).Keys && labels == old(labels) && cr3 == old(cr3)
      ensures Entry(mem, root, page) == 0 && SameEntries(old(mem), mem, labels, {WINDOW, page})
      ensures Table1(mem, root, page) == Table1(old(mem), root, page)
      ensures OneWordCleared(old(mem), mem, k, pt / PAGE_SIZE, page.i1)
      ensures pmm.Free() == old(pmm.Free()) + pmm.Tracked(Target(Entry(old(mem), root, page)))
    {
      KernelLabels(mem, labels, k);
      TablesAbovePt(mem, labels, k, root, page);
      ghost var m0 := mem;
      pdpt, pd, pt := WalkDown(ctx, page, root);
      ghost var m1, t := mem, pt / PAGE_SIZE;
      ExtendedEntry(m0, m1, labels, page, root);
      var pte := TakeOut(page, root, t);
      Cleared(m0, m1, labels, k, root, page, pdpt, pd, pt);
      ClearedWord(m0, m1, labels, k, t, page.i1);
      pmm.Release(pte);
    }

    /** `pte = pt[i] & PAGE_MASK; pt[i] = 0` through the window. */
    method TakeOut(page: Page, ghost root: nat, ghost t: nat) returns (pte: Word)
      requires Valid() && IsRoot(labels, root) && !Protected(k, page)
      requires Table1(mem, root, page) == Some(t) && MapsTo(mem[k.pt][511], t)
      modifies this`tlb, this`mem, this`stale
      ensures Valid() && t in old(mem) && mem == Put(old(mem), t, page.i1, 0) && Entry(mem, root, page) == 0
      ensures IsFrameAddress(pte) && pte / PAGE_SIZE == Target(Entry(old(mem), root, page))
    {
      WalkLabels(mem, labels, root, page);
      var e := Peek(page.i1, t);
      pte := Target(e) * PAGE_SIZE;
      FrameAddress(Target(e));
      StoreLeaf(page, 0, root, t);
    }

    /** unmap_page's three blocks. The upper two never free anything: the entry of the table below
        is still present. */
    method ReclaimTables(pdpt: Word, pd: Word, pt: Word, ghost root: nat, ghost page: Page)
      requires Sound() && pmm.Valid() && IsRoot(labels, root) && PathIs(mem, root, page, pdpt, pd, pt)
      modifies this`tlb, this`mem, pmm.bitmap
      ensures Sound() && pmm.Valid() && WindowMoved(old(mem), mem, labels, k) && pt / PAGE_SIZE in mem
      ensures pmm.Free() == old(pmm.Free()) +
                if NonePresent(mem[pt / PAGE_SIZE]) then pmm.Tracked(pt / PAGE_SIZE) else {}
    {
      KernelLabels(mem, labels, k);
      TablesAbovePt(mem, labels, k, root, page);
      ghost var m, f3, f2 := mem, pdpt / PAGE_SIZE, pd / PAGE_SIZE;
      assert Present(m[f3][page.i3]) && Present(m[f2][page.i2]);
      Reclaim(pt);
      ghost var m1 := mem;
      assert m1[f3] == m[f3] && m1[f2] == m[f2];
      Reclaim(pd);
      WindowMovedTwice(m, m1, mem, labels, k);
      m1 := mem;
      assert m1[f3] == m[f3];
      Reclaim(pdpt);
      WindowMovedTwice(m, m1, mem, labels, k);
    }

    /** unmap_page of a page whose tables exist. The entry is cleared and the frame it names is freed,
        whatever that is: frame 0 if the entry was absent. If nothing else in its page table was
        present that table is freed too, but stays linked. So the state is valid afterwards exactly
        when the entry named a frame of ordinary RAM and its table has another present entry. */
    method UnmapPage(ctx: PageTable, va: Word, ghost root: nat)
      requires Valid() && Accesses(ctx, root) && !Protected(k, PageOf(va))
      requires Table1(mem, root, PageOf(va)).Some?
      modifies this`mem, this`tlb, this`stale, pmm.bitmap
      ensures Sound() && pmm.Valid() && labels == old(labels) && cr3 == old(cr3)
      ensures Entry(mem, root, PageOf(va)) == 0 && SameEntries(old(mem), mem, labels, {WINDOW, PageOf(va)})
      ensures Table1(mem, root, PageOf(va)) == Table1(old(mem), root, PageOf(va))
      ensures var d, t := Target(Entry(old(mem), root, PageOf(va))), Table1(old(mem), root, PageOf(va)).value;
              && t in old(mem) && OneWordCleared(old(mem), mem, k, t, PageOf(va).i1)
              && pmm.Free() == old(pmm.Free()) + pmm.Tracked(d)
                               + (if PresentBeside(old(mem)[t], PageOf(va).i1) then {} else pmm.Tracked(t))
              && (Valid() <==> (IsDataFrame(old(mem), labels, d) || d >= pmm.bitSize)
                               && (PresentBeside(old(mem)[t], PageOf(va).i1) || t >= pmm.bitSize))
    {
      ghost var m0, page := mem, PageOf(va);
      var pdpt, pd, pt := ClearEntry(ctx, PageOf(va), root);
      FinishUnmap(pdpt, pd, pt, root, page, m0, old(pmm.Free()), pmm.Tracked(Target(Entry(m0, root, page))));
    }

    /** unmap_page once the entry is cleared and its frame freed. */
    method FinishUnmap(pdpt: Word, pd: Word, pt: Word, ghost root: nat, ghost page: Page,
                       ghost m0: Memory, ghost free0: set<nat>, ghost data: set<nat>)
      requires Sound() && pmm.Valid() && IsRoot(labels, root) && PathIs(mem, root, page, pdpt, pd, pt) && !Protected(k, page)
      requires MapInv(m0, labels, k, cr3) && m0.Keys == mem.Keys && OneWordCleared(m0, mem, k, pt / PAGE_SIZE, page.i1)
      requires Entry(mem, root, page) == 0 && SameEntries(m0, mem, labels, {WINDOW, page})
      requires FramesOk(mem, labels, free0) && pmm.Free() == free0 + data && forall d :: d in data ==> d < TWO_40
      modifies this`tlb, this`mem, pmm.bitmap
      ensures Sound() && pmm.Valid() && pt / PAGE_SIZE in m0 && labels == old(labels) && cr3 == old(cr3)
      ensures Entry(mem, root, page) == 0 && SameEntries(m0, mem, labels, {WINDOW, page})
      ensures Table1(mem, root, page) == Some(pt / PAGE_SIZE) && OneWordCleared(m0, mem, k, pt / PAGE_SIZE, page.i1)
      ensures pmm.Free() == free0 + data + if PresentBeside(m0[pt / PAGE_SIZE], page.i1) then {} else pmm.Tracked(pt / PAGE_SIZE)
      ensures FramesOk(mem, labels, pmm.Free())
              <==> (forall d :: d in data ==> IsDataFrame(m0, labels, d))
                   && (PresentBeside(m0[pt / PAGE_SIZE], page.i1) || pt / PAGE_SIZE >= pmm.bitSize)
    {
      ghost var m1, t := mem, pt / PAGE_SIZE;
      WalkLabels(mem, labels, root, page);
      ReclaimTables(pdpt, pd, pt, root, page);
      MovedAfter(m0, m1, mem, labels, k, root, page);
      Unmapped(m0, m1, mem, labels, k, cr3, free0, data, t, pmm.Tracked(t), page);
    }
  }
}
