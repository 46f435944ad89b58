/** Copying into user pages and loading an ELF image (utils.c memcpy, elf_parser.c). */
module Loader {
  import opened Words
  import opened Bytes
  import opened Pool
  import opened Pmm
  import opened PageTables
  import opened KernelSpace
  import opened Addresses
  import opened MapPath
  import opened Vmm
  import opened UserSpace
  import opened Elf
  import opened Program

  // ---------------------------------------------------------------- memcpy

  /** A byte store at offset o of page p, to a frame that is not a table. */
  method StoreByte(mc: Machine, p: Page, o: Offset, b: Byte, ghost f: nat)
    requires mc.Valid() && p !in mc.stale && MapsTo(Entry(mc.mem, mc.cr3, p), f)
    requires f in mc.mem && f !in mc.labels
    modifies mc`mem, mc`tlb
    ensures mc.Valid() && mc.mem == PutByte(old(mc.mem), f, o, b)
    ensures SameEntries(old(mc.mem), mc.mem, mc.labels, {})
  {
    DataWrite(mc.mem, PutByte(mc.mem, f, o, b), mc.labels, mc.k, mc.cr3);
    var w := mc.Read(p, o / 8, f);
    ByteFits(w, o % 8, b);
    mc.Store(p, o / 8, SetByte(w, o % 8, b), f);
  }

  /** `d[i] = s[i]` at a placed user address. */
  method StoreUserByte(mc: Machine, a: Word, b: Byte, ghost d: Placement)
    requires mc.Valid() && Placed(mc.mem, mc.labels, mc.pmm.Free(), mc.cr3, d)
    requires a < LOWER_END && a / PAGE_SIZE in d && PageOf(a) !in mc.stale
    modifies mc`mem, mc`tlb
    ensures mc.Valid() && Placed(mc.mem, mc.labels, mc.pmm.Free(), mc.cr3, d)
    ensures OnlyPlaced(old(mc.mem), mc.mem, d)
    ensures forall c: nat :: c / PAGE_SIZE in d ==>
              UserByte(mc.mem, d, c) == if c == a then b else UserByte(old(mc.mem), d, c)
  {
    UserAddress(a);
    UserByteStored(mc.mem, mc.labels, mc.pmm.Free(), mc.cr3, d, a, b);
    PlacedWrite(mc.mem, PutByte(mc.mem, d[a / PAGE_SIZE].frame, a % PAGE_SIZE, b), mc.labels, mc.pmm.Free(), mc.k, mc.cr3, d);
    StoreByte(mc, PageOf(a), a % PAGE_SIZE, b, d[a / PAGE_SIZE].frame);
  }

  /** memcpy to placed user pages; the source is given by value. Its counter is a 32-bit int. */
  method Memcpy(mc: Machine, dest: Word, src: seq<Byte>, ghost d: Placement)
    requires mc.Valid() && Placed(mc.mem, mc.labels, mc.pmm.Free(), mc.cr3, d)
    requires |src| < 0x8000_0000 && PagesIn(dest, dest + |src|, d, mc.stale)
    modifies mc`mem, mc`tlb
    ensures mc.Valid() && Placed(mc.mem, mc.labels, mc.pmm.Free(), mc.cr3, d)
    ensures Copied(old(mc.mem), mc.mem, d, dest, src, |src|)
  {
    for i := 0 to |src|
      invariant mc.Valid() && Placed(mc.mem, mc.labels, mc.pmm.Free(), mc.cr3, d)
      invariant Copied(old(mc.mem), mc.mem, d, dest, src, i)
    {
      ghost var m := mc.mem;
      StoreUserByte(mc, dest + i, src[i], d);
      CopiedStep(old(mc.mem), m, mc.mem, d, dest, src, i);
    }
  }

  // ---------------------------------------------------------------- mapping a segment

  datatype Step = Mapped | NoFrame | Panicked

  /** The context's root is loaded, and its address is in the upper half, away from the window. */
  ghost predicate Current(mc: Machine, ctx: PageTable)
    reads mc
  {
    mc.Accesses(ctx, mc.cr3) && PageOf(ctx.pml4t).i4 >= 256 && PageOf(ctx.pml4t) != WINDOW
  }

  /** pmm_alloc in a valid state. */
  method TakeFrame(mc: Machine) returns (a: Word)
    requires mc.Valid()
    modifies mc.pmm.bitmap
    ensures mc.Valid()
    ensures a == NULL <==> old(mc.pmm.Free()) == {}
    ensures a == NULL ==> mc.pmm.Free() == {}
    ensures a != NULL ==>
              && IsFrameAddress(a) && a / PAGE_SIZE in old(mc.pmm.Free())
              && (forall q :: q in old(mc.pmm.Free()) ==> a / PAGE_SIZE <= q)
              && mc.pmm.Free() == old(mc.pmm.Free()) - {a / PAGE_SIZE}
  {
    a := mc.pmm.Alloc();
  }

  /** map_page of a frame just taken, at an unplaced page. */
  method MapTaken(mc: Machine, ctx: PageTable, v: nat, phys: Word, flags: Word, ghost d: Placement, ghost free: set<nat>)
    returns (ok: bool, ghost d': Placement)
    requires mc.Valid() && Current(mc, ctx) && Placed(mc.mem, mc.labels, free, mc.cr3, d)
    requires IsFrameAddress(phys) && IsDataFrame(mc.mem, mc.labels, phys / PAGE_SIZE)
    requires phys / PAGE_SIZE in free && mc.pmm.Free() == free - {phys / PAGE_SIZE}
    requires v < LOWER_PAGES && v !in d && !Present(Entry(mc.mem, mc.cr3, UserPage(v)))
    requires IsFlags(flags) && Present(flags)
    modifies mc, mc.pmm.bitmap
    ensures mc.Valid() && mc.cr3 == old(mc.cr3)
    ensures old(mc.pmm.FreeCount()) >= 3 ==> ok
    ensures ok ==> old(mc.pmm.FreeCount()) - 3 <= mc.pmm.FreeCount()
    ensures ok ==> Current(mc, ctx) && mc.stale == old(mc.stale)
    ensures ok ==> phys + flags < TWO_64 && d' == d[v := Slot(phys / PAGE_SIZE, phys + flags)]
    ensures ok ==> Placed(mc.mem, mc.labels, mc.pmm.Free(), mc.cr3, d')
    ensures ok ==> Progress(old(mc.mem), old(mc.labels), free, d, mc.mem, mc.labels, mc.pmm.Free(), d')
  {
    d' := d;
    UserPages(v, v);
    EntryFields(phys, flags);
    ok := mc.MapPage(ctx, v * PAGE_SIZE, phys, flags, mc.cr3);
    if ok {
      ghost var slot := Slot(phys / PAGE_SIZE, phys + flags);
      d' := d[v := slot];
      PlacedGrows(old(mc.mem), old(mc.labels), free, mc.mem, mc.labels, mc.pmm.Free(), mc.cr3, d, v, UserPage(v), slot);
      GrownByOne(old(mc.mem), old(mc.labels), free, mc.mem, mc.labels, mc.pmm.Free(), d, v, slot);
      UpperKept(old(mc.mem), mc.mem, old(mc.labels), mc.cr3, PageOf(ctx.pml4t), UserPage(v));
    }
  }

  /** One turn of load_elf's inner loop. When pmm_alloc fails its NULL is not noticed, so physical
      page 0 would be mapped; this is NoFrame. */
  method MapFresh(mc: Machine, ctx: PageTable, v: nat, flags: Word, ghost d: Placement)
    returns (step: Step, ghost d': Placement)
    requires mc.Valid() && Current(mc, ctx) && Placed(mc.mem, mc.labels, mc.pmm.Free(), mc.cr3, d)
    requires v < LOWER_PAGES && v !in d && !Present(Entry(mc.mem, mc.cr3, UserPage(v)))
    requires IsFlags(flags) && Present(flags)
    modifies mc, mc.pmm.bitmap
    ensures mc.Valid() && mc.cr3 == old(mc.cr3)
    ensures step == NoFrame ==> old(mc.pmm.Free()) == {}
    ensures step == Panicked ==> old(mc.pmm.FreeCount()) < 4
    ensures step == Mapped ==> old(mc.pmm.FreeCount()) - 4 <= mc.pmm.FreeCount()
    ensures step == Mapped ==> Current(mc, ctx) && mc.stale == old(mc.stale)
    ensures step == Mapped ==> v in d' && d' == d[v := d'[v]] && d'[v].entry == d'[v].frame * PAGE_SIZE + flags
    ensures step == Mapped ==> Placed(mc.mem, mc.labels, mc.pmm.Free(), mc.cr3, d')
    ensures step == Mapped ==> Progress(old(mc.mem), old(mc.labels), old(mc.pmm.Free()), d, mc.mem, mc.labels, mc.pmm.Free(), d')
  {
    d' := d;
    ghost var free := mc.pmm.Free();
    var phys := TakeFrame(mc);
    if phys == NULL { return NoFrame, d; }
    var ok;
    ok, d' := MapTaken(mc, ctx, v, phys, flags, d, free);
    step := if ok then Mapped else Panicked;
  }

  ghost predicate Absent(m: Memory, r: nat, lo: nat, hi: nat) {
    hi <= LOWER_PAGES && forall v :: lo <= v < hi ==> !Present(Entry(m, r, UserPage(v)))
  }

  lemma AbsentKept(m: Memory, ls: Labels, m': Memory, d': Placement, r: nat, lo: nat, hi: nat, v: nat)
    requires SameEntries(m, m', ls, {WINDOW} + PlacedPages(d')) && IsRoot(ls, r) && Absent(m, r, lo, hi) && lo <= v < hi && v !in d'
    ensures v < LOWER_PAGES && !Present(Entry(m', r, UserPage(v)))
  {
    if UserPage(v) in PlacedPages(d') {
      var u :| u in d' && u < LOWER_PAGES && UserPage(u) == UserPage(v);
      UserPages(u, v);
    }
    UserPages(v, v);
    assert Entry(m', r, UserPage(v)) == Entry(m, r, UserPage(v));
  }

  /** The pages lo..hi were added to the placement with the given flags. */
  ghost predicate Added(d: Placement, d': Placement, lo: nat, hi: nat, flags: Word) {
    && (forall v :: v in d' <==> v in d || lo <= v < hi)
    && (forall v :: v in d ==> d'[v] == d[v])
    && (forall v :: lo <= v < hi ==> d'[v].entry == d'[v].frame * PAGE_SIZE + flags)
  }

  lemma AddedStep(d: Placement, d1: Placement, d2: Placement, lo: nat, v: nat, flags: Word)
    requires Added(d, d1, lo, v, flags) && lo <= v && v !in d
    requires v in d2 && d2 == d1[v := d2[v]] && d2[v].entry == d2[v].frame * PAGE_SIZE + flags
    ensures Added(d, d2, lo, v + 1, flags)
  {
  }

  /** load_elf's inner loop: map `count` pages from page `first`. */
  method MapPages(mc: Machine, ctx: PageTable, first: nat, count: nat, flags: Word, ghost d: Placement)
    returns (step: Step, ghost d': Placement)
    requires mc.Valid() && Current(mc, ctx) && Placed(mc.mem, mc.labels, mc.pmm.Free(), mc.cr3, d)
    requires Absent(mc.mem, mc.cr3, first, first + count) && IsFlags(flags) && Present(flags)
    requires forall v :: first <= v < first + count ==> v !in d
    modifies mc, mc.pmm.bitmap
    ensures mc.Valid() && mc.cr3 == old(mc.cr3)
    ensures step != Mapped ==> old(mc.pmm.FreeCount()) < 4 * count
    ensures step == Mapped ==> old(mc.pmm.FreeCount()) - 4 * count <= mc.pmm.FreeCount()
    ensures step == Mapped ==> Current(mc, ctx) && mc.stale == old(mc.stale)
    ensures step == Mapped ==> Added(d, d', first, first + count, flags)
    ensures step == Mapped ==> Placed(mc.mem, mc.labels, mc.pmm.Free(), mc.cr3, d')
    ensures step == Mapped ==> Progress(old(mc.mem), old(mc.labels), old(mc.pmm.Free()), d, mc.mem, mc.labels, mc.pmm.Free(), d')
  {
    d' := d;
    step := Mapped;
    for j := 0 to count
      invariant mc.Valid() && mc.cr3 == old(mc.cr3) && step == Mapped
      invariant Current(mc, ctx) && mc.stale == old(mc.stale)
      invariant old(mc.pmm.FreeCount()) - 4 * j <= mc.pmm.FreeCount()
      invariant Added(d, d', first, first + j, flags)
      invariant Placed(mc.mem, mc.labels, mc.pmm.Free(), mc.cr3, d')
      invariant Progress(old(mc.mem), old(mc.labels), old(mc.pmm.Free()), d, mc.mem, mc.labels, mc.pmm.Free(), d')
    {
      step, d' := MapNext(mc, ctx, first + j, flags, d', d, old(mc.mem), old(mc.labels), old(mc.pmm.Free()), first, first + count);
      if step != Mapped { return; }
    }
  }

  /** One turn of that loop: page v of the pages lo..hi, after those before it. */
  method MapNext(mc: Machine, ctx: PageTable, v: nat, flags: Word, ghost d1: Placement,
                 ghost d: Placement, ghost m: Memory, ghost ls: Labels, ghost fr: set<nat>, ghost lo: nat, ghost hi: nat)
    returns (step: Step, ghost d2: Placement)
    requires mc.Valid() && Current(mc, ctx) && Placed(mc.mem, mc.labels, mc.pmm.Free(), mc.cr3, d1)
    requires IsRoot(ls, mc.cr3) && Absent(m, mc.cr3, lo, hi) && lo <= v < hi && v !in d && IsFlags(flags) && Present(flags)
    requires Added(d, d1, lo, v, flags) && Progress(m, ls, fr, d, mc.mem, mc.labels, mc.pmm.Free(), d1)
    modifies mc, mc.pmm.bitmap
    ensures mc.Valid() && mc.cr3 == old(mc.cr3)
    ensures step != Mapped ==> old(mc.pmm.FreeCount()) < 4
    ensures step == Mapped ==> old(mc.pmm.FreeCount()) - 4 <= mc.pmm.FreeCount()
    ensures step == Mapped ==> Current(mc, ctx) && mc.stale == old(mc.stale)
    ensures step == Mapped ==> Added(d, d2, lo, v + 1, flags)
    ensures step == Mapped ==> Placed(mc.mem, mc.labels, mc.pmm.Free(), mc.cr3, d2)
    ensures step == Mapped ==> Progress(m, ls, fr, d, mc.mem, mc.labels, mc.pmm.Free(), d2)
  {
    ghost var m1, ls1, fr1 := mc.mem, mc.labels, mc.pmm.Free();
    AbsentKept(m, ls, m1, d1, mc.cr3, lo, hi, v);
    step, d2 := MapFresh(mc, ctx, v, flags, d1);
    if step != Mapped { return; }
    AddedStep(d, d1, d2, lo, v, flags);
    ProgressTwice(m, ls, fr, d, m1, ls1, fr1, d1, mc.mem, mc.labels, mc.pmm.Free(), d2);
  }

  // ---------------------------------------------------------------- one segment

  /** Every page of the segment is placed with the segment's flags. */
  ghost predicate PagesPlaced(d: Placement, ph: Phdr) {
    forall v :: InSegment(ph, v) ==> v in d && d[v].entry == d[v].frame * PAGE_SIZE + SegmentFlags(ph)
  }

  /** Every file byte of the segment is in memory at its address. */
  ghost predicate BytesLoaded(m: Memory, d: Placement, elf: Image, ph: Phdr) {
    ph.pOffset + ph.pFilesz <= |elf| &&
    forall a: nat :: ph.pVaddr <= a < ph.pVaddr + ph.pFilesz ==>
      && a / PAGE_SIZE in d && d[a / PAGE_SIZE].frame in m
      && UserByte(m, d, a) == elf[ph.pOffset + (a - ph.pVaddr)]
  }

  ghost predicate SegmentLoaded(m: Memory, d: Placement, elf: Image, ph: Phdr) {
    ph.pType == PT_LOAD ==> PagesPlaced(d, ph) && BytesLoaded(m, d, elf, ph)
  }

  /** Bytes of pages placed before are what they were. */
  ghost predicate KeptBytes(m: Memory, d: Placement, m': Memory, d': Placement) {
    && (forall v :: v in d ==> v in d' && d'[v] == d[v] && d[v].frame in m && d[v].frame in m')
    && (forall a: nat :: a / PAGE_SIZE in d ==> UserByte(m', d', a) == UserByte(m, d, a))
  }

  lemma LoadedKept(m: Memory, d: Placement, m': Memory, d': Placement, elf: Image, ph: Phdr)
    requires SegmentLoaded(m, d, elf, ph) && KeptBytes(m, d, m', d')
    ensures SegmentLoaded(m', d', elf, ph)
  {
  }

  /** A segment's addresses are on its pages. */
  lemma AddressInSegment(ph: Phdr, a: nat)
    requires ph.pType == PT_LOAD && ph.pVaddr <= a <= ph.pVaddr + ph.pMemsz
    ensures InSegment(ph, a / PAGE_SIZE)
  {
  }

  /** After the pages were mapped at m1 and the file bytes copied, the segment is loaded and the
      bytes of other pages are as they were at m. */
  lemma SegmentCopied(m: Memory, d: Placement, m1: Memory, d1: Placement, m2: Memory, elf: Image, ph: Phdr, flags: Word)
    requires ph.pType == PT_LOAD && Loadable(elf, ph) && flags == SegmentFlags(ph)
    requires Intact(m, m1, d) && Added(d, d1, FirstPage(ph), EndPage(ph), flags)
    requires forall v :: InSegment(ph, v) ==> v !in d
    requires Copied(m1, m2, d1, ph.pVaddr, elf[ph.pOffset..ph.pOffset + ph.pFilesz], ph.pFilesz)
    ensures SegmentLoaded(m2, d1, elf, ph) && KeptBytes(m, d, m2, d1)
  {
    forall a: nat | ph.pVaddr <= a < ph.pVaddr + ph.pFilesz
      ensures a / PAGE_SIZE in d1 && d1[a / PAGE_SIZE].frame in m2
      ensures UserByte(m2, d1, a) == elf[ph.pOffset + (a - ph.pVaddr)]
    {
      AddressInSegment(ph, a);
    }
    forall a: nat | a / PAGE_SIZE in d ensures UserByte(m2, d1, a) == UserByte(m, d, a) {
      if ph.pVaddr <= a < ph.pVaddr + ph.pFilesz { AddressInSegment(ph, a); }
    }
  }

  lemma SegmentArithmetic(ph: Phdr)
    ensures FirstPage(ph) <= EndPage(ph)
    ensures var start := ph.pVaddr - ph.pVaddr % PAGE_SIZE;
            var end := ph.pVaddr + ph.pMemsz - (ph.pVaddr + ph.pMemsz) % PAGE_SIZE + PAGE_SIZE;
            start / PAGE_SIZE == FirstPage(ph) && (end - start) / PAGE_SIZE == EndPage(ph) - FirstPage(ph)
  {
  }

  /** The page arithmetic and the map loop of load_elf. */
  method MapSegment(mc: Machine, ctx: PageTable, ghost elf: Image, ph: Phdr, ghost d: Placement)
    returns (step: Step, ghost d': Placement)
    requires mc.Valid() && Current(mc, ctx) && Placed(mc.mem, mc.labels, mc.pmm.Free(), mc.cr3, d)
    requires ph.pType == PT_LOAD && Loadable(elf, ph)
    requires Absent(mc.mem, mc.cr3, FirstPage(ph), EndPage(ph))
    requires forall v :: InSegment(ph, v) ==> v !in d
    modifies mc, mc.pmm.bitmap
    ensures mc.Valid() && mc.cr3 == old(mc.cr3)
    ensures step != Mapped ==> old(mc.pmm.FreeCount()) < 4 * (EndPage(ph) - FirstPage(ph))
    ensures step == Mapped ==> old(mc.pmm.FreeCount()) - 4 * (EndPage(ph) - FirstPage(ph)) <= mc.pmm.FreeCount()
    ensures step == Mapped ==> Current(mc, ctx) && mc.stale == old(mc.stale)
    ensures step == Mapped ==> Added(d, d', FirstPage(ph), EndPage(ph), SegmentFlags(ph))
    ensures step == Mapped ==> Placed(mc.mem, mc.labels, mc.pmm.Free(), mc.cr3, d')
    ensures step == Mapped ==> Progress(old(mc.mem), old(mc.labels), old(mc.pmm.Free()), d, mc.mem, mc.labels, mc.pmm.Free(), d')
  {
    var start := ph.pVaddr - ph.pVaddr % PAGE_SIZE;
    var end := ph.pVaddr + ph.pMemsz - (ph.pVaddr + ph.pMemsz) % PAGE_SIZE + PAGE_SIZE;
    var pageCount := (end - start) / PAGE_SIZE;
    SegmentArithmetic(ph);
    var pageFlags: Word := 0x5;
    if ph.pFlags / 2 % 2 == 1 {
      assert Or(0x5, 0x2) == 0x7;
      pageFlags := Or(pageFlags, 0x2);
    }
    var first := start / PAGE_SIZE;
    assert first == FirstPage(ph) && pageCount == EndPage(ph) - FirstPage(ph) && pageFlags == SegmentFlags(ph);
    step, d' := MapPages(mc, ctx, first, pageCount, pageFlags, d);
  }

  /** load_elf's work for one loadable segment. */
  method LoadSegment(mc: Machine, ctx: PageTable, elf: Image, ph: Phdr, ghost d: Placement)
    returns (step: Step, ghost d': Placement)
    requires mc.Valid() && Current(mc, ctx) && Placed(mc.mem, mc.labels, mc.pmm.Free(), mc.cr3, d)
    requires ph.pType == PT_LOAD && Loadable(elf, ph)
    requires Absent(mc.mem, mc.cr3, FirstPage(ph), EndPage(ph)) && NotStale(mc.stale, FirstPage(ph), EndPage(ph))
    requires forall v :: InSegment(ph, v) ==> v !in d
    modifies mc, mc.pmm.bitmap
    ensures mc.Valid() && mc.cr3 == old(mc.cr3)
    ensures step != Mapped ==> old(mc.pmm.FreeCount()) < 4 * (EndPage(ph) - FirstPage(ph))
    ensures step == Mapped ==> old(mc.pmm.FreeCount()) - 4 * (EndPage(ph) - FirstPage(ph)) <= mc.pmm.FreeCount()
    ensures step == Mapped ==> Current(mc, ctx) && mc.stale == old(mc.stale)
    ensures step == Mapped ==> forall v :: v in d' <==> v in d || InSegment(ph, v)
    ensures step == Mapped ==> Placed(mc.mem, mc.labels, mc.pmm.Free(), mc.cr3, d')
    ensures step == Mapped ==> Grown(old(mc.mem), old(mc.labels), old(mc.pmm.Free()), d, mc.mem, mc.labels, mc.pmm.Free(), d')
    ensures step == Mapped ==> KeptBytes(old(mc.mem), d, mc.mem, d') && SegmentLoaded(mc.mem, d', elf, ph)
  {
    step, d' := MapSegment(mc, ctx, elf, ph, d);
    if step != Mapped { return; }
    FillSegment(mc, ctx, elf, ph, d, d', old(mc.mem), old(mc.labels), old(mc.pmm.Free()));
  }

  /** load_elf's memcpy to a segment's pages. */
  method FillSegment(mc: Machine, ctx: PageTable, elf: Image, ph: Phdr, ghost d: Placement, ghost d': Placement,
                     ghost m: Memory, ghost ls: Labels, ghost fr: set<nat>)
    requires mc.Valid() && Current(mc, ctx) && Placed(mc.mem, mc.labels, mc.pmm.Free(), mc.cr3, d')
    requires ph.pType == PT_LOAD && Loadable(elf, ph) && NotStale(mc.stale, FirstPage(ph), EndPage(ph))
    requires forall v :: InSegment(ph, v) ==> v !in d
    requires Added(d, d', FirstPage(ph), EndPage(ph), SegmentFlags(ph)) && Progress(m, ls, fr, d, mc.mem, mc.labels, mc.pmm.Free(), d')
    modifies mc`mem, mc`tlb
    ensures mc.Valid() && Current(mc, ctx) && Placed(mc.mem, mc.labels, mc.pmm.Free(), mc.cr3, d')
    ensures Grown(m, ls, fr, d, mc.mem, mc.labels, mc.pmm.Free(), d')
    ensures KeptBytes(m, d, mc.mem, d') && SegmentLoaded(mc.mem, d', elf, ph)
  {
    SegmentPlaced(ph, elf, d, d', mc.stale);
    ghost var m1, ls1, fr1, r := mc.mem, mc.labels, mc.pmm.Free(), mc.cr3;
    Memcpy(mc, ph.pVaddr, elf[ph.pOffset..ph.pOffset + ph.pFilesz], d');
    SegmentCopied(m, d, m1, d', mc.mem, elf, ph, SegmentFlags(ph));
    CopyGrows(m, ls, fr, d, m1, ls1, fr1, mc.k, r, d', mc.mem);
  }

  /** Filling placed pages after they were mapped still only adds to the program. */
  lemma CopyGrows(m: Memory, ls: Labels, fr: set<nat>, d: Placement, m1: Memory, ls1: Labels, free: set<nat>, k: Kernel, cr3: nat,
                  d1: Placement, m2: Memory)
    requires Grown(m, ls, fr, d, m1, ls1, free, d1) && OnlyPlaced(m1, m2, d1)
    requires MapInv(m1, ls1, k, cr3) && Placed(m1, ls1, free, cr3, d1)
    ensures Grown(m, ls, fr, d, m2, ls1, free, d1) && SameEntries(m1, m2, ls1, {})
  {
    PlacedWrite(m1, m2, ls1, free, k, cr3, d1);
    OnlyPlacedRest(m1, ls1, free, m2, d1);
    GrownTwice(m, ls, fr, d, m1, ls1, free, d1, m2, ls1, free, d1);
  }

  lemma OnlyPlacedRest(m: Memory, ls: Labels, free: set<nat>, m': Memory, d: Placement)
    requires OnlyPlaced(m, m', d)
    ensures RestKept(m, ls, free, d, m')
  {
    forall f | f in m && f !in ls && f !in free && !IsPlaced(d, f) ensures f in m' && m'[f] == m[f] {
      forall v | v in d ensures d[v].frame != f { if d[v].frame == f { assert IsPlaced(d, f); } }
    }
  }

  lemma SegmentPlaced(ph: Phdr, elf: Image, d: Placement, d': Placement, stale: set<Page>)
    requires ph.pType == PT_LOAD && Loadable(elf, ph)
    requires Added(d, d', FirstPage(ph), EndPage(ph), SegmentFlags(ph)) && NotStale(stale, FirstPage(ph), EndPage(ph))
    ensures PagesIn(ph.pVaddr, ph.pVaddr + ph.pFilesz, d', stale)
  {
    forall a | ph.pVaddr <= a < ph.pVaddr + ph.pFilesz
      ensures a / PAGE_SIZE in d' && PageOf(a) !in stale
    {
      AddressInSegment(ph, a);
      UserAddress(a);
    }
  }

  ghost predicate NotStale(stale: set<Page>, lo: nat, hi: nat) {
    hi <= LOWER_PAGES && forall v :: lo <= v < hi ==> UserPage(v) !in stale
  }

  // ---------------------------------------------------------------- load_elf

  ghost predicate InSome(phs: seq<Phdr>, n: nat, v: nat) {
    exists k :: 0 <= k < n <= |phs| && InSegment(phs[k], v)
  }

  /** After n program headers: their pages are placed, their file bytes are in memory, and
      nothing else changed since (m, ls). */
  ghost predicate Loaded(m: Memory, ls: Labels, fr: set<nat>, m': Memory, ls': Labels, fr': set<nat>, d: Placement,
                         elf: Image, phs: seq<Phdr>, n: nat) {
    && n <= |phs|
    && Grown(m, ls, fr, map[], m', ls', fr', d)
    && (forall v :: v in d <==> InSome(phs, n, v))
    && (forall k :: 0 <= k < n ==> SegmentLoaded(m', d, elf, phs[k]))
  }

  lemma InSomeStep(phs: seq<Phdr>, n: nat, v: nat)
    requires n < |phs|
    ensures InSome(phs, n + 1, v) <==> InSome(phs, n, v) || InSegment(phs[n], v)
  {
  }

  lemma LoadedStep(m: Memory, ls: Labels, fr: set<nat>, m1: Memory, ls1: Labels, fr1: set<nat>, d1: Placement,
                   m2: Memory, ls2: Labels, fr2: set<nat>, d2: Placement, elf: Image, phs: seq<Phdr>, n: nat)
    requires n < |phs| && Loaded(m, ls, fr, m1, ls1, fr1, d1, elf, phs, n)
    requires Grown(m1, ls1, fr1, d1, m2, ls2, fr2, d2) && KeptBytes(m1, d1, m2, d2)
    requires forall v :: v in d2 <==> v in d1 || InSegment(phs[n], v)
    requires SegmentLoaded(m2, d2, elf, phs[n])
    ensures Loaded(m, ls, fr, m2, ls2, fr2, d2, elf, phs, n + 1)
  {
    GrownTwice(m, ls, fr, map[], m1, ls1, fr1, d1, m2, ls2, fr2, d2);
    forall v ensures v in d2 <==> InSome(phs, n + 1, v) { InSomeStep(phs, n, v); }
    forall k | 0 <= k < n ensures SegmentLoaded(m2, d2, elf, phs[k]) { LoadedKept(m1, d1, m2, d2, elf, phs[k]); }
  }

  /** The pages an image needs: its segments' and the stack page. */
  ghost predicate Needed(phs: seq<Phdr>, v: nat) {
    v == STACK_PAGE || InSome(phs, |phs|, v)
  }

  // ---------------------------------------------------------------- what loading costs

  /** The pages lo..hi. */
  function Pages(lo: nat, hi: nat): (ps: set<nat>)
    ensures forall v :: v in ps <==> lo <= v < hi
    decreases hi
  {
    if lo < hi then Pages(lo, hi - 1) + {hi - 1} else {}
  }

  lemma {:induction false} PagesCount(lo: nat, hi: nat)
    requires lo <= hi
    ensures |Pages(lo, hi)| == hi - lo
    decreases hi
  {
    if lo < hi { PagesCount(lo, hi - 1); }
  }

  /** The pages of the segments from n on, and the stack's. */
  function PagesFrom(phs: seq<Phdr>, n: nat): set<nat>
    requires n <= |phs|
    decreases |phs| - n
  {
    if n == |phs| then {STACK_PAGE}
    else PagesFrom(phs, n + 1) + if phs[n].pType == PT_LOAD then Pages(FirstPage(phs[n]), EndPage(phs[n])) else {}
  }

  lemma {:induction false} PagesFromNeeded(phs: seq<Phdr>, n: nat, v: nat)
    requires n <= |phs|
    ensures v in PagesFrom(phs, n) <==> v == STACK_PAGE || exists k :: n <= k < |phs| && InSegment(phs[k], v)
    decreases |phs| - n
  {
    if n < |phs| { PagesFromNeeded(phs, n + 1, v); }
  }

  lemma NewPages(elf: Image, phs: seq<Phdr>, n: nat, v: nat)
    requires GoodSegments(elf, phs) && n < |phs| && InSegment(phs[n], v)
    ensures v !in PagesFrom(phs, n + 1)
  {
    PagesFromNeeded(phs, n + 1, v);
    assert Loadable(elf, phs[n]);
    if k :| n + 1 <= k < |phs| && InSegment(phs[k], v) { assert Disjoint(phs[n], phs[k]); }
  }

  /** Loading takes at most four frames for each page the image needs. */
  lemma {:induction false} CostIsFourEach(elf: Image, phs: seq<Phdr>, n: nat)
    requires GoodSegments(elf, phs) && n <= |phs|
    ensures Cost(phs, n) == 4 * |PagesFrom(phs, n)|
    decreases |phs| - n
  {
    if n < |phs| {
      CostIsFourEach(elf, phs, n + 1);
      var qs := PagesFrom(phs, n + 1);
      if phs[n].pType == PT_LOAD {
        var ps := Pages(FirstPage(phs[n]), EndPage(phs[n]));
        PagesCount(FirstPage(phs[n]), EndPage(phs[n]));
        forall v | v in ps ensures v !in qs { NewPages(elf, phs, n, v); }
        assert |qs + ps| == |qs| + |ps|;
      } else {
        assert qs + {} == qs;
      }
    }
  }

  /** No page the image needs is mapped, nor cached as stale. */
  ghost predicate FreshPages(m: Memory, r: nat, stale: set<Page>, phs: seq<Phdr>) {
    forall v: nat :: v < LOWER_PAGES && Needed(phs, v) ==> !Present(Entry(m, r, UserPage(v))) && UserPage(v) !in stale
  }

  /** The next segment's pages are still unused. */
  lemma NextIsFresh(m: Memory, ls: Labels, fr: set<nat>, m1: Memory, ls1: Labels, fr1: set<nat>, d: Placement, r: nat, stale: set<Page>,
                    elf: Image, phs: seq<Phdr>, n: nat)
    requires GoodSegments(elf, phs) && n < |phs| && phs[n].pType == PT_LOAD && IsRoot(ls, r)
    requires Loaded(m, ls, fr, m1, ls1, fr1, d, elf, phs, n)
    requires FreshPages(m, r, stale, phs)
    ensures var ph := phs[n];
            && Absent(m1, r, FirstPage(ph), EndPage(ph)) && NotStale(stale, FirstPage(ph), EndPage(ph))
            && forall v :: InSegment(ph, v) ==> v !in d
  {
    var ph := phs[n];
    assert Loadable(elf, ph);
    forall v | InSegment(ph, v) ensures v !in d && Needed(phs, v) {
      assert InSome(phs, |phs|, v);
      forall j | 0 <= j < n ensures !InSegment(phs[j], v) { assert Disjoint(phs[j], ph); }
    }
    assert forall v :: FirstPage(ph) <= v < EndPage(ph) ==> InSegment(ph, v);
    assert Absent(m, r, FirstPage(ph), EndPage(ph));
    forall v | FirstPage(ph) <= v < EndPage(ph) ensures v < LOWER_PAGES && !Present(Entry(m1, r, UserPage(v))) {
      AbsentKept(m, ls, m1, d, r, FirstPage(ph), EndPage(ph), v);
    }
  }

  /** What load_elf's inline assembly is reached with, or why it is not: a rejected header, an
      unnoticed failure of pmm_alloc (physical page 0 would be mapped), or panic. */
  datatype Outcome = BadImage(code: nat) | Starved | Halted | Entered(entry: nat)

  /** The header checks. */
  method CheckHeader(elf: Image) returns (code: nat)
    requires |elf| >= EHDR_SIZE
    ensures code == HeaderError(elf)
  {
    var magic := [0x7F, 0x45, 0x4C, 0x46];
    for i := 0 to 4
      invariant forall j :: 0 <= j < i ==> elf[j] == magic[j]
    {
      if elf[i] != magic[i] { return 0x10; }
    }
    assert elf[..4] == magic;
    if elf[4] != 2 { return 0x11; }
    if elf[5] != 1 { return 0x12; }
    if Field(elf, 18, 2) != 62 { return 0x13; }
    return 0;
  }

  lemma LoadedNothing(m: Memory, ls: Labels, free: set<nat>, r: nat, elf: Image, phs: seq<Phdr>)
    ensures Placed(m, ls, free, r, map[]) && Loaded(m, ls, free, m, ls, free, map[], elf, phs, 0)
  {
  }

  /** The loop over program headers. */
  method LoadSegments(mc: Machine, ctx: PageTable, elf: Image, phs: seq<Phdr>) returns (step: Step, ghost d: Placement)
    requires mc.Valid() && Current(mc, ctx) && GoodSegments(elf, phs)
    requires FreshPages(mc.mem, mc.cr3, mc.stale, phs)
    modifies mc, mc.pmm.bitmap
    ensures mc.Valid() && mc.cr3 == old(mc.cr3)
    ensures old(mc.pmm.FreeCount()) >= Cost(phs, 0) ==> step == Mapped && mc.pmm.FreeCount() >= Cost(phs, |phs|)
    ensures step == Mapped ==> Current(mc, ctx) && mc.stale == old(mc.stale)
    ensures step == Mapped ==> Placed(mc.mem, mc.labels, mc.pmm.Free(), mc.cr3, d)
    ensures step == Mapped ==> Loaded(old(mc.mem), old(mc.labels), old(mc.pmm.Free()), mc.mem, mc.labels, mc.pmm.Free(), d, elf, phs, |phs|)
  {
    LoadedNothing(mc.mem, mc.labels, mc.pmm.Free(), mc.cr3, elf, phs);
    d := map[];
    step := Mapped;
    ghost var m0, ls0, fr0, stale0 := mc.mem, mc.labels, mc.pmm.Free(), mc.stale;
    for i := 0 to |phs|
      invariant mc.Valid() && mc.cr3 == old(mc.cr3) && step == Mapped
      invariant old(mc.pmm.FreeCount()) >= Cost(phs, 0) ==> mc.pmm.FreeCount() >= Cost(phs, i)
      invariant Current(mc, ctx) && mc.stale == stale0
      invariant Placed(mc.mem, mc.labels, mc.pmm.Free(), mc.cr3, d)
      invariant Loaded(m0, ls0, fr0, mc.mem, mc.labels, mc.pmm.Free(), d, elf, phs, i)
    {
      step, d := LoadOne(mc, ctx, elf, phs, i, d, m0, ls0, fr0, stale0);
      if step != Mapped { return; }
    }
  }

  /** One turn of the loop over program headers. */
  method LoadOne(mc: Machine, ctx: PageTable, elf: Image, phs: seq<Phdr>, i: nat, ghost d: Placement,
                 ghost m0: Memory, ghost ls0: Labels, ghost fr0: set<nat>, ghost stale0: set<Page>)
    returns (step: Step, ghost d': Placement)
    requires mc.Valid() && Current(mc, ctx) && GoodSegments(elf, phs) && i < |phs|
    requires IsRoot(ls0, mc.cr3) && mc.stale == stale0
    requires FreshPages(m0, mc.cr3, stale0, phs)
    requires Placed(mc.mem, mc.labels, mc.pmm.Free(), mc.cr3, d)
    requires Loaded(m0, ls0, fr0, mc.mem, mc.labels, mc.pmm.Free(), d, elf, phs, i)
    modifies mc, mc.pmm.bitmap
    ensures mc.Valid() && mc.cr3 == old(mc.cr3)
    ensures old(mc.pmm.FreeCount()) >= Cost(phs, i) ==> step == Mapped && mc.pmm.FreeCount() >= Cost(phs, i + 1)
    ensures step == Mapped ==> Current(mc, ctx) && mc.stale == stale0
    ensures step == Mapped ==> Placed(mc.mem, mc.labels, mc.pmm.Free(), mc.cr3, d')
    ensures step == Mapped ==> Loaded(m0, ls0, fr0, mc.mem, mc.labels, mc.pmm.Free(), d', elf, phs, i + 1)
  {
    var ph := phs[i];
    ghost var m1, ls1, fr1, r := mc.mem, mc.labels, mc.pmm.Free(), mc.cr3;
    if ph.pType == PT_LOAD {
      NextIsFresh(m0, ls0, fr0, m1, ls1, fr1, d, r, stale0, elf, phs, i);
      step, d' := LoadSegment(mc, ctx, elf, ph, d);
      if step != Mapped { return; }
      LoadedStep(m0, ls0, fr0, m1, ls1, fr1, d, mc.mem, mc.labels, mc.pmm.Free(), d', elf, phs, i);
    } else {
      step, d' := Mapped, d;
      LoadedStep(m0, ls0, fr0, m1, ls1, fr1, d, m1, ls1, fr1, d, elf, phs, i);
    }
  }

  // ---------------------------------------------------------------- the loaded program

  lemma PlacedReads(m: Memory, ls: Labels, free: set<nat>, r: nat, d: Placement, a: nat)
    requires Placed(m, ls, free, r, d) && a / PAGE_SIZE in d && a < LOWER_END
    ensures Reads(m, r, a, UserByte(m, d, a))
  {
    UserAddress(a);
  }

  /** The image's byte for an address inside a segment's file part. */
  function ImageByte(elf: Image, ph: Phdr, a: nat): Byte
    requires ph.pOffset + ph.pFilesz <= |elf| && ph.pVaddr <= a < ph.pVaddr + ph.pFilesz
  {
    elf[ph.pOffset + (a - ph.pVaddr)]
  }

  /** Every page of the segment is mapped with its flags and every file byte can be read at its
      address. */
  ghost predicate SegmentReadable(m: Memory, r: nat, elf: Image, ph: Phdr) {
    && ph.pOffset + ph.pFilesz <= |elf| && EndPage(ph) <= LOWER_PAGES
    && (forall a: Word :: ph.pVaddr <= a < ph.pVaddr + ph.pFilesz ==> Reads(m, r, a, ImageByte(elf, ph, a)))
    && (forall v: nat :: InSegment(ph, v) ==>
          FlaggedEntry(Entry(m, r, UserPage(v)), SegmentFlags(ph)))
  }

  /** A present entry with exactly these flags. */
  predicate FlaggedEntry(e: Word, flags: nat) { Present(e) && e == Target(e) * PAGE_SIZE + flags }

  lemma SegmentReads(m: Memory, ls: Labels, free: set<nat>, r: nat, d: Placement, elf: Image, ph: Phdr)
    requires ph.pType == PT_LOAD && Loadable(elf, ph) && Placed(m, ls, free, r, d)
    requires SegmentLoaded(m, d, elf, ph)
    ensures SegmentReadable(m, r, elf, ph)
  {
    forall a: Word | ph.pVaddr <= a < ph.pVaddr + ph.pFilesz
      ensures Reads(m, r, a, ImageByte(elf, ph, a))
    {
      PlacedReads(m, ls, free, r, d, a);
    }
    forall v: nat | InSegment(ph, v)
      ensures v < LOWER_PAGES && FlaggedEntry(Entry(m, r, UserPage(v)), SegmentFlags(ph))
    {
    }
  }

  lemma ReadableSpans(m: Memory, r: nat, elf: Image, o: nat, a: Word)
    requires o + 56 <= |elf| && Loadable(elf, PhdrAt(elf, o)) && Spans(elf, o, a)
    requires SegmentReadable(m, r, elf, PhdrAt(elf, o))
    ensures UserEntry(Entry(m, r, PageOf(a)), elf[o + 4] / 2 % 2 == 1)
  {
    LowBitOfField(elf, o + 4);
    AddressInSegment(PhdrAt(elf, o), a);
    UserAddress(a);
    UserEntryIs(Target(Entry(m, r, PageOf(a))), elf[o + 4] / 2 % 2 == 1);
  }

  /** A readable segment, told on the image's bytes. */
  lemma ReadableIsAt(m: Memory, r: nat, elf: Image, o: nat)
    requires o + 56 <= |elf| && Loadable(elf, PhdrAt(elf, o))
    requires PhdrAt(elf, o).pType == PT_LOAD ==> SegmentReadable(m, r, elf, PhdrAt(elf, o))
    ensures SegmentAt(m, r, elf, o)
  {
    var ph := PhdrAt(elf, o);
    forall a: Word | Spans(elf, o, a) ensures UserEntry(Entry(m, r, PageOf(a)), elf[o + 4] / 2 % 2 == 1) {
      ReadableSpans(m, r, elf, o, a);
    }
    if ph.pType == PT_LOAD {
      forall a: Word | ph.pVaddr <= a < ph.pVaddr + ph.pFilesz ensures Reads(m, r, a, FileByte(elf, ph.pOffset, ph.pVaddr, a)) {
        assert FileByte(elf, ph.pOffset, ph.pVaddr, a) == ImageByte(elf, ph, a);
      }
    }
  }

  lemma AllReadableAt(m: Memory, r: nat, elf: Image)
    requires TableInside(elf) && GoodSegments(elf, Phdrs(elf))
    requires forall k :: 0 <= k < |Phdrs(elf)| && Phdrs(elf)[k].pType == PT_LOAD ==> SegmentReadable(m, r, elf, Phdrs(elf)[k])
    ensures SegmentsAt(m, r, elf)
  {
    forall i | 0 <= i < Field(elf, 56, 2) ensures SegmentAt(m, r, elf, HeaderOffset(elf, i)) {
      assert Phdrs(elf)[i] == PhdrAt(elf, HeaderOffset(elf, i));
      ReadableIsAt(m, r, elf, HeaderOffset(elf, i));
    }
  }

  /** The stack's page is there, and writable. */
  ghost predicate StackAt(m: Memory, r: nat) { UserEntry(Entry(m, r, PageOf(0x7000_0000_0000)), true) }

  lemma StackIsAt(m: Memory, r: nat)
    requires FlaggedEntry(Entry(m, r, UserPage(STACK_PAGE)), 0x7)
    ensures StackAt(m, r)
  {
    UserEntryIs(Target(Entry(m, r, UserPage(STACK_PAGE))), true);
  }

  /** The pages load_elf maps are those of the addresses the image asks for. */
  lemma NeededIsWanted(elf: Image, v: nat)
    requires TableInside(elf)
    ensures Needed(Phdrs(elf), v) <==> exists a: nat :: a / PAGE_SIZE == v && Wanted(elf, a)
  {
    var phs := Phdrs(elf);
    forall i | 0 <= i < |phs| ensures InSegment(phs[i], v) <==> exists a: nat :: a / PAGE_SIZE == v && Spans(elf, HeaderOffset(elf, i), a) {
      assert phs[i] == PhdrAt(elf, HeaderOffset(elf, i));
      SpannedPages(elf, HeaderOffset(elf, i), v);
    }
    if v == STACK_PAGE { assert Wanted(elf, 0x7000_0000_0000); }
    if InSome(phs, |phs|, v) {
      var i :| 0 <= i < |phs| && InSegment(phs[i], v);
      var a: nat :| a / PAGE_SIZE == v && Spans(elf, HeaderOffset(elf, i), a);
      assert Wanted(elf, a);
    }
    if exists a: nat :: a / PAGE_SIZE == v && Wanted(elf, a) {
      var a: nat :| a / PAGE_SIZE == v && Wanted(elf, a);
      if a != 0x7000_0000_0000 {
        var i :| 0 <= i < Field(elf, 56, 2) && Spans(elf, HeaderOffset(elf, i), a);
        assert InSegment(phs[i], v);
      }
    }
  }

  lemma IntactKeepsBytes(m: Memory, d: Placement, m': Memory, d': Placement)
    requires Intact(m, m', d) && forall v :: v in d ==> v in d' && d'[v] == d[v]
    ensures KeptBytes(m, d, m', d')
  {
    forall a: nat | a / PAGE_SIZE in d ensures UserByte(m', d', a) == UserByte(m, d, a) {
      assert m'[d[a / PAGE_SIZE].frame] == m[d[a / PAGE_SIZE].frame];
    }
  }

  /** What load_elf promises when it reaches the program's entry: every loadable segment is in
      place, the stack page is mapped, and every address space is otherwise unchanged. */
  ghost predicate ProgramLoaded(m0: Memory, ls0: Labels, m: Memory, r: nat, d: Placement, elf: Image, phs: seq<Phdr>) {
    && (forall k :: 0 <= k < |phs| && phs[k].pType == PT_LOAD ==> SegmentReadable(m, r, elf, phs[k]))
    && FlaggedEntry(Entry(m, r, UserPage(STACK_PAGE)), 0x7)
    && (forall v :: v in d <==> Needed(phs, v))
    && SameEntries(m0, m, ls0, {WINDOW} + PlacedPages(d))
  }

  lemma AllLoaded(m0: Memory, ls0: Labels, fr0: set<nat>, m1: Memory, ls1: Labels, fr1: set<nat>, d1: Placement,
                  m: Memory, ls: Labels, free: set<nat>, r: nat, d: Placement, elf: Image, phs: seq<Phdr>)
    requires GoodSegments(elf, phs) && Placed(m, ls, free, r, d)
    requires Loaded(m0, ls0, fr0, m1, ls1, fr1, d1, elf, phs, |phs|)
    requires STACK_PAGE in d && d == d1[STACK_PAGE := d[STACK_PAGE]]
    requires d[STACK_PAGE].entry == d[STACK_PAGE].frame * PAGE_SIZE + 0x7
    requires Progress(m1, ls1, fr1, d1, m, ls, free, d)
    ensures ProgramLoaded(m0, ls0, m, r, d, elf, phs) && RestKept(m0, ls0, fr0, map[], m)
  {
    GrownTwice(m0, ls0, fr0, map[], m1, ls1, fr1, d1, m, ls, free, d);
    IntactKeepsBytes(m1, d1, m, d);
    AllReadable(m1, d1, m, ls, free, r, d, elf, phs);
    StackPlaced(m, ls, free, r, d);
  }

  lemma StackPlaced(m: Memory, ls: Labels, free: set<nat>, r: nat, d: Placement)
    requires Placed(m, ls, free, r, d) && STACK_PAGE in d && d[STACK_PAGE].entry == d[STACK_PAGE].frame * PAGE_SIZE + 0x7
    ensures FlaggedEntry(Entry(m, r, UserPage(STACK_PAGE)), 0x7)
  {
  }

  lemma AllReadable(m1: Memory, d1: Placement, m: Memory, ls: Labels, free: set<nat>, r: nat, d: Placement, elf: Image, phs: seq<Phdr>)
    requires GoodSegments(elf, phs) && Placed(m, ls, free, r, d) && KeptBytes(m1, d1, m, d)
    requires forall k :: 0 <= k < |phs| ==> SegmentLoaded(m1, d1, elf, phs[k])
    ensures forall k :: 0 <= k < |phs| && phs[k].pType == PT_LOAD ==> SegmentReadable(m, r, elf, phs[k])
  {
    forall k | 0 <= k < |phs| && phs[k].pType == PT_LOAD ensures SegmentReadable(m, r, elf, phs[k]) {
      assert Loadable(elf, phs[k]);
      LoadedKept(m1, d1, m, d, elf, phs[k]);
      SegmentReads(m, ls, free, r, d, elf, phs[k]);
    }
  }

  /** load_elf, up to the inline assembly that enters the program. */
  method LoadElf(mc: Machine, ctx: PageTable, elf: Image) returns (outcome: Outcome, ghost d: Placement)
    requires mc.Valid() && Current(mc, ctx) && |elf| >= EHDR_SIZE
    requires HeaderError(elf) == 0 ==> TableInside(elf) && GoodSegments(elf, Phdrs(elf))
    requires HeaderError(elf) == 0 ==> FreshPages(mc.mem, mc.cr3, mc.stale, Phdrs(elf))
    modifies mc, mc.pmm.bitmap
    ensures mc.Valid() && mc.cr3 == old(mc.cr3)
    ensures HeaderError(elf) != 0 ==>
              outcome == BadImage(HeaderError(elf)) && mc.mem == old(mc.mem) && mc.pmm.Free() == old(mc.pmm.Free())
    ensures HeaderError(elf) == 0 && old(mc.pmm.FreeCount()) >= Cost(Phdrs(elf), 0) ==> outcome.Entered?
    ensures outcome.BadImage? ==> HeaderError(elf) != 0
    ensures outcome.Entered? ==> HeaderError(elf) == 0 && outcome.entry == Field(elf, 24, 8)
    ensures outcome.Entered? ==> Placed(mc.mem, mc.labels, mc.pmm.Free(), mc.cr3, d)
    ensures outcome.Entered? ==> ProgramLoaded(old(mc.mem), old(mc.labels), mc.mem, mc.cr3, d, elf, Phdrs(elf))
    ensures outcome.Entered? ==> SegmentsAt(mc.mem, mc.cr3, elf) && StackAt(mc.mem, mc.cr3)
    ensures outcome.Entered? ==> RestKept(old(mc.mem), old(mc.labels), old(mc.pmm.Free()), map[], mc.mem)
  {
    d := map[];
    var code := CheckHeader(elf);
    if code != 0 { return BadImage(code), d; }
    var phs := Phdrs(elf);
    var step;
    step, d := LoadSegments(mc, ctx, elf, phs);
    if step == Mapped {
      step, d := MapStack(mc, ctx, elf, phs, d, old(mc.mem), old(mc.labels), old(mc.pmm.Free()), old(mc.stale));
    }
    if step == Mapped {
      AllReadableAt(mc.mem, mc.cr3, elf);
      StackIsAt(mc.mem, mc.cr3);
    }
    match step
    case Mapped => outcome := Entered(Field(elf, 24, 8));
    case NoFrame => outcome := Starved;
    case Panicked => outcome := Halted;
  }

  /** load_elf's stack page. */
  method MapStack(mc: Machine, ctx: PageTable, ghost elf: Image, ghost phs: seq<Phdr>, ghost d: Placement,
                  ghost m0: Memory, ghost ls0: Labels, ghost fr0: set<nat>, ghost stale0: set<Page>)
    returns (step: Step, ghost d': Placement)
    requires mc.Valid() && Current(mc, ctx) && GoodSegments(elf, phs) && IsRoot(ls0, mc.cr3)
    requires FreshPages(m0, mc.cr3, stale0, phs)
    requires Placed(mc.mem, mc.labels, mc.pmm.Free(), mc.cr3, d)
    requires Loaded(m0, ls0, fr0, mc.mem, mc.labels, mc.pmm.Free(), d, elf, phs, |phs|)
    modifies mc, mc.pmm.bitmap
    ensures mc.Valid() && mc.cr3 == old(mc.cr3)
    ensures old(mc.pmm.FreeCount()) >= 4 ==> step == Mapped
    ensures step == Mapped ==> Placed(mc.mem, mc.labels, mc.pmm.Free(), mc.cr3, d')
    ensures step == Mapped ==> ProgramLoaded(m0, ls0, mc.mem, mc.cr3, d', elf, phs) && RestKept(m0, ls0, fr0, map[], mc.mem)
  {
    ghost var m1, ls1, fr1, r := mc.mem, mc.labels, mc.pmm.Free(), mc.cr3;
    StackIsFresh(m0, ls0, fr0, m1, ls1, fr1, d, r, stale0, elf, phs);
    step, d' := MapFresh(mc, ctx, STACK_PAGE, 0x7, d);
    if step == Mapped {
      AllLoaded(m0, ls0, fr0, m1, ls1, fr1, d, mc.mem, mc.labels, mc.pmm.Free(), r, d', elf, phs);
    }
  }

  lemma StackIsFresh(m: Memory, ls: Labels, fr: set<nat>, m1: Memory, ls1: Labels, fr1: set<nat>, d: Placement, r: nat, stale: set<Page>,
                     elf: Image, phs: seq<Phdr>)
    requires GoodSegments(elf, phs) && IsRoot(ls, r) && FreshPages(m, r, stale, phs)
    requires Loaded(m, ls, fr, m1, ls1, fr1, d, elf, phs, |phs|)
    ensures STACK_PAGE !in d && !Present(Entry(m1, r, UserPage(STACK_PAGE)))
  {
    forall k | 0 <= k < |phs| ensures !InSegment(phs[k], STACK_PAGE) { assert Loadable(elf, phs[k]); }
    assert Needed(phs, STACK_PAGE);
    assert Absent(m, r, STACK_PAGE, STACK_PAGE + 1);
    AbsentKept(m, ls, m1, d, r, STACK_PAGE, STACK_PAGE + 1, STACK_PAGE);
  }
}
