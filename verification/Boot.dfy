/** Bringing the memory stack up (kernel.c): paging_init builds the kernel's tables in pool pages,
    and kernel_main makes a root for the first program and loads it. */
module Boot {
  import opened Words
  import opened Bytes
  import opened Pool
  import opened Pmm
  import opened PageTables
  import opened KernelSpace
  import opened Addresses
  import opened MapPath
  import opened Vmm
  import opened UserSpace
  import opened Elf
  import opened Program
  import opened Loader

  // ---------------------------------------------------------------- paging_init

  /** The page table paging_init fills: page t of the kernel's 2 MiB is frame t. */
  ghost predicate LinearTable(t: Table) {
    forall i: Index :: t[i] == i * PAGE_SIZE + 0x3
  }

  /** Only entry i of the table is set: present, writable, to frame f. */
  ghost predicate OneEntry(t: Table, i: Index, f: nat) {
    t[i] == f * PAGE_SIZE + 0x3 && MapsTo(t[i], f) && forall j: Index :: j != i ==> t[j] == 0
  }

  /** The tables paging_init leaves. */
  ghost predicate BootTables(m: Memory, k: Kernel) {
    && k.root in m && OneEntry(m[k.root], 511, k.pdpt)
    && k.pdpt in m && OneEntry(m[k.pdpt], 510, k.pd)
    && k.pd in m && OneEntry(m[k.pd], 0, k.pt)
    && k.pt in m && LinearTable(m[k.pt])
    && 0 < k.root < k.pdpt < k.pd < k.pt < 511
  }

  ghost function BootLabels(k: Kernel): Labels {
    map[k.root := Root, k.pdpt := L3(511), k.pd := L2(511, 510), k.pt := L1(511, 510, 0)]
  }

  /** The address space paging_init sets up: the linear map and nothing else. */
  lemma BootEntries(m: Memory, k: Kernel, p: Page)
    requires BootTables(m, k)
    ensures Entry(m, k.root, p) == if p == LinearPage(p.i1) then p.i1 * PAGE_SIZE + 0x3 else 0
  {
  }

  /** Its links, like its pages, are present, writable and the kernel's: no other flag is set. */
  lemma BootFlags(m: Memory, k: Kernel, i: Index)
    requires BootTables(m, k)
    ensures m[k.root][511] == k.pdpt * 4096 + 3 && m[k.pdpt][510] == k.pd * 4096 + 3
    ensures m[k.pd][0] == k.pt * 4096 + 3 && m[k.pt][i] == i * 4096 + 3
  {
  }

  lemma LinearEntry(i: Index)
    ensures MapsTo(i * PAGE_SIZE + 0x3, i)
  {
  }

  lemma BootInv(m: Memory, k: Kernel)
    requires BootTables(m, k)
    ensures MapInv(m, BootLabels(k), k, k.root)
  {
    forall i: Index ensures MapsTo(m[k.pt][i], i) { LinearEntry(i); }
  }

  /** Addresses the hardware accepts: bits 48-63 repeat bit 47. */
  predicate Canonical(va: Word) { va < LOWER_END || va >= TWO_64 - LOWER_END }

  /** After paging_init an address is mapped exactly when it lies in the kernel's 2 MiB, and then
      it translates to v2p of it. */
  lemma BootTranslation(m: Memory, k: Kernel, va: Word)
    requires BootTables(m, k) && Canonical(va)
    ensures Present(Entry(m, k.root, PageOf(va))) <==> KERNEL_BASE <= va < KERNEL_END
    ensures KERNEL_BASE <= va < KERNEL_END ==>
              Target(Entry(m, k.root, PageOf(va))) * PAGE_SIZE + va % PAGE_SIZE == V2p(va)
  {
    BootEntries(m, k, PageOf(va));
    LinearEntry(PageOf(va).i1);
    LinearRange(va);
  }

  lemma LinearRange(va: Word)
    requires Canonical(va)
    ensures PageOf(va) == LinearPage(PageOf(va).i1) <==> KERNEL_BASE <= va < KERNEL_END
    ensures KERNEL_BASE <= va < KERNEL_END ==> PageOf(va).i1 * PAGE_SIZE + va % PAGE_SIZE == va - KERNEL_BASE
  {
    if KERNEL_BASE <= va < KERNEL_END { InLinearRange(va); } else { OutsideLinearRange(va); }
  }

  lemma InLinearRange(va: Word)
    requires KERNEL_BASE <= va < KERNEL_END
    ensures va / TWO_39 % 512 == 511 && va / TWO_30 % 512 == 510 && va / TWO_21 % 512 == 0
    ensures va / PAGE_SIZE % 512 * PAGE_SIZE + va % PAGE_SIZE == va - KERNEL_BASE
  {
  }

  /** A canonical address's page number fixes its page. */
  lemma CanonicalPage(va: Word)
    requires Canonical(va)
    ensures va < LOWER_END ==> PageNumber(va) == va / PAGE_SIZE < 0x8_0000_0000
    ensures va >= LOWER_END ==> PageNumber(va) == va / PAGE_SIZE - 0xFFFF * 0x10_0000_0000
  {
    var x := va / PAGE_SIZE;
    if va < LOWER_END { LowDigits(x, 0, x); } else { LowDigits(x, 0xFFFF, x - 0xFFFF * 0x10_0000_0000); }
  }

  lemma OutsideLinearRange(va: Word)
    requires Canonical(va) && !(KERNEL_BASE <= va < KERNEL_END)
    ensures PageOf(va) != LinearPage(PageOf(va).i1)
  {
    PageNumberOfIndices(va);
    CanonicalPage(va);
  }

  /** memset of a table. */
  function Zeroed(m: Memory, f: nat): Memory { m[f := ZeroTable()] }

  method PagingInit(ram: Memory, pool: PagePool) returns (mem: Memory, pml4t: Word, ghost k: Kernel)
    requires PoolState(pool.nextFree) && pool.nextFree + 4 * PAGE_SIZE < POOL_END
    requires forall f: nat :: 32 <= f < 512 ==> f in ram
    modifies pool
    ensures PoolState(pool.nextFree) && pool.nextFree == old(pool.nextFree) + 4 * PAGE_SIZE
    ensures pml4t == old(pool.nextFree) && k.root * PAGE_SIZE == V2p(pml4t)
    ensures k == Kernel(k.root, k.root + 1, k.root + 2, k.root + 3) && BootTables(mem, k)
    ensures mem.Keys == ram.Keys && forall f :: f in ram && !IsKernelTable(k, f) ==> mem[f] == ram[f]
  {
    pml4t := TakePage(pool);
    var pdpt := TakePage(pool);
    var pdt := TakePage(pool);
    var pt := TakePage(pool);
    PoolFrame(pml4t);
    PoolFrame(pdpt);
    PoolFrame(pdt);
    PoolFrame(pt);
    k := Kernel(V2p(pml4t) / PAGE_SIZE, V2p(pdpt) / PAGE_SIZE, V2p(pdt) / PAGE_SIZE, V2p(pt) / PAGE_SIZE);
    mem := FillTables(ram, V2p(pml4t), V2p(pdpt), V2p(pdt), V2p(pt));
  }

  /** paging_init once its four pages are allocated: zero them and link them. */
  method FillTables(ram: Memory, pml4: Word, pdpt: Word, pdt: Word, pt: Word) returns (mem: Memory)
    requires IsFrameAddress(pml4) && IsFrameAddress(pdpt) && IsFrameAddress(pdt) && IsFrameAddress(pt)
    requires 0 < pml4 / PAGE_SIZE < pdpt / PAGE_SIZE < pdt / PAGE_SIZE < pt / PAGE_SIZE < 511
    requires pml4 / PAGE_SIZE in ram && pdpt / PAGE_SIZE in ram && pdt / PAGE_SIZE in ram && pt / PAGE_SIZE in ram
    ensures var k := Kernel(pml4 / PAGE_SIZE, pdpt / PAGE_SIZE, pdt / PAGE_SIZE, pt / PAGE_SIZE);
            && BootTables(mem, k) && mem.Keys == ram.Keys
            && forall f :: f in ram && !IsKernelTable(k, f) ==> mem[f] == ram[f]
  {
    var f4, f3, f2, f1 := pml4 / PAGE_SIZE, pdpt / PAGE_SIZE, pdt / PAGE_SIZE, pt / PAGE_SIZE;
    mem := ZeroFour(ram, f4, f3, f2, f1);
    mem := LinkZeroed(mem, f4, 511, pdpt);
    mem := LinkZeroed(mem, f3, 510, pdt);
    mem := LinkZeroed(mem, f2, 0, pt);
    mem := FillLinear(mem, f1);
  }

  /** The four memsets of paging_init. */
  method ZeroFour(ram: Memory, a: nat, b: nat, c: nat, d: nat) returns (mem: Memory)
    requires a in ram && b in ram && c in ram && d in ram && a != b && a != c && a != d && b != c && b != d && c != d
    ensures mem.Keys == ram.Keys && mem[a] == mem[b] == mem[c] == mem[d] == ZeroTable()
    ensures forall f :: f in ram && f != a && f != b && f != c && f != d ==> mem[f] == ram[f]
  {
    mem := Zeroed(Zeroed(Zeroed(Zeroed(ram, a), b), c), d);
  }

  lemma PoolFrame(va: Word)
    requires PoolState(va) && va < POOL_END
    ensures var f := V2p(va) / PAGE_SIZE; f * PAGE_SIZE == V2p(va) && 32 <= f < 511 && va == KERNEL_BASE + f * PAGE_SIZE
    ensures IsFrameAddress(V2p(va))
  {
  }

  /** `table[i] = phys | 0x03` in a zeroed table. */
  method LinkZeroed(m: Memory, f: nat, i: Index, phys: Word) returns (m': Memory)
    requires f in m && m[f] == ZeroTable() && IsFrameAddress(phys)
    ensures m'.Keys == m.Keys && OneEntry(m'[f], i, phys / PAGE_SIZE)
    ensures forall g :: g in m && g != f ==> m'[g] == m[g]
  {
    EntryFields(phys, 0x3);
    m' := Put(m, f, i, Or(phys, 0x3));
  }

  /** The loop that fills the kernel's page table. */
  method FillLinear(m: Memory, f: nat) returns (m': Memory)
    requires f in m
    ensures m'.Keys == m.Keys && LinearTable(m'[f])
    ensures forall g :: g in m && g != f ==> m'[g] == m[g]
  {
    m' := m;
    for i := 0 to 512
      invariant m'.Keys == m.Keys
      invariant forall j: Index :: j < i ==> m'[f][j] == j * PAGE_SIZE + 0x3
      invariant forall g :: g in m && g != f ==> m'[g] == m[g]
    {
      EntryFields(i * PAGE_SIZE, 0x3);
      m' := Put(m', f, i, Or(i * PAGE_SIZE, 0x3));
    }
  }

  // ---------------------------------------------------------------- the first program's root

  lemma OffsetInPage(base: Word, i: nat)
    requires base % PAGE_SIZE == 0 && i < PAGE_SIZE && base + i < TWO_64
    ensures PageOf(base + i) == PageOf(base) && (base + i) % PAGE_SIZE == i
  {
    assert (base + i) / PAGE_SIZE == base / PAGE_SIZE;
    SamePage(base + i, base);
  }

  lemma SameTables(m: Memory, f: nat, t: Table)
    requires f in m
    requires forall q: Offset :: ByteAt(m, f, q) == GetByte(t[q / 8], q % 8)
    ensures m[f] == t
  {
    WordLimit();
    forall i: Index ensures m[f][i] == t[i] {
      forall j: nat | j < 8 ensures GetByte(m[f][i], j) == GetByte(t[i], j) {
        assert ByteAt(m, f, 8 * i + j) == GetByte(t[(8 * i + j) / 8], (8 * i + j) % 8);
      }
      SameBytes(m[f][i], t[i], 8);
    }
  }

  /** The first n bytes of frame f are those of t; all other frames are as in m0. */
  ghost predicate PageCopied(m0: Memory, m: Memory, f: nat, t: Table, n: nat) {
    && m.Keys == m0.Keys && f in m
    && (forall h :: h in m0 && h != f ==> m[h] == m0[h])
    && (forall q: Offset :: q < n ==> ByteAt(m, f, q) == GetByte(t[q / 8], q % 8))
  }

  lemma PageCopiedStep(m0: Memory, m: Memory, f: nat, t: Table, i: Offset)
    requires PageCopied(m0, m, f, t, i)
    ensures PageCopied(m0, PutByte(m, f, i, GetByte(t[i / 8], i % 8)), f, t, i + 1)
  {
    var b := GetByte(t[i / 8], i % 8);
    forall q: Offset | q < i + 1 ensures ByteAt(PutByte(m, f, i, b), f, q) == GetByte(t[q / 8], q % 8) {
      PutByteAt(m, f, i, b, f, q);
    }
  }

  /** `d[i] = s[i]` between two pages. */
  method CopyByte(mc: Machine, dest: Word, src: Word, i: Offset, ghost f: nat, ghost g: nat)
    requires mc.Valid() && dest % PAGE_SIZE == 0 && src % PAGE_SIZE == 0
    requires dest + PAGE_SIZE <= TWO_64 && src + PAGE_SIZE <= TWO_64
    requires PageOf(dest) !in mc.stale && MapsTo(Entry(mc.mem, mc.cr3, PageOf(dest)), f) && f in mc.mem && f !in mc.labels
    requires PageOf(src) !in mc.stale && MapsTo(Entry(mc.mem, mc.cr3, PageOf(src)), g) && g in mc.mem
    modifies mc`mem, mc`tlb
    ensures mc.Valid() && mc.mem == PutByte(old(mc.mem), f, i, GetByte(old(mc.mem)[g][i / 8], i % 8))
    ensures SameEntries(old(mc.mem), mc.mem, mc.labels, {})
  {
    OffsetInPage(dest, i);
    OffsetInPage(src, i);
    var d, s := PageOf(dest + i), PageOf(src + i);
    var o, q := (dest + i) % PAGE_SIZE, (src + i) % PAGE_SIZE;
    var w := mc.Read(s, q / 8, g);
    StoreByte(mc, d, o, GetByte(w, q % 8), f);
  }

  /** memcpy of one page: table g, read at src, to frame f, written at dest. */
  method CopyPage(mc: Machine, dest: Word, src: Word, ghost f: nat, ghost g: nat)
    requires mc.Valid() && dest % PAGE_SIZE == 0 && src % PAGE_SIZE == 0
    requires dest + PAGE_SIZE <= TWO_64 && src + PAGE_SIZE <= TWO_64
    requires PageOf(dest) !in mc.stale && MapsTo(Entry(mc.mem, mc.cr3, PageOf(dest)), f) && f in mc.mem && f !in mc.labels
    requires PageOf(src) !in mc.stale && MapsTo(Entry(mc.mem, mc.cr3, PageOf(src)), g) && g in mc.labels
    modifies mc`mem, mc`tlb
    ensures mc.Valid() && mc.mem.Keys == old(mc.mem).Keys && g in mc.mem
    ensures mc.mem[f] == mc.mem[g] && forall h :: h in mc.mem && h != f ==> mc.mem[h] == old(mc.mem)[h]
    ensures SameEntries(old(mc.mem), mc.mem, mc.labels, {})
  {
    ghost var m0, t, p, q := mc.mem, mc.mem[g], PageOf(dest), PageOf(src);
    for i := 0 to PAGE_SIZE
      invariant mc.Valid() && PageCopied(m0, mc.mem, f, t, i)
      invariant MapsTo(Entry(mc.mem, mc.cr3, p), f) && MapsTo(Entry(mc.mem, mc.cr3, q), g)
      invariant SameEntries(m0, mc.mem, mc.labels, {})
    {
      PageCopiedStep(m0, mc.mem, f, t, i);
      CopyByte(mc, dest, src, i, f, g);
    }
    SameTables(mc.mem, f, t);
  }

  /** A copy of the kernel's root is a root with the same address space. */
  lemma AdoptRoot(m: Memory, ls: Labels, k: Kernel, cr3: nat, f: nat)
    requires MapInv(m, ls, k, cr3) && f in m && f !in ls && m[f] == m[k.root]
    ensures MapInv(m, ls[f := Root], k, cr3) && Chain(m, k, f)
    ensures forall p :: Entry(m, f, p) == Entry(m, k.root, p)
  {
    KernelLabels(m, ls, k);
  }

  /** kernel.c's address for a frame below 2 GiB. */
  function HighAddress(f: nat): Word
    requires f < 0x8_0000
  {
    f * PAGE_SIZE + KERNEL_BASE
  }

  lemma HighIndex4(f: nat)
    requires f < 0x8_0000
    ensures HighAddress(f) / TWO_39 % 512 == 511
  {
  }

  lemma HighIndex3(f: nat)
    requires f < 0x8_0000
    ensures HighAddress(f) / TWO_30 % 512 == 510 + f / 0x4_0000
  {
  }

  lemma HighIndex2(f: nat)
    requires f < 0x8_0000
    ensures HighAddress(f) / TWO_21 % 512 == f / 512 % 512
  {
    assert HighAddress(f) / TWO_21 == 0x7FF_FFFF_FC00 + f / 512;
  }

  lemma HighAligned(f: nat)
    requires f < 0x8_0000
    ensures HighAddress(f) % PAGE_SIZE == 0 && HighAddress(f) + PAGE_SIZE <= TWO_64
  {
  }

  lemma HighAddressOf(tmp: Word)
    requires tmp % PAGE_SIZE == 0 && tmp / PAGE_SIZE < 0x8_0000
    ensures (tmp + KERNEL_BASE) % TWO_64 == HighAddress(tmp / PAGE_SIZE)
  {
  }

  lemma HighPage(f: nat)
    requires 512 <= f < 0x8_0000
    ensures var p := PageOf(HighAddress(f)); p.i4 == 511 && p != LinearPage(p.i1)
  {
    HighIndex4(f);
    HighIndex3(f);
    HighIndex2(f);
    assert f / 0x4_0000 == 0 ==> f / 512 < 512;
  }

  /** The kernel is set up and no program has been: only the linear map and the window are mapped. */
  ghost predicate Booted(mc: Machine)
    reads mc, mc.pmm.bitmap
  {
    && mc.Valid() && mc.cr3 == mc.k.root && mc.stale == {}
    && (forall p :: Present(Entry(mc.mem, mc.k.root, p)) ==> p == LinearPage(p.i1))
  }

  /** The context kernel_main uses for the kernel's own root can be accessed. */
  lemma KernelContext(mc: Machine)
    requires mc.Valid()
    ensures mc.Accesses(PageTable(mc.pml4t, true), mc.k.root) && PageOf(mc.pml4t) == LinearPage(mc.k.root)
  {
    ReadyFrom(mc.mem, mc.labels, mc.k, mc.cr3, mc.tlb, mc.stale);
    LinearReaches(mc.mem, mc.k, mc.cr3, mc.tlb, mc.pml4t, mc.k.root);
  }

  /** Frames that were neither tables nor free hold what they held, and new tables were free. */
  ghost predicate SystemKept(m: Memory, ls: Labels, free: set<nat>, m': Memory, ls': Labels, free': set<nat>) {
    && (forall g :: g in m && g !in ls && g !in free ==> g in m' && m'[g] == m[g])
    && (forall g :: g in ls' ==> g in ls || g in free)
    && (forall g :: g in free' ==> g in free)
  }

  ghost predicate IsLowest(f: nat, fs: set<nat>) { f in fs && forall q :: q in fs ==> f <= q }

  /** What is known once the root's frame is mapped at its linear address: since (m0, ls0, fr0) nothing
      else was. */
  ghost predicate RootMapped(mc: Machine, f: nat, m0: Memory, ls0: Labels, fr0: set<nat>)
    reads mc, mc.pmm.bitmap
  {
    && mc.Valid() && mc.cr3 == mc.k.root && mc.stale == {}
    && 512 <= f < 0x8_0000 && f in mc.mem && f !in mc.labels && f !in mc.pmm.Free() && IsLowest(f, fr0)
    && Entry(mc.mem, mc.k.root, PageOf(HighAddress(f))) == f * PAGE_SIZE + 0x3
    && MapsTo(Entry(mc.mem, mc.k.root, PageOf(HighAddress(f))), f)
    && (forall p :: p != WINDOW && p != PageOf(HighAddress(f)) ==> Entry(mc.mem, mc.k.root, p) == Entry(m0, mc.k.root, p))
    && SystemKept(m0, ls0, fr0, mc.mem, mc.labels, mc.pmm.Free())
  }

  /** kernel_main: map the program's root at its linear address. */
  method MapRoot(mc: Machine, root: Word, tmp: Word, ghost f: nat, ghost fr0: set<nat>) returns (ok: bool)
    requires Booted(mc) && IsFrameAddress(tmp) && f == tmp / PAGE_SIZE && 512 <= f < 0x8_0000 && root == HighAddress(f)
    requires PageOf(root).i4 == 511 && PageOf(root) != LinearPage(PageOf(root).i1)
    requires IsDataFrame(mc.mem, mc.labels, f) && f !in mc.pmm.Free() && fr0 == mc.pmm.Free() + {f} && IsLowest(f, fr0)
    modifies mc, mc.pmm.bitmap
    ensures mc.Valid()
    ensures old(mc.pmm.FreeCount()) >= 3 ==> ok
    ensures ok ==> RootMapped(mc, f, old(mc.mem), old(mc.labels), fr0)
    ensures ok ==> mc.pmm.FreeCount() >= old(mc.pmm.FreeCount()) - 3
  {
    ghost var m0, ls0, fr1, page := mc.mem, mc.labels, mc.pmm.Free(), PageOf(root);
    KernelContext(mc);
    EntryFields(tmp, 0x3);
    assert !Present(Entry(mc.mem, mc.k.root, page));
    ok := mc.MapPage(PageTable(mc.pml4t, true), root, tmp, 0x3, mc.k.root);
    ChangedKeeps(m0, ls0, fr1, mc.mem, mc.labels, mc.pmm.Free(), page, fr0);
    OthersSame(m0, mc.mem, ls0, mc.k.root, page);
    assert ok ==> MapsTo(Entry(mc.mem, mc.k.root, page), f);
  }

  lemma OthersSame(m: Memory, m': Memory, ls: Labels, r: nat, page: Page)
    requires IsRoot(ls, r) && SameEntries(m, m', ls, {WINDOW, page})
    ensures forall p :: p != WINDOW && p != page ==> Entry(m', r, p) == Entry(m, r, p)
  {
  }

  lemma ChangedKeeps(m: Memory, ls: Labels, free: set<nat>, m': Memory, ls': Labels, free': set<nat>, p: Page, fr: set<nat>)
    requires Changed(m, ls, free, m', ls', free', p) && free <= fr
    ensures SystemKept(m, ls, fr, m', ls', free')
  {
  }

  /** kernel_main: take a frame for the program's root and map it. */
  method MapRootFrame(mc: Machine) returns (ok: bool, root: Word, ghost f: nat)
    requires Booted(mc) && exists p :: p in mc.pmm.Free() && p < 0x8_0000
    modifies mc, mc.pmm.bitmap
    ensures mc.Valid()
    ensures old(mc.pmm.FreeCount()) >= 4 ==> ok
    ensures ok ==> RootMapped(mc, f, old(mc.mem), old(mc.labels), old(mc.pmm.Free())) && root == HighAddress(f)
    ensures ok ==> mc.pmm.FreeCount() >= old(mc.pmm.FreeCount()) - 4
  {
    ghost var fr0 := mc.pmm.Free();
    var tmp := TakeFrame(mc);
    f := tmp / PAGE_SIZE;
    root := (tmp + KERNEL_BASE) % TWO_64;
    HighAddressOf(tmp);
    HighPage(f);
    ok := MapRoot(mc, root, tmp, f, fr0);
  }

  /** kernel_main: copy the kernel's root into the mapped frame. */
  method CopyRoot(mc: Machine, root: Word, ghost f: nat, ghost m0: Memory, ghost ls0: Labels, ghost fr0: set<nat>)
    requires RootMapped(mc, f, m0, ls0, fr0) && root == HighAddress(f)
    modifies mc`mem, mc`tlb
    ensures RootMapped(mc, f, m0, ls0, fr0) && mc.k.root in mc.mem && mc.mem[f] == mc.mem[mc.k.root]
  {
    HighPage(f);
    HighAligned(f);
    KernelContext(mc);
    CopyPage(mc, root, mc.pml4t, f, mc.k.root);
  }

  /** kernel_main: the frame of the mapped root, by get_physical_address. */
  method FindRoot(mc: Machine, root: Word, ghost f: nat, ghost m0: Memory, ghost ls0: Labels, ghost fr0: set<nat>) returns (cr3: Word)
    requires RootMapped(mc, f, m0, ls0, fr0) && root == HighAddress(f) && mc.k.root in mc.mem && mc.mem[f] == mc.mem[mc.k.root]
    modifies mc`mem, mc`tlb
    ensures RootMapped(mc, f, m0, ls0, fr0) && cr3 == f * PAGE_SIZE
    ensures mc.k.root in mc.mem && mc.mem[f] == mc.mem[mc.k.root]
  {
    HighPage(f);
    HighAligned(f);
    KernelContext(mc);
    KernelLabels(mc.mem, mc.labels, mc.k);
    ghost var m := mc.mem;
    cr3 := mc.GetPhysicalAddress(PageTable(mc.pml4t, true), root, mc.k.root);
    assert Entry(m, mc.k.root, PageOf(root)) == Entry(mc.mem, mc.k.root, PageOf(root));
  }

  /** kernel_main: make the copy the current root. */
  method EnterRoot(mc: Machine, root: Word, ghost f: nat, ghost m0: Memory, ghost ls0: Labels, ghost fr0: set<nat>) returns (ctx: PageTable)
    requires RootMapped(mc, f, m0, ls0, fr0) && root == HighAddress(f)
    modifies mc
    ensures mc.Valid() && mc.cr3 == f && mc.stale == {} && Current(mc, ctx) && ctx.pml4t == root
    ensures Entry(mc.mem, f, PageOf(root)) == f * PAGE_SIZE + 0x3
    ensures forall p :: p != WINDOW && p != PageOf(root) ==> Entry(mc.mem, f, p) == Entry(m0, mc.k.root, p)
    ensures SystemKept(m0, ls0, fr0, mc.mem, mc.labels, mc.pmm.Free()) && IsLowest(f, fr0)
  {
    CopyRoot(mc, root, f, m0, ls0, fr0);
    var cr3 := FindRoot(mc, root, f, m0, ls0, fr0);
    HighPage(f);
    HighAligned(f);
    SwitchRoot(mc, cr3, f);
    ctx := PageTable(root, false);
  }

  /** `mov cr3` with a copy of the kernel's root: from now on its frame is a root. */
  method SwitchRoot(mc: Machine, cr3: Word, ghost f: nat)
    requires mc.Valid() && cr3 == f * PAGE_SIZE
    requires f in mc.mem && f !in mc.labels && f !in mc.pmm.Free() && mc.mem[f] == mc.mem[mc.k.root]
    modifies mc
    ensures mc.Valid() && mc.cr3 == f && mc.stale == {} && IsRoot(mc.labels, f) && mc.labels == old(mc.labels)[f := Root]
    ensures mc.mem == old(mc.mem) && forall p :: Entry(mc.mem, f, p) == Entry(mc.mem, mc.k.root, p)
  {
    AdoptRoot(mc.mem, mc.labels, mc.k, mc.cr3, f);
    mc.labels := mc.labels[f := Root];
    mc.LoadCr3(cr3 / PAGE_SIZE);
  }

  // ---------------------------------------------------------------- kernel_main

  const MMAP_ENTRY_SIZE: nat := 24

  function MmapPages(n: nat): nat { (MMAP_ENTRY_SIZE * n + PAGE_SIZE - 1) / PAGE_SIZE }

  /** What the boot path takes from the machine: a sane memory map whose bitmap fits the pool next
      to the other boot pages, and RAM behind the pool and behind every usable frame. */
  ghost predicate GoodMachine(mmap: seq<MmapEntry>, ram: Memory) {
    && SaneMap(mmap) && FrameCount(mmap) <= TWO_40
    && POOL_START + (1 + MmapPages(|mmap|) + 4 + BitmapPages(mmap) + 4) * PAGE_SIZE < POOL_END
    && (forall f: nat :: 32 <= f < 512 ==> f in ram)
    && (forall f: nat :: Usable(mmap, f) && f >= 512 ==> f in ram)
  }

  /** alloc_page while the pool lasts. */
  method TakePage(pool: PagePool) returns (va: Word)
    requires PoolState(pool.nextFree) && pool.nextFree + PAGE_SIZE < POOL_END
    modifies pool
    ensures PoolState(pool.nextFree) && va == old(pool.nextFree) && pool.nextFree == va + PAGE_SIZE
  {
    va := pool.AllocPage();
  }

  method AllocPages(pool: PagePool, n: nat)
    requires PoolState(pool.nextFree) && pool.nextFree + n * PAGE_SIZE < POOL_END
    modifies pool
    ensures PoolState(pool.nextFree) && pool.nextFree == old(pool.nextFree) + n * PAGE_SIZE
  {
    for i := 0 to n
      invariant PoolState(pool.nextFree) && pool.nextFree == old(pool.nextFree) + i * PAGE_SIZE
    {
      var _ := TakePage(pool);
    }
  }

  lemma PageAligned(va: Word)
    requires va % PAGE_SIZE == 0
    ensures va % 16 == 0
  {
  }

  /** The heap's pages: heap_start is the first, heap_end the end of the fourth. */
  method HeapPages(pool: PagePool) returns (heapStart: Word, heapEnd: Word)
    requires PoolState(pool.nextFree) && pool.nextFree + 4 * PAGE_SIZE < POOL_END
    modifies pool
    ensures PoolState(pool.nextFree) && pool.nextFree == heapEnd
    ensures heapStart == old(pool.nextFree) && heapEnd == heapStart + 4 * PAGE_SIZE && heapStart % 16 == 0
  {
    heapStart := TakePage(pool);
    PageAligned(heapStart);
    heapEnd := heapStart;
    for i := 0 to 3
      invariant PoolState(pool.nextFree) && pool.nextFree == heapStart + (i + 1) * PAGE_SIZE && heapStart % 16 == 0
      invariant i > 0 ==> heapEnd == pool.nextFree
    {
      var page := TakePage(pool);
      heapEnd := page + PAGE_SIZE;
    }
  }

  /** Which pages of the pool the boot path takes, in order: frame 32 for the stack it runs on, then as
      few pages as hold the memory map's entries of 24 bytes, the four tables, the frame bitmap, and
      four pages of heap. */
  ghost predicate BootPages(entries: nat, k: Kernel, bitmap: Word, bitmapBytes: nat, heapStart: Word, heapEnd: Word) {
    && k.root >= 33 && 24 * entries <= (k.root - 33) * 4096 < 24 * entries + 4096
    && k == Kernel(k.root, k.root + 1, k.root + 2, k.root + 3)
    && bitmap == 0xFFFF_FFFF_8000_0000 + (k.root + 4) * 4096
    && heapStart == bitmap + bitmapBytes && heapEnd == heapStart + 4 * 4096 < 0xFFFF_FFFF_801F_F000
  }

  /** The bitmap is as large as the memory map needs, in bits, bytes and pages. */
  ghost predicate BitmapFits(mmap: seq<MmapEntry>, pmm: FrameAllocator) {
    && ReachesExactly(mmap, pmm.bitSize)
    && 8 * (pmm.byteSize - 1) < pmm.bitSize <= 8 * pmm.byteSize
    && pmm.bitmap.Length % 4096 == 0 && pmm.bitmap.Length - 4096 < pmm.byteSize <= pmm.bitmap.Length
  }

  /** kernel_main up to heap_init. */
  method BringUp(mmap: seq<MmapEntry>, ram: Memory) returns (mc: Machine, heapStart: Word, heapEnd: Word)
    requires GoodMachine(mmap, ram)
    ensures fresh(mc) && fresh(mc.pmm) && fresh(mc.pmm.bitmap) && mc.Valid()
    ensures mc.cr3 == mc.k.root && mc.stale == {} && BootTables(mc.mem, mc.k) && mc.labels == BootLabels(mc.k)
    ensures forall f: nat :: f in mc.pmm.Free() <==> f >= 512 && Usable(mmap, f)
    ensures BootPages(|mmap|, mc.k, mc.pmm.base, mc.pmm.bitmap.Length, heapStart, heapEnd) && BitmapFits(mmap, mc.pmm)
    ensures mc.mem.Keys == ram.Keys && forall f :: f in ram && !IsKernelTable(mc.k, f) ==> mc.mem[f] == ram[f]
    ensures heapStart % 16 == 0
  {
    var pool := new PagePool();
    var mem, pml4t;
    ghost var k;
    mem, pml4t, k := SetUpPages(pool, |mmap|, ram);
    var pmm;
    pmm, heapStart, heapEnd := SetUpFrames(pool, mmap);
    BootInv(mem, k);
    BootFrames(mem, k, pmm.Free(), mmap, ram);
    mc := new Machine(mem, pml4t, pmm, k, BootLabels(k));
  }

  /** kernel_main from pmm_init up to heap_init. */
  method SetUpFrames(pool: PagePool, mmap: seq<MmapEntry>) returns (pmm: FrameAllocator, heapStart: Word, heapEnd: Word)
    requires SaneMap(mmap) && PoolState(pool.nextFree) && pool.nextFree + (BitmapPages(mmap) + 4) * PAGE_SIZE < POOL_END
    modifies pool
    ensures fresh(pmm) && fresh(pmm.bitmap) && pmm.Valid() && BitmapFits(mmap, pmm)
    ensures pmm.base == old(pool.nextFree) && heapStart == pmm.base + pmm.bitmap.Length
    ensures heapStart % 16 == 0 && heapEnd == heapStart + 4 * 4096 < POOL_END
    ensures forall f: nat :: f in pmm.Free() <==> f >= 512 && Usable(mmap, f)
  {
    pmm := new FrameAllocator(mmap, pool);
    heapStart, heapEnd := HeapPages(pool);
  }

  /** kernel_main up to paging_init, on a fresh pool. */
  method SetUpPages(pool: PagePool, entries: nat, ram: Memory) returns (mem: Memory, pml4t: Word, ghost k: Kernel)
    requires pool.nextFree == POOL_START && POOL_START + (1 + MmapPages(entries) + 4) * PAGE_SIZE < POOL_END
    requires forall f: nat :: 32 <= f < 512 ==> f in ram
    modifies pool
    ensures PoolState(pool.nextFree) && pool.nextFree == 0xFFFF_FFFF_8000_0000 + (k.root + 4) * 4096
    ensures pool.nextFree == POOL_START + (1 + MmapPages(entries) + 4) * PAGE_SIZE
    ensures pml4t == k.root * PAGE_SIZE + KERNEL_BASE && BootTables(mem, k)
    ensures k.root >= 33 && 24 * entries <= (k.root - 33) * 4096 < 24 * entries + 4096
    ensures k == Kernel(k.root, k.root + 1, k.root + 2, k.root + 3)
    ensures mem.Keys == ram.Keys && forall f :: f in ram && !IsKernelTable(k, f) ==> mem[f] == ram[f]
  {
    AllocPages(pool, 1 + MmapPages(entries)); // the stack, then the memory map
    mem, pml4t, k := PagingInit(ram, pool);
    MmapPagesTight(entries);
  }

  lemma MmapPagesTight(n: nat)
    ensures 24 * n <= MmapPages(n) * 4096 < 24 * n + 4096
  {
  }

  lemma BootFrames(m: Memory, k: Kernel, free: set<nat>, mmap: seq<MmapEntry>, ram: Memory)
    requires GoodMachine(mmap, ram) && BootTables(m, k) && m.Keys == ram.Keys
    requires forall f: nat :: f in free <==> f >= 512 && Usable(mmap, f)
    ensures FramesOk(m, BootLabels(k), free)
  {
    forall f | f in free ensures f in m && 512 <= f < TWO_40 { UsableBelowCount(mmap, f); }
  }

  /** The pages the first program's root maps: the linear map, the root itself at its high address,
      and the pages of the addresses the image asks for. */
  ghost predicate ProgramPage(p: Page, r: nat, elf: Image) {
    || p == LinearPage(p.i1)
    || (r < 0x8_0000 && p == PageOf(HighAddress(r)))
    || WantedPage(elf, p)
  }

  /** The page of an address the image asks for. */
  ghost predicate WantedPage(elf: Image, p: Page) { exists a: nat :: a < LOWER_END && Wanted(elf, a) && p == PageOf(a) }

  /** The address space root r gives the image's program: the kernel's linear map and the root as they
      were set up, every loadable segment in place, a writable stack page, and no other page. */
  ghost predicate ProgramSpace(m: Memory, r: nat, elf: Image) {
    && r < 0x8_0000
    && (forall i: Index :: i != 511 ==> Entry(m, r, LinearPage(i)) == i * PAGE_SIZE + 0x3)
    && Entry(m, r, PageOf(HighAddress(r))) == r * PAGE_SIZE + 0x3
    && SegmentsAt(m, r, elf) && StackAt(m, r)
    && (forall p: Page :: Present(Entry(m, r, p)) ==> ProgramPage(p, r, elf))
  }

  /** The frames pmm_init leaves free. */
  ghost function UsableFrames(mmap: seq<MmapEntry>): set<nat> {
    set f: nat | f < FrameCount(mmap) && f >= 512 && Usable(mmap, f)
  }

  lemma FreeIsUsable(free: set<nat>, mmap: seq<MmapEntry>)
    requires forall f: nat :: f in free <==> f >= 512 && Usable(mmap, f)
    ensures free == UsableFrames(mmap)
  {
    forall f: nat | Usable(mmap, f) ensures f < FrameCount(mmap) { UsableBelowCount(mmap, f); }
  }

  /** Nothing of the lower half is mapped. */
  lemma LowerIsFresh(m: Memory, r: nat, phs: seq<Phdr>)
    requires forall p: Page :: p.i4 < 256 ==> !Present(Entry(m, r, p))
    ensures FreshPages(m, r, {}, phs)
  {
    forall v: nat | v < LOWER_PAGES ensures UserPage(v).i4 < 256 { UserPages(v, v); }
  }

  /** kernel_main after heap_init: make the first program's root and load the program. */
  method StartProgram(mc: Machine, elf: Image) returns (outcome: Outcome, ghost d: Placement)
    requires mc.Valid() && mc.cr3 == mc.k.root && mc.stale == {} && BootTables(mc.mem, mc.k)
    requires exists f :: f in mc.pmm.Free() && f < 0x8_0000
    requires |elf| >= EHDR_SIZE && (HeaderError(elf) == 0 ==> TableInside(elf) && GoodSegments(elf, Phdrs(elf)))
    modifies mc, mc.pmm.bitmap
    ensures mc.Valid()
    ensures outcome.Entered? ==> HeaderError(elf) == 0 && outcome.entry == Field(elf, 24, 8)
    ensures outcome.Entered? ==> ProgramSpace(mc.mem, mc.cr3, elf)
    ensures outcome.BadImage? ==> outcome.code == HeaderError(elf) != 0
    ensures HeaderError(elf) == 0 && old(mc.pmm.FreeCount()) >= 4 + Cost(Phdrs(elf), 0) ==> outcome.Entered?
    ensures HeaderError(elf) != 0 && old(mc.pmm.FreeCount()) >= 4 ==> outcome.BadImage?
    ensures outcome.Entered? || outcome.BadImage? ==> KernelKept(old(mc.mem), old(mc.labels), old(mc.pmm.Free()), mc.mem)
    ensures outcome.Entered? || outcome.BadImage? ==> IsLowest(mc.cr3, old(mc.pmm.Free()))
  {
    d := map[];
    ghost var m0, ls0, fr0 := mc.mem, mc.labels, mc.pmm.Free();
    forall p ensures Present(Entry(m0, mc.k.root, p)) ==> p == LinearPage(p.i1) { BootEntries(m0, mc.k, p); }
    var ok, root;
    ghost var f;
    ok, root, f := MapRootFrame(mc);
    if !ok { return Halted, d; }
    var ctx := EnterRoot(mc, root, f, m0, ls0, fr0);
    ghost var m1, ls1, fr1 := mc.mem, mc.labels, mc.pmm.Free();
    outcome, d := LoadProgram(mc, ctx, elf, f, m0);
    if outcome.Entered? || outcome.BadImage? { KeptThrough(m0, ls0, fr0, m1, ls1, fr1, mc.mem); }
  }

  /** Every frame that was neither a table nor free holds what it held. */
  ghost predicate KernelKept(m: Memory, ls: Labels, free: set<nat>, m': Memory) {
    forall g :: g in m && g !in ls && g !in free ==> g in m' && m'[g] == m[g]
  }

  lemma KeptThrough(m0: Memory, ls0: Labels, fr0: set<nat>, m1: Memory, ls1: Labels, fr1: set<nat>, m2: Memory)
    requires SystemKept(m0, ls0, fr0, m1, ls1, fr1) && KernelKept(m1, ls1, fr1, m2)
    ensures KernelKept(m0, ls0, fr0, m2)
  {
  }

  /** Nothing but the linear map and the root itself is mapped under the new root. */
  ghost predicate RootEntered(mc: Machine, f: nat, m0: Memory)
    reads mc, mc.pmm.bitmap
  {
    && mc.Valid() && mc.cr3 == f && mc.stale == {} && 512 <= f < 0x8_0000 && BootTables(m0, mc.k)
    && Entry(mc.mem, f, PageOf(HighAddress(f))) == f * PAGE_SIZE + 0x3
    && (forall p :: p != WINDOW && p != PageOf(HighAddress(f)) ==> Entry(mc.mem, f, p) == Entry(m0, mc.k.root, p))
  }

  /** kernel_main: load_elf under the new root. */
  method LoadProgram(mc: Machine, ctx: PageTable, elf: Image, ghost f: nat, ghost m0: Memory) returns (outcome: Outcome, ghost d: Placement)
    requires RootEntered(mc, f, m0) && Current(mc, ctx)
    requires |elf| >= EHDR_SIZE && (HeaderError(elf) == 0 ==> TableInside(elf) && GoodSegments(elf, Phdrs(elf)))
    modifies mc, mc.pmm.bitmap
    ensures mc.Valid() && mc.cr3 == old(mc.cr3)
    ensures outcome.Entered? ==> HeaderError(elf) == 0 && outcome.entry == Field(elf, 24, 8)
    ensures outcome.Entered? ==> ProgramSpace(mc.mem, mc.cr3, elf)
    ensures outcome.BadImage? ==> outcome.code == HeaderError(elf) != 0
    ensures HeaderError(elf) == 0 && old(mc.pmm.FreeCount()) >= Cost(Phdrs(elf), 0) ==> outcome.Entered?
    ensures HeaderError(elf) != 0 ==> outcome.BadImage?
    ensures outcome.Entered? || outcome.BadImage? ==> KernelKept(old(mc.mem), old(mc.labels), old(mc.pmm.Free()), mc.mem)
  {
    ghost var m1, ls1 := mc.mem, mc.labels;
    LowerIsFree(m0, mc.k, m1, f);
    if HeaderError(elf) == 0 { LowerIsFresh(m1, f, Phdrs(elf)); }
    outcome, d := LoadElf(mc, ctx, elf);
    if outcome.Entered? {
      ProgramSpaceIs(m0, mc.k, m1, ls1, mc.mem, f, d, elf);
      NotPlaced(m1, ls1, old(mc.pmm.Free()), mc.mem);
    }
  }

  lemma NotPlaced(m: Memory, ls: Labels, free: set<nat>, m': Memory)
    requires RestKept(m, ls, free, map[], m')
    ensures KernelKept(m, ls, free, m')
  {
  }

  lemma LowerIsFree(m0: Memory, k: Kernel, m1: Memory, r: nat)
    requires BootTables(m0, k) && 512 <= r < 0x8_0000
    requires forall p :: p != WINDOW && p != PageOf(HighAddress(r)) ==> Entry(m1, r, p) == Entry(m0, k.root, p)
    ensures forall p: Page :: p.i4 < 256 ==> !Present(Entry(m1, r, p))
  {
    HighPage(r);
    forall p: Page | p.i4 < 256 ensures !Present(Entry(m1, r, p)) { BootEntries(m0, k, p); }
  }

  /** Loading changes no page but those the image asks for and the window. */
  lemma OtherPage(m1: Memory, ls1: Labels, m: Memory, r: nat, d: Placement, elf: Image, p: Page)
    requires TableInside(elf) && IsRoot(ls1, r) && ProgramLoaded(m1, ls1, m, r, d, elf, Phdrs(elf)) && p != WINDOW
    requires !WantedPage(elf, p)
    ensures Entry(m, r, p) == Entry(m1, r, p)
  {
    if p in PlacedPages(d) {
      var v :| v in d && v < LOWER_PAGES && UserPage(v) == p;
      NeededIsWanted(elf, v);
      var a: nat :| a / PAGE_SIZE == v && Wanted(elf, a);
      UserAddress(a);
    }
  }

  lemma UpperPage(m1: Memory, ls1: Labels, m: Memory, r: nat, d: Placement, elf: Image, p: Page)
    requires TableInside(elf) && IsRoot(ls1, r) && ProgramLoaded(m1, ls1, m, r, d, elf, Phdrs(elf))
    requires p != WINDOW && p.i4 >= 256
    ensures Entry(m, r, p) == Entry(m1, r, p)
  {
    forall a: nat | a < LOWER_END ensures PageOf(a).i4 < 256 {
      UserAddress(a);
      UserPages(a / PAGE_SIZE, a / PAGE_SIZE);
    }
    OtherPage(m1, ls1, m, r, d, elf, p);
  }

  lemma LinearKept(m0: Memory, k: Kernel, m1: Memory, ls1: Labels, m: Memory, r: nat, d: Placement, elf: Image, i: Index)
    requires BootTables(m0, k) && IsRoot(ls1, r) && 512 <= r < 0x8_0000 && TableInside(elf) && i != 511
    requires forall p :: p != WINDOW && p != PageOf(HighAddress(r)) ==> Entry(m1, r, p) == Entry(m0, k.root, p)
    requires ProgramLoaded(m1, ls1, m, r, d, elf, Phdrs(elf))
    ensures Entry(m, r, LinearPage(i)) == i * PAGE_SIZE + 0x3
  {
    HighPage(r);
    BootEntries(m0, k, LinearPage(i));
    UpperPage(m1, ls1, m, r, d, elf, LinearPage(i));
  }

  lemma NothingElse(m0: Memory, k: Kernel, m1: Memory, ls1: Labels, m: Memory, r: nat, d: Placement, elf: Image, p: Page)
    requires BootTables(m0, k) && IsRoot(ls1, r) && 512 <= r < 0x8_0000 && TableInside(elf)
    requires forall p :: p != WINDOW && p != PageOf(HighAddress(r)) ==> Entry(m1, r, p) == Entry(m0, k.root, p)
    requires ProgramLoaded(m1, ls1, m, r, d, elf, Phdrs(elf))
    requires p != LinearPage(p.i1) && p != PageOf(HighAddress(r)) && !WantedPage(elf, p)
    ensures Entry(m, r, p) == 0
  {
    OtherPage(m1, ls1, m, r, d, elf, p);
    BootEntries(m0, k, p);
  }

  lemma ProgramSpaceIs(m0: Memory, k: Kernel, m1: Memory, ls1: Labels, m: Memory, r: nat, d: Placement, elf: Image)
    requires BootTables(m0, k) && IsRoot(ls1, r) && 512 <= r < 0x8_0000 && TableInside(elf)
    requires Entry(m1, r, PageOf(HighAddress(r))) == r * PAGE_SIZE + 0x3
    requires forall p :: p != WINDOW && p != PageOf(HighAddress(r)) ==> Entry(m1, r, p) == Entry(m0, k.root, p)
    requires ProgramLoaded(m1, ls1, m, r, d, elf, Phdrs(elf)) && SegmentsAt(m, r, elf) && StackAt(m, r)
    ensures ProgramSpace(m, r, elf)
  {
    HighPage(r);
    UpperPage(m1, ls1, m, r, d, elf, PageOf(HighAddress(r)));
    forall i: Index | i != 511 ensures Entry(m, r, LinearPage(i)) == i * PAGE_SIZE + 0x3 {
      LinearKept(m0, k, m1, ls1, m, r, d, elf, i);
    }
    forall p: Page | Present(Entry(m, r, p)) ensures ProgramPage(p, r, elf) {
      if !ProgramPage(p, r, elf) { NothingElse(m0, k, m1, ls1, m, r, d, elf, p); }
    }
  }

  /** From power-up to the first program: on any such machine with a usable frame below 2 GiB and any
      such image, the boot path's pages lie as BootPages says and keep what they held, the program gets
      exactly the address space its file asks for beside the kernel's linear map, a bad header is
      rejected, and with enough memory nothing fails on the way. */
  method KernelMain(mmap: seq<MmapEntry>, ram: Memory, elf: Image)
    returns (mc: Machine, outcome: Outcome, heapStart: Word, heapEnd: Word, ghost d: Placement)
    requires GoodMachine(mmap, ram) && exists f: nat :: 512 <= f < 0x8_0000 && Usable(mmap, f)
    requires |elf| >= EHDR_SIZE && (HeaderError(elf) == 0 ==> TableInside(elf) && GoodSegments(elf, Phdrs(elf)))
    ensures mc.Valid()
    ensures BootPages(|mmap|, mc.k, mc.pmm.base, mc.pmm.bitmap.Length, heapStart, heapEnd) && BitmapFits(mmap, mc.pmm)
    ensures outcome.Entered? ==> HeaderError(elf) == 0 && outcome.entry == Field(elf, 24, 8)
    ensures outcome.Entered? ==> ProgramSpace(mc.mem, mc.cr3, elf)
    ensures outcome.BadImage? ==> outcome.code == HeaderError(elf) != 0
    ensures outcome.Entered? || outcome.BadImage? ==>
              forall f :: f in ram && !IsKernelTable(mc.k, f) && (f < 512 || !Usable(mmap, f)) ==> f in mc.mem && mc.mem[f] == ram[f]
    ensures outcome.Entered? || outcome.BadImage? ==> IsLowest(mc.cr3, UsableFrames(mmap))
    ensures HeaderError(elf) == 0 && |UsableFrames(mmap)| >= 4 + Cost(Phdrs(elf), 0) ==> outcome.Entered?
    ensures HeaderError(elf) != 0 && |UsableFrames(mmap)| >= 4 ==> outcome.BadImage?
  {
    mc, heapStart, heapEnd := BringUp(mmap, ram);
    FreeIsUsable(mc.pmm.Free(), mmap);
    ghost var m0, fr0 := mc.mem, mc.pmm.Free();
    outcome, d := StartProgram(mc, elf);
    if outcome.Entered? || outcome.BadImage? { SystemFrames(mmap, ram, m0, mc.k, fr0, mc.mem); }
  }

  /** Frames that are none of the four tables, and not for allocation, are as at power-up. */
  lemma SystemFrames(mmap: seq<MmapEntry>, ram: Memory, m0: Memory, k: Kernel, fr0: set<nat>, m: Memory)
    requires m0.Keys == ram.Keys && forall f :: f in ram && !IsKernelTable(k, f) ==> m0[f] == ram[f]
    requires (forall f: nat :: f in fr0 <==> f >= 512 && Usable(mmap, f)) && KernelKept(m0, BootLabels(k), fr0, m)
    ensures forall f :: f in ram && !IsKernelTable(k, f) && (f < 512 || !Usable(mmap, f)) ==> f in m && m[f] == ram[f]
  {
  }

  /** The frames of the stack the boot path runs on and of the memory map's entries lie below the tables,
      the tables below the bitmap: so those frames hold at the end what they held at power-up. */
  lemma StackAndMapKept(entries: nat, k: Kernel, bitmap: Word, bitmapBytes: nat, heapStart: Word, heapEnd: Word, f: nat)
    requires BootPages(entries, k, bitmap, bitmapBytes, heapStart, heapEnd)
    requires f == 32 || 33 * 4096 <= f * 4096 < 33 * 4096 + 24 * entries
    ensures f < k.root && k.root + 3 < 512 && !IsKernelTable(k, f)
    ensures 0xFFFF_FFFF_8000_0000 + (k.root + 3) * 4096 + 4096 <= bitmap <= heapStart < heapEnd
  {
  }

  // ---------------------------------------------------------------- where unmap_page falls short

  /** The first page of an empty region gets a new page table, with no entry beside the page's. */
  lemma NewTable(m: Memory, k: Kernel, free: set<nat>, m': Memory, ls': Labels, free': set<nat>, p: Page)
    requires Changed(m, BootLabels(k), free, m', ls', free', p) && TablesOk(m', ls') && IsRoot(ls', k.root)
    requires p.i4 < 256 && Table1(m', k.root, p).Some?
    ensures var t := Table1(m', k.root, p).value; t in free && t in m' && t in ls' && !PresentBeside(m'[t], p.i1)
  {
    WalkLabels(m', ls', k.root, p);
  }

  /** A page of the lower half mapped after boot: its page table is new and holds nothing else. */
  method MapFirst(mc: Machine, va: Word, flags: Word) returns (ok: bool)
    requires mc.Valid() && mc.cr3 == mc.k.root && mc.labels == BootLabels(mc.k) && BootTables(mc.mem, mc.k)
    requires PageOf(va).i4 < 256 && IsFlags(flags) && mc.pmm.FreeCount() >= 4
    modifies mc, mc.pmm.bitmap
    ensures ok && mc.Valid() && old(mc.pmm.FreeCount()) - 4 <= mc.pmm.FreeCount()
    ensures var t := Table1(mc.mem, mc.k.root, PageOf(va));
            && t.Some? && t.value in old(mc.pmm.Free()) && t.value in mc.mem && t.value in mc.labels
            && !PresentBeside(mc.mem[t.value], PageOf(va).i1)
    ensures forall p: Page :: p.i4 < 256 && p != PageOf(va) ==> Entry(mc.mem, mc.k.root, p) == 0
  {
    var frame := TakeFrame(mc);
    ghost var m, free := mc.mem, mc.pmm.Free();
    assert |free| == old(mc.pmm.FreeCount()) - 1;
    KernelContext(mc);
    ok := mc.MapPage(PageTable(mc.pml4t, true), va, frame, flags, mc.k.root);
    NewTable(m, mc.k, free, mc.mem, mc.labels, mc.pmm.Free(), PageOf(va));
    OthersAbsent(m, mc.k, mc.mem, PageOf(va));
  }

  lemma OthersAbsent(m: Memory, k: Kernel, m': Memory, p: Page)
    requires BootTables(m, k) && SameEntries(m, m', BootLabels(k), {WINDOW, p})
    ensures forall q: Page :: q.i4 < 256 && q != p ==> Entry(m', k.root, q) == 0
  {
    forall q: Page | q.i4 < 256 && q != p ensures Entry(m', k.root, q) == 0 { BootEntries(m, k, q); }
  }

  /** After boot, mapping one page of the lower half and unmapping it leaves its page table linked and
      free at once. */
  method MapThenUnmap(mc: Machine, va: Word, flags: Word) returns (ok: bool)
    requires mc.Valid() && mc.cr3 == mc.k.root && mc.labels == BootLabels(mc.k) && BootTables(mc.mem, mc.k)
    requires PageOf(va).i4 < 256 && IsFlags(flags) && mc.pmm.FreeCount() >= 4
    modifies mc, mc.pmm.bitmap
    ensures ok && !mc.Valid()
    ensures var t := Table1(mc.mem, mc.k.root, PageOf(va)); t.Some? && t.value in mc.labels && t.value in mc.pmm.Free()
  {
    ok := MapFirst(mc, va, flags);
    KernelContext(mc);
    mc.UnmapPage(PageTable(mc.pml4t, true), va, mc.k.root);
  }

  lemma ZeroTarget()
    ensures Target(0) == 0
  {
  }

  /** Unmapping a page that is not mapped, beside one that is, frees frame 0; pmm_alloc then answers
      NULL although frames are left. */
  method UnmapAbsent(mc: Machine, va: Word, beside: Word, flags: Word) returns (ok: bool, a: Word)
    requires mc.Valid() && mc.cr3 == mc.k.root && mc.labels == BootLabels(mc.k) && BootTables(mc.mem, mc.k)
    requires PageOf(va).i4 < 256 && IsFlags(flags) && mc.pmm.FreeCount() >= 5
    requires PageOf(beside) == PageOf(va).(i1 := PageOf(beside).i1) && PageOf(beside) != PageOf(va)
    modifies mc, mc.pmm.bitmap
    ensures ok && a == NULL && mc.pmm.Free() != {}
  {
    ok := MapFirst(mc, va, flags);
    ghost var page, free := PageOf(beside), mc.pmm.Free();
    assert 0 !in free && mc.pmm.Tracked(0) == {0};
    assert Entry(mc.mem, mc.k.root, page) == 0;
    ZeroTarget();
    assert Table1(mc.mem, mc.k.root, page) == Table1(mc.mem, mc.k.root, PageOf(va));
    KernelContext(mc);
    mc.UnmapPage(PageTable(mc.pml4t, true), beside, mc.k.root);
    assert free + {0} <= mc.pmm.Free();
    a := mc.pmm.Alloc();
  }
}
