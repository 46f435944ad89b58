/** Bytes of physical memory, and the pages of a program while it is being loaded. */
module UserSpace {
  import opened Words
  import opened Bytes
  import opened Pool
  import opened PageTables
  import opened KernelSpace
  import opened Addresses
  import opened MapPath

  // ---------------------------------------------------------------- bytes in frames

  type Offset = n: nat | n < 4096

  function ByteAt(m: Memory, f: nat, o: Offset): Byte
    requires f in m
  {
    GetByte(m[f][o / 8], o % 8)
  }

  function PutByte(m: Memory, f: nat, o: Offset, b: Byte): (m': Memory)
    requires f in m
    ensures m'.Keys == m.Keys
  {
    ByteFits(m[f][o / 8], o % 8, b);
    Put(m, f, o / 8, SetByte(m[f][o / 8], o % 8, b))
  }

  lemma ByteFits(w: Word, k: nat, b: Byte)
    requires k < 8
    ensures SetByte(w, k, b) < TWO_64
  {
    WordLimit();
    SetByteBound(w, k, b, 8);
  }

  lemma PutByteAt(m: Memory, f: nat, o: Offset, b: Byte, g: nat, q: Offset)
    requires f in m && g in m
    ensures ByteAt(PutByte(m, f, o, b), g, q) == if g == f && q == o then b else ByteAt(m, g, q)
  {
    ByteFits(m[f][o / 8], o % 8, b);
    if g == f && q / 8 == o / 8 {
      GetSetByte(m[f][o / 8], o % 8, b, q % 8);
      assert q % 8 == o % 8 ==> q == o;
    }
  }

  /** Writing a frame that is not a table changes no address space. */
  lemma DataWrite(m: Memory, m': Memory, ls: Labels, k: Kernel, cr3: nat)
    requires MapInv(m, ls, k, cr3)
    requires m'.Keys == m.Keys && forall f :: f in ls ==> m'[f] == m[f]
    ensures MapInv(m', ls, k, cr3) && SameEntries(m, m', ls, {})
    ensures m'[k.pt] == m[k.pt]
  {
    KernelLabels(m, ls, k);
    forall r, p | IsRoot(ls, r) ensures Entry(m', r, p) == Entry(m, r, p) {
      WalkLabels(m, ls, r, p);
    }
  }

  // ---------------------------------------------------------------- lower-half pages

  const LOWER_PAGES: int := 0x8_0000_0000
  const LOWER_END: int := 0x8000_0000_0000

  /** The page with this number, in the lower half. */
  function UserPage(v: nat): Page
    requires v < LOWER_PAGES
  {
    PageOf(v * PAGE_SIZE)
  }

  lemma UserPages(v: nat, w: nat)
    requires v < LOWER_PAGES && w < LOWER_PAGES
    ensures UserPage(v) == UserPage(w) ==> v == w
    ensures UserPage(v).i4 < 256
  {
    SamePage(v * PAGE_SIZE, w * PAGE_SIZE);
    SmallPageNumber(v);
    SmallPageNumber(w);
  }

  lemma SmallPageNumber(v: nat)
    requires v < LOWER_PAGES
    ensures PageNumber(v * PAGE_SIZE) == v
    ensures PageOf(v * PAGE_SIZE).i4 < 256
  {
    assert v * PAGE_SIZE / PAGE_SIZE == v;
    assert v * PAGE_SIZE / TWO_39 == v / 0x800_0000;
  }

  lemma UserAddress(a: nat)
    requires a < LOWER_END
    ensures a / PAGE_SIZE < LOWER_PAGES && PageOf(a) == UserPage(a / PAGE_SIZE)
  {
    SmallPageNumber(a / PAGE_SIZE);
    SamePage(a, a / PAGE_SIZE * PAGE_SIZE);
  }

  // ---------------------------------------------------------------- a program's pages

  /** The frame given to a page and the entry that maps it. */
  datatype Slot = Slot(frame: nat, entry: Word)

  /** A program's pages, by page number. */
  type Placement = map<nat, Slot>

  ghost predicate Placed(m: Memory, ls: Labels, free: set<nat>, r: nat, d: Placement) {
    && (forall v :: v in d ==> v < LOWER_PAGES && Entry(m, r, UserPage(v)) == d[v].entry && MapsTo(d[v].entry, d[v].frame))
    && (forall v :: v in d ==> d[v].frame in m && d[v].frame !in ls && d[v].frame !in free)
    && (forall v, w :: v in d && w in d && d[v].frame == d[w].frame ==> v == w)
  }

  /** The byte at a placed address. */
  function UserByte(m: Memory, d: Placement, a: nat): Byte
    requires a / PAGE_SIZE in d && d[a / PAGE_SIZE].frame in m
  {
    ByteAt(m, d[a / PAGE_SIZE].frame, a % PAGE_SIZE)
  }

  ghost predicate PagesIn(lo: nat, hi: nat, d: Placement, stale: set<Page>) {
    hi <= LOWER_END && forall a :: lo <= a < hi ==> a / PAGE_SIZE in d && PageOf(a) !in stale
  }

  /** Only placed frames differ. */
  ghost predicate OnlyPlaced(m: Memory, m': Memory, d: Placement) {
    m'.Keys == m.Keys && forall f :: f in m && (forall v :: v in d ==> d[v].frame != f) ==> m'[f] == m[f]
  }

  lemma UserByteStored(m: Memory, ls: Labels, free: set<nat>, r: nat, d: Placement, a: nat, b: Byte)
    requires Placed(m, ls, free, r, d) && a / PAGE_SIZE in d
    ensures var m' := PutByte(m, d[a / PAGE_SIZE].frame, a % PAGE_SIZE, b);
            && OnlyPlaced(m, m', d)
            && forall c: nat :: c / PAGE_SIZE in d ==> UserByte(m', d, c) == if c == a then b else UserByte(m, d, c)
  {
    var m' := PutByte(m, d[a / PAGE_SIZE].frame, a % PAGE_SIZE, b);
    forall c: nat | c / PAGE_SIZE in d
      ensures UserByte(m', d, c) == if c == a then b else UserByte(m, d, c)
    {
      PutByteAt(m, d[a / PAGE_SIZE].frame, a % PAGE_SIZE, b, d[c / PAGE_SIZE].frame, c % PAGE_SIZE);
    }
  }

  /** Writes to placed frames keep the tables and the placement. */
  lemma PlacedWrite(m: Memory, m': Memory, ls: Labels, free: set<nat>, k: Kernel, cr3: nat, d: Placement)
    requires MapInv(m, ls, k, cr3) && Placed(m, ls, free, cr3, d) && OnlyPlaced(m, m', d)
    ensures MapInv(m', ls, k, cr3) && SameEntries(m, m', ls, {}) && Placed(m', ls, free, cr3, d)
  {
    DataWrite(m, m', ls, k, cr3);
  }

  /** The first n bytes of src were stored at dest, and nothing else at placed addresses. */
  ghost predicate Copied(m: Memory, m': Memory, d: Placement, dest: nat, src: seq<Byte>, n: nat)
    requires n <= |src|
  {
    && OnlyPlaced(m, m', d)
    && (forall v :: v in d ==> d[v].frame in m)
    && (forall a: nat :: a / PAGE_SIZE in d ==>
          UserByte(m', d, a) == if dest <= a < dest + n then src[a - dest] else UserByte(m, d, a))
  }

  lemma CopiedStep(m: Memory, m': Memory, m2: Memory, d: Placement, dest: nat, src: seq<Byte>, n: nat)
    requires n < |src| && Copied(m, m', d, dest, src, n) && OnlyPlaced(m', m2, d)
    requires forall c: nat :: c / PAGE_SIZE in d ==>
               UserByte(m2, d, c) == if c == dest + n then src[n] else UserByte(m', d, c)
    ensures Copied(m, m2, d, dest, src, n + 1)
  {
  }

  /** The entries of the placed pages. */
  ghost function PlacedPages(d: Placement): set<Page> { set v | v in d && v < LOWER_PAGES :: UserPage(v) }

  lemma PlacedKept(m: Memory, ls: Labels, free: set<nat>, m': Memory, ls': Labels, free': set<nat>,
                   r: nat, d: Placement, p: Page, f: nat, u: nat)
    requires Placed(m, ls, free, r, d) && IsRoot(ls, r) && f in free
    requires Changed(m, ls, free - {f}, m', ls', free', p)
    requires u in d && UserPage(u) != p && UserPage(u) != WINDOW
    ensures var g := d[u].frame;
            && Entry(m', r, UserPage(u)) == d[u].entry
            && g != f && g in m && g in m' && m'[g] == m[g] && g !in ls' && g !in free'
  {
  }

  /** The frames of placed pages hold what they held. */
  ghost predicate Intact(m: Memory, m': Memory, d: Placement) {
    forall v :: v in d ==> d[v].frame in m && d[v].frame in m' && m'[d[v].frame] == m[d[v].frame]
  }

  ghost predicate IsPlaced(d: Placement, f: nat) { exists v :: v in d && d[v].frame == f }

  /** Frames that were neither tables, nor free, nor the program's hold what they held. */
  ghost predicate RestKept(m: Memory, ls: Labels, free: set<nat>, d: Placement, m': Memory) {
    forall f :: f in m && f !in ls && f !in free && !IsPlaced(d, f) ==> f in m' && m'[f] == m[f]
  }

  /** New tables and newly placed frames were free. */
  ghost predicate FromFree(ls: Labels, free: set<nat>, d: Placement, ls': Labels, free': set<nat>, d': Placement) {
    && (forall f :: f in ls' ==> f in ls || f in free)
    && (forall f :: f in free' ==> f in free)
    && (forall v :: v in d' ==> v in d || d'[v].frame in free)
  }

  /** Pages were added to a program; nothing else changed outside the window. */
  ghost predicate Grown(m: Memory, ls: Labels, free: set<nat>, d: Placement,
                        m': Memory, ls': Labels, free': set<nat>, d': Placement) {
    && m'.Keys == m.Keys
    && SameEntries(m, m', ls, {WINDOW} + PlacedPages(d'))
    && (forall f :: f in ls ==> f in ls' && ls'[f] == ls[f])
    && (forall v :: v in d ==> v in d' && d'[v] == d[v])
    && RestKept(m, ls, free, d, m') && FromFree(ls, free, d, ls', free', d')
  }

  /** Growth that leaves the bytes of the pages placed before alone. */
  ghost predicate Progress(m: Memory, ls: Labels, free: set<nat>, d: Placement,
                           m': Memory, ls': Labels, free': set<nat>, d': Placement) {
    Intact(m, m', d) && Grown(m, ls, free, d, m', ls', free', d')
  }

  lemma RestKeptTwice(m: Memory, ls: Labels, free: set<nat>, d: Placement,
                      m1: Memory, ls1: Labels, free1: set<nat>, d1: Placement, m2: Memory)
    requires RestKept(m, ls, free, d, m1) && RestKept(m1, ls1, free1, d1, m2)
    requires FromFree(ls, free, d, ls1, free1, d1) && forall v :: v in d && v in d1 ==> d1[v] == d[v]
    ensures RestKept(m, ls, free, d, m2)
  {
    forall f | f in m && f !in ls && f !in free && !IsPlaced(d, f) ensures f in m2 && m2[f] == m[f] {
      forall v | v in d1 ensures d1[v].frame != f { }
    }
  }

  lemma GrownTwice(m: Memory, ls: Labels, free: set<nat>, d: Placement, m1: Memory, ls1: Labels, free1: set<nat>, d1: Placement,
                   m2: Memory, ls2: Labels, free2: set<nat>, d2: Placement)
    requires Grown(m, ls, free, d, m1, ls1, free1, d1) && Grown(m1, ls1, free1, d1, m2, ls2, free2, d2)
    ensures Grown(m, ls, free, d, m2, ls2, free2, d2)
  {
    assert PlacedPages(d1) <= PlacedPages(d2);
    RestKeptTwice(m, ls, free, d, m1, ls1, free1, d1, m2);
  }

  lemma ProgressTwice(m: Memory, ls: Labels, free: set<nat>, d: Placement, m1: Memory, ls1: Labels, free1: set<nat>, d1: Placement,
                      m2: Memory, ls2: Labels, free2: set<nat>, d2: Placement)
    requires Progress(m, ls, free, d, m1, ls1, free1, d1) && Progress(m1, ls1, free1, d1, m2, ls2, free2, d2)
    ensures Progress(m, ls, free, d, m2, ls2, free2, d2)
  {
    GrownTwice(m, ls, free, d, m1, ls1, free1, d1, m2, ls2, free2, d2);
  }

  /** Mapping a fresh frame at an unplaced page extends the placement. */
  lemma PlacedGrows(m: Memory, ls: Labels, free: set<nat>, m': Memory, ls': Labels, free': set<nat>,
                    r: nat, d: Placement, v: nat, p: Page, s: Slot)
    requires Placed(m, ls, free, r, d) && v < LOWER_PAGES && v !in d && IsRoot(ls, r)
    requires s.frame in free && s.frame in m && s.frame !in ls && p == UserPage(v)
    requires Changed(m, ls, free - {s.frame}, m', ls', free', p)
    requires Entry(m', r, p) == s.entry && MapsTo(s.entry, s.frame)
    ensures Placed(m', ls', free', r, d[v := s])
    ensures Intact(m, m', d)
  {
    forall u | u in d ensures SlotKept(m, m', ls', free', r, d, u, s.frame) {
      UserPages(u, v);
      PlacedKept(m, ls, free, m', ls', free', r, d, p, s.frame, u);
    }
    PlacedAdds(m, ls, free, m', ls', free', r, d, v, s);
  }

  /** Page u's entry and frame are as before, and the frame is not f. */
  ghost predicate SlotKept(m: Memory, m': Memory, ls': Labels, free': set<nat>, r: nat, d: Placement, u: nat, f: nat)
    requires u in d && u < LOWER_PAGES
  {
    var g := d[u].frame;
    && Entry(m', r, UserPage(u)) == d[u].entry
    && g != f && g in m && g in m' && m'[g] == m[g] && g !in ls' && g !in free'
  }

  lemma PlacedAdds(m: Memory, ls: Labels, free: set<nat>, m': Memory, ls': Labels, free': set<nat>,
                   r: nat, d: Placement, v: nat, s: Slot)
    requires Placed(m, ls, free, r, d) && v < LOWER_PAGES && v !in d
    requires s.frame in m' && s.frame !in ls' && s.frame !in free'
    requires Entry(m', r, UserPage(v)) == s.entry && MapsTo(s.entry, s.frame)
    requires forall u :: u in d ==> SlotKept(m, m', ls', free', r, d, u, s.frame)
    ensures Placed(m', ls', free', r, d[v := s]) && Intact(m, m', d)
  {
    forall u | u in d ensures Entry(m', r, UserPage(u)) == d[u].entry && d[u].frame !in ls' && d[u].frame !in free' {
      assert SlotKept(m, m', ls', free', r, d, u, s.frame);
    }
  }

  lemma GrownByOne(m: Memory, ls: Labels, free: set<nat>, m': Memory, ls': Labels, free': set<nat>, d: Placement, v: nat, s: Slot)
    requires v < LOWER_PAGES && v !in d && s.frame in free && Changed(m, ls, free - {s.frame}, m', ls', free', UserPage(v))
    ensures Grown(m, ls, free, d, m', ls', free', d[v := s])
  {
    assert v in d[v := s];
    assert UserPage(v) in PlacedPages(d[v := s]);
  }

  lemma UpperKept(m: Memory, m': Memory, ls: Labels, r: nat, p: Page, q: Page)
    requires IsRoot(ls, r) && SameEntries(m, m', ls, {WINDOW, q})
    requires p.i4 >= 256 && p != WINDOW && q.i4 < 256
    ensures Entry(m', r, p) == Entry(m, r, p)
  {
  }
}
