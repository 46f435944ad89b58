/** The physical frame allocator (pmm.c): one bit per 4 KiB frame, set when the frame is used. */
module Pmm {
  import opened Words
  import opened Pool

  // ---------------------------------------------------------------- bits of the bitmap

  /** C's `1 << k` as a byte. */
  function Mask(k: nat): bv8
    requires k < 8
  {
    if k == 0 then 1 else Mask(k - 1) << 1
  }

  lemma MaskValues(k: nat)
    requires k < 8
    ensures Mask(k) == if k == 0 then 1 else if k == 1 then 2 else if k == 2 then 4 else if k == 3 then 8
                       else if k == 4 then 16 else if k == 5 then 32 else if k == 6 then 64 else 128
  {
    if k != 0 { MaskValues(k - 1); }
  }

  lemma SetAndClear(b: bv8, m: bv8, n: bv8)
    ensures (b | m) & m == m && (b & !m) & m == 0
    ensures m & n == 0 ==> (b | m) & n == b & n && (b & !m) & n == b & n
  {
  }

  lemma ThereAndBack(b: bv8, m: bv8)
    ensures b & m == 0 ==> (b | m) & !m == b
    ensures b & m == m ==> (b & !m) | m == b
  {
  }

  /** Two different bits have disjoint masks, and no mask is empty. */
  lemma MasksApart(k: nat, j: nat)
    requires k < 8 && j < 8
    ensures Mask(k) != 0
    ensures k != j ==> Mask(k) & Mask(j) == 0
  {
    MaskValues(k);
    MaskValues(j);
  }

  /** A mask holds one bit: it lies in b or is apart from b. */
  lemma MaskIsOneBit(b: bv8, k: nat)
    requires k < 8
    ensures b & Mask(k) == 0 || b & Mask(k) == Mask(k)
  {
    MaskValues(k);
  }

  /** Bit j of a byte whose bit k was set or cleared. */
  lemma ByteChange(b: bv8, k: nat, j: nat)
    requires k < 8 && j < 8
    ensures (b | Mask(k)) & Mask(j) == 0 <==> b & Mask(j) == 0 && k != j
    ensures (b & !Mask(k)) & Mask(j) == 0 <==> b & Mask(j) == 0 || k == j
  {
    MasksApart(k, j);
    SetAndClear(b, Mask(k), Mask(j));
  }

  /** Clearing a bit that was set undoes setting it, and the other way round. */
  lemma ByteBack(b: bv8, k: nat)
    requires k < 8
    ensures b & Mask(k) == 0 ==> (b | Mask(k)) & !Mask(k) == b
    ensures b & Mask(k) != 0 ==> (b & !Mask(k)) | Mask(k) == b
  {
    MaskIsOneBit(b, k);
    ThereAndBack(b, Mask(k));
  }

  type Bits = seq<bv8>

  predicate IsFree(bits: Bits, p: nat) {
    p / 8 < |bits| && bits[p / 8] & Mask(p % 8) == 0
  }

  function SetUsed(bits: Bits, p: nat): Bits
    requires p / 8 < |bits|
  {
    bits[p / 8 := bits[p / 8] | Mask(p % 8)]
  }

  function SetFree(bits: Bits, p: nat): Bits
    requires p / 8 < |bits|
  {
    bits[p / 8 := bits[p / 8] & !Mask(p % 8)]
  }

  lemma UseOne(bits: Bits, p: nat, q: nat)
    requires p / 8 < |bits|
    ensures IsFree(SetUsed(bits, p), q) <==> IsFree(bits, q) && q != p
  {
    if p / 8 == q / 8 { ByteChange(bits[p / 8], p % 8, q % 8); }
  }

  lemma FreeOne(bits: Bits, p: nat, q: nat)
    requires p / 8 < |bits|
    ensures IsFree(SetFree(bits, p), q) <==> IsFree(bits, q) || q == p
  {
    if p / 8 == q / 8 { ByteChange(bits[p / 8], p % 8, q % 8); }
  }

  /** Freeing undoes marking, byte for byte. */
  lemma UseThenFree(bits: Bits, p: nat)
    requires IsFree(bits, p)
    ensures SetFree(SetUsed(bits, p), p) == bits
  {
    ByteBack(bits[p / 8], p % 8);
  }

  /** The frames below n whose bit is clear. */
  ghost function FreeSet(bits: Bits, n: nat): set<nat> {
    set p: nat | p < n && IsFree(bits, p)
  }

  lemma FreeSetUpdates(bits: Bits, n: nat, p: nat)
    requires p < n <= 8 * |bits|
    ensures FreeSet(SetUsed(bits, p), n) == FreeSet(bits, n) - {p}
    ensures FreeSet(SetFree(bits, p), n) == FreeSet(bits, n) + {p}
  {
    forall q: nat { UseOne(bits, p, q); }
    forall q: nat { FreeOne(bits, p, q); }
  }

  // ---------------------------------------------------------------- the BIOS memory map

  datatype MmapEntry = MmapEntry(baseAddr: Word, length: Word, typ: nat)

  /** Frame p's first byte lies in this usable entry. */
  predicate Covers(e: MmapEntry, p: nat) {
    e.typ == 1 && e.baseAddr <= p * PAGE_SIZE < e.baseAddr + e.length
  }

  ghost predicate Usable(mmap: seq<MmapEntry>, p: nat) {
    exists k :: 0 <= k < |mmap| && Covers(mmap[k], p)
  }

  /** The end of the highest usable entry, as pmm_init's first loop computes it. */
  function LastUsableEnd(mmap: seq<MmapEntry>): nat {
    if mmap == [] then 0
    else
      var rest := LastUsableEnd(mmap[..|mmap| - 1]);
      var e := mmap[|mmap| - 1];
      if e.typ == 1 && e.baseAddr + e.length > rest then e.baseAddr + e.length else rest
  }

  function FrameCount(mmap: seq<MmapEntry>): nat { (LastUsableEnd(mmap) + PAGE_SIZE - 1) / PAGE_SIZE }
  function BitmapBytes(mmap: seq<MmapEntry>): nat { (FrameCount(mmap) + 7) / 8 }
  function BitmapPages(mmap: seq<MmapEntry>): nat { (BitmapBytes(mmap) + PAGE_SIZE - 1) / PAGE_SIZE }

  /** What pmm_init needs of the map: some usable memory, and ends that fit 64 bits after rounding up. */
  ghost predicate SaneMap(mmap: seq<MmapEntry>) {
    && (exists k :: 0 <= k < |mmap| && mmap[k].typ == 1 && mmap[k].baseAddr + mmap[k].length > 0)
    && forall k :: 0 <= k < |mmap| && mmap[k].typ == 1 ==> mmap[k].baseAddr + mmap[k].length + PAGE_SIZE <= TWO_64
  }

  lemma {:induction false} EndBounds(mmap: seq<MmapEntry>, k: nat)
    requires k < |mmap| && mmap[k].typ == 1
    ensures mmap[k].baseAddr + mmap[k].length <= LastUsableEnd(mmap)
  {
    if k < |mmap| - 1 { EndBounds(mmap[..|mmap| - 1], k); }
  }

  /** Some usable entry reaches the last end. */
  lemma {:induction false} EndReached(mmap: seq<MmapEntry>) returns (k: nat)
    requires LastUsableEnd(mmap) > 0
    ensures k < |mmap| && mmap[k].typ == 1 && mmap[k].baseAddr + mmap[k].length == LastUsableEnd(mmap)
  {
    var n := |mmap| - 1;
    if mmap[n].typ == 1 && mmap[n].baseAddr + mmap[n].length == LastUsableEnd(mmap) { return n; }
    k := EndReached(mmap[..n]);
  }

  /** Frames 0..n cover the usable entries, and no fewer do. */
  ghost predicate ReachesExactly(mmap: seq<MmapEntry>, n: nat) {
    && (forall k :: 0 <= k < |mmap| && mmap[k].typ == 1 ==> mmap[k].baseAddr + mmap[k].length <= n * 4096)
    && (exists k :: 0 <= k < |mmap| && mmap[k].typ == 1 && mmap[k].baseAddr + mmap[k].length > (n - 1) * 4096)
  }

  /** The bitmap has a bit for exactly these frames, and as few bytes and pages as that takes. */
  lemma BitmapIsTight(mmap: seq<MmapEntry>)
    requires SaneMap(mmap)
    ensures ReachesExactly(mmap, FrameCount(mmap)) && LastUsableEnd(mmap) > 0
    ensures 8 * (BitmapBytes(mmap) - 1) < FrameCount(mmap) <= 8 * BitmapBytes(mmap)
    ensures BitmapPages(mmap) * 4096 - 4096 < BitmapBytes(mmap) <= BitmapPages(mmap) * 4096
    ensures BitmapPages(mmap) * 4096 % 4096 == 0
  {
    forall k | 0 <= k < |mmap| && mmap[k].typ == 1 ensures mmap[k].baseAddr + mmap[k].length <= FrameCount(mmap) * 4096 {
      EndBounds(mmap, k);
    }
    var k := EndReached(mmap);
  }

  lemma UsableBelowCount(mmap: seq<MmapEntry>, p: nat)
    requires Usable(mmap, p)
    ensures p < FrameCount(mmap)
  {
    var k :| 0 <= k < |mmap| && Covers(mmap[k], p);
    EndBounds(mmap, k);
  }

  // ---------------------------------------------------------------- bitmap loops

  /** memset on the bitmap. */
  method FillBytes(bm: array<bv8>, value: bv8, count: nat)
    requires count <= bm.Length
    modifies bm
    ensures forall k :: 0 <= k < bm.Length ==> bm[k] == if k < count then value else old(bm[k])
  {
    for i := 0 to count
      invariant forall k :: 0 <= k < bm.Length ==> bm[k] == if k < i then value else old(bm[k])
    {
      bm[i] := value;
    }
  }

  /** `mem_bitmap[i / 8] &= ~(1 << i % 8)` */
  method ClearBit(bm: array<bv8>, p: nat)
    requires p / 8 < bm.Length
    modifies bm
    ensures bm[..] == SetFree(old(bm[..]), p)
    ensures forall q: nat :: IsFree(bm[..], q) <==> IsFree(old(bm[..]), q) || q == p
  {
    ghost var before := bm[..];
    bm[p / 8] := bm[p / 8] & !Mask(p % 8);
    assert bm[..] == SetFree(before, p);
    forall q: nat { FreeOne(before, p, q); }
  }

  /** `mem_bitmap[i / 8] |= 1 << i % 8` */
  method SetBit(bm: array<bv8>, p: nat)
    requires p / 8 < bm.Length
    modifies bm
    ensures bm[..] == SetUsed(old(bm[..]), p)
    ensures forall q: nat :: IsFree(bm[..], q) <==> IsFree(old(bm[..]), q) && q != p
  {
    ghost var before := bm[..];
    bm[p / 8] := bm[p / 8] | Mask(p % 8);
    assert bm[..] == SetUsed(before, p);
    forall q: nat { UseOne(before, p, q); }
  }

  /** `(mem_bitmap[i / 8] & (1 << i % 8)) == 0` */
  method TestBit(bm: array<bv8>, p: nat) returns (free: bool)
    requires p / 8 < bm.Length
    ensures free <==> IsFree(bm[..], p)
  {
    free := bm[p / 8] & Mask(p % 8) == 0;
  }

  lemma AllOnesIsUsed(k: nat)
    requires k < 8
    ensures 0xFF & Mask(k) != 0
  {
    MaskValues(k);
  }

  /** Frame p starts inside [base, base + length) exactly when the loop bounds of pmm_init say so. */
  lemma LoopBounds(e: MmapEntry, p: nat)
    requires e.typ == 1
    ensures Covers(e, p) <==>
            (e.baseAddr + PAGE_SIZE - 1) / PAGE_SIZE <= p < (e.baseAddr + e.length + PAGE_SIZE - 1) / PAGE_SIZE
  {
  }

  lemma UsableStep(mmap: seq<MmapEntry>, i: nat, p: nat)
    requires i < |mmap|
    ensures Usable(mmap[..i + 1], p) <==> Usable(mmap[..i], p) || Covers(mmap[i], p)
  {
    if Usable(mmap[..i], p) {
      var k :| 0 <= k < i && Covers(mmap[..i][k], p);
      assert Covers(mmap[..i + 1][k], p);
    }
    if Covers(mmap[i], p) { assert Covers(mmap[..i + 1][i], p); }
  }

  /** pmm_init's loop over the usable entries. */
  method MarkUsable(bm: array<bv8>, mmap: seq<MmapEntry>, lastUsableEnd: nat, ghost n: nat)
    requires SaneMap(mmap) && lastUsableEnd == LastUsableEnd(mmap) && n == FrameCount(mmap) <= 8 * bm.Length
    requires forall p: nat :: p < n ==> !IsFree(bm[..], p)
    modifies bm
    ensures forall p: nat :: p < n ==> (IsFree(bm[..], p) <==> Usable(mmap, p))
  {
    for i := 0 to |mmap|
      invariant forall p: nat :: p < n ==> (IsFree(bm[..], p) <==> Usable(mmap[..i], p))
    {
      var entry := mmap[i];
      forall p: nat { UsableStep(mmap, i, p); }
      if entry.typ != 1 { continue; }
      EndBounds(mmap, i);
      if entry.baseAddr > lastUsableEnd { continue; }
      forall p: nat { LoopBounds(entry, p); }
      ClearRange(bm, (entry.baseAddr + PAGE_SIZE - 1) / PAGE_SIZE, (entry.baseAddr + entry.length + PAGE_SIZE - 1) / PAGE_SIZE);
    }
    assert mmap[..|mmap|] == mmap;
  }

  method ClearRange(bm: array<bv8>, lo: nat, hi: nat)
    requires lo <= hi <= 8 * bm.Length
    modifies bm
    ensures forall q: nat :: IsFree(bm[..], q) <==> IsFree(old(bm[..]), q) || lo <= q < hi
  {
    for p := lo to hi
      invariant forall q: nat :: IsFree(bm[..], q) <==> IsFree(old(bm[..]), q) || lo <= q < p
    {
      ClearBit(bm, p);
    }
  }

  /** pmm_init's last loop: the frames of the kernel's own 2 MiB are not for allocation. */
  method MarkKernelUsed(bm: array<bv8>)
    requires bm.Length >= 64
    modifies bm
    ensures forall q: nat :: IsFree(bm[..], q) <==> IsFree(old(bm[..]), q) && q >= 512
  {
    for p := 0 to (KERNEL_END - KERNEL_BASE + PAGE_SIZE - 1) / PAGE_SIZE
      invariant forall q: nat :: IsFree(bm[..], q) <==> IsFree(old(bm[..]), q) && q >= p
    {
      SetBit(bm, p);
    }
  }

  // ---------------------------------------------------------------- calls

  /** What one call did: pmm_alloc returned frame p, pmm_alloc returned NULL, or pmm_free took p. */
  datatype Event = Took(p: nat) | Refused | Gave(p: nat)

  /** One call on the free set, as Alloc and Release below promise it; callers free only what they hold. */
  ghost predicate Call(free: set<nat>, held: set<nat>, e: Event, free': set<nat>) {
    match e
    case Took(p) => p in free && (forall q :: q in free ==> p <= q) && free' == free - {p}
    case Refused => free == {} && free' == {}
    case Gave(p) => p in held && free' == free + {p}
  }

  // ---------------------------------------------------------------- the allocator

  class FrameAllocator {
    const bitmap: array<bv8>
    const base: Word      // virtual address of the bitmap, in the pool
    const byteSize: nat   // mem_bitmap_size
    const bitSize: nat    // mem_bitmap_bit_size

    ghost predicate Valid() {
      bitSize <= 8 * bitmap.Length && bitSize * PAGE_SIZE < TWO_64
    }

    ghost function Free(): set<nat>
      reads bitmap
    {
      FreeSet(bitmap[..], bitSize)
    }

    ghost function FreeCount(): nat
      reads bitmap
    {
      |Free()|
    }

    /** Frame p, if the bitmap reaches that far. */
    ghost function Tracked(p: nat): set<nat> { if p < bitSize then {p} else {} }

    /** pmm_init. The pool must have room for the bitmap: alloc_page's result is not checked. */
    constructor (mmap: seq<MmapEntry>, pool: PagePool)
      requires SaneMap(mmap) && PoolState(pool.nextFree)
      requires pool.nextFree + BitmapPages(mmap) * PAGE_SIZE < POOL_END
      modifies pool
      ensures Valid() && fresh(bitmap)
      ensures base == old(pool.nextFree) && bitmap.Length == BitmapPages(mmap) * PAGE_SIZE
      ensures PoolState(pool.nextFree) && pool.nextFree == base + bitmap.Length
      ensures bitSize == FrameCount(mmap) && byteSize == BitmapBytes(mmap) <= bitmap.Length
      ensures ReachesExactly(mmap, bitSize)
      ensures 8 * (byteSize - 1) < bitSize <= 8 * byteSize
      ensures bitmap.Length % 4096 == 0 && bitmap.Length - 4096 < byteSize <= bitmap.Length
      ensures forall p: nat :: p in Free() <==> p >= 512 && Usable(mmap, p)
    {
      BitmapIsTight(mmap);
      var lastUsableEnd: nat := 0;
      for i := 0 to |mmap|
        invariant lastUsableEnd == LastUsableEnd(mmap[..i])
      {
        assert mmap[..i + 1][..i] == mmap[..i];
        var entry := mmap[i];
        if entry.typ == 1 {
          var end := entry.baseAddr + entry.length;
          if end > lastUsableEnd { lastUsableEnd := end; }
        }
      }
      assert mmap[..|mmap|] == mmap;
      var numPages := (lastUsableEnd + PAGE_SIZE - 1) / PAGE_SIZE;
      var size := (numPages + 7) / 8;
      var pageCount := (size + PAGE_SIZE - 1) / PAGE_SIZE;

      var va := pool.AllocPage();
      for i := 0 to pageCount - 1
        invariant PoolState(pool.nextFree) && pool.nextFree == va + (i + 1) * PAGE_SIZE
      {
        var _ := pool.AllocPage();
      }
      var bm := new bv8[pageCount * PAGE_SIZE];
      FillBytes(bm, 0xFF, size);
      forall p: nat | p < numPages ensures !IsFree(bm[..], p) { AllOnesIsUsed(p % 8); }
      MarkUsable(bm, mmap, lastUsableEnd, numPages);
      MarkKernelUsed(bm);

      bitmap, base, byteSize, bitSize := bm, va, size, numPages;
      forall p: nat | Usable(mmap, p) ensures p < numPages { UsableBelowCount(mmap, p); }
    }

    /** pmm_alloc: the lowest free frame, or NULL when none is left. */
    method Alloc() returns (a: Word)
      requires Valid()
      modifies bitmap
      ensures a == NULL <==> old(Free()) == {} || 0 in old(Free())
      ensures old(Free()) == {} ==> bitmap[..] == old(bitmap[..])
      ensures old(Free()) != {} ==>
                && a % PAGE_SIZE == 0 && a / PAGE_SIZE in old(Free())
                && (forall q :: q in old(Free()) ==> a / PAGE_SIZE <= q)
                && bitmap[..] == SetUsed(old(bitmap[..]), a / PAGE_SIZE)
                && Free() == old(Free()) - {a / PAGE_SIZE}
      ensures 0 !in old(Free()) ==> Call(old(Free()), {}, if a == NULL then Refused else Took(a / PAGE_SIZE), Free())
    {
      for i := 0 to bitSize
        invariant bitmap[..] == old(bitmap[..])
        invariant forall q: nat :: q < i ==> !IsFree(bitmap[..], q)
      {
        var free := TestBit(bitmap, i);
        if free {
          FreeSetUpdates(bitmap[..], bitSize, i);
          SetBit(bitmap, i);
          return i * PAGE_SIZE;
        }
      }
      assert Free() == {};
      return NULL;
    }

    /** pmm_free: blocks above the bitmap are ignored. */
    method Release(block: Word)
      requires Valid()
      modifies bitmap
      ensures block / PAGE_SIZE >= bitSize ==> bitmap[..] == old(bitmap[..])
      ensures block / PAGE_SIZE < bitSize ==>
                bitmap[..] == SetFree(old(bitmap[..]), block / PAGE_SIZE)
      ensures Free() == old(Free()) + Tracked(block / PAGE_SIZE)
      ensures block / PAGE_SIZE < bitSize ==>
                Call(old(Free()), {block / PAGE_SIZE}, Gave(block / PAGE_SIZE), Free())
    {
      var page := block / PAGE_SIZE;
      if page >= bitSize { return; }
      FreeSetUpdates(bitmap[..], bitSize, page);
      ClearBit(bitmap, page);
    }
  }

  // ---------------------------------------------------------------- whole runs

  /** The frames handed out and not given back before event t. */
  function Held(es: seq<Event>, t: nat): set<nat>
    requires t <= |es|
  {
    if t == 0 then {}
    else match es[t - 1]
      case Took(p) => Held(es, t - 1) + {p}
      case Gave(p) => Held(es, t - 1) - {p}
      case Refused => Held(es, t - 1)
  }

  ghost predicate IsRun(frees: seq<set<nat>>, es: seq<Event>) {
    |frees| == |es| + 1 && forall t :: 0 <= t < |es| ==> Call(frees[t], Held(es, t), es[t], frees[t + 1])
  }

  lemma CallKeeps(free: set<nat>, held: set<nat>, e: Event, free': set<nat>, held': set<nat>, all: set<nat>)
    requires Call(free, held, e, free') && free !! held && free + held == all
    requires held' == match e case Took(p) => held + {p} case Gave(p) => held - {p} case Refused => held
    ensures free' !! held' && free' + held' == all
  {
  }

  /** At every moment each frame that was free at the start is either free or held, never both. */
  lemma {:induction false} FreeOrHeld(frees: seq<set<nat>>, es: seq<Event>, t: nat)
    requires IsRun(frees, es) && t <= |es|
    ensures frees[t] !! Held(es, t) && frees[t] + Held(es, t) == frees[0]
    decreases t
  {
    if t > 0 {
      FreeOrHeld(frees, es, t - 1);
      assert Call(frees[t - 1], Held(es, t - 1), es[t - 1], frees[t - 1 + 1]);
      CallKeeps(frees[t - 1], Held(es, t - 1), es[t - 1], frees[t], Held(es, t), frees[0]);
    }
  }

  /** What is held stays held until it is given back. */
  lemma {:induction false} StaysHeld(es: seq<Event>, t: nat, u: nat, p: nat)
    requires t < u <= |es| && es[t] == Took(p) && forall v :: t < v < u ==> es[v] != Gave(p)
    ensures p in Held(es, u)
    decreases u
  {
    if t + 1 < u { StaysHeld(es, t, u - 1, p); }
  }

  /** No frame is handed out twice without having been given back in between. */
  lemma NoDoubleHandout(frees: seq<set<nat>>, es: seq<Event>, t: nat, u: nat, p: nat)
    requires IsRun(frees, es) && t < u < |es| && es[t] == Took(p) && es[u] == Took(p)
    ensures exists v :: t < v < u && es[v] == Gave(p)
  {
    FreeOrHeld(frees, es, u);
    assert Call(frees[u], Held(es, u), es[u], frees[u + 1]);
    if forall v :: t < v < u ==> es[v] != Gave(p) { StaysHeld(es, t, u, p); }
  }

  /** No frame but those free at the start is ever handed out: after pmm_init none of frames 0-511. */
  lemma OnlyFreeFrames(frees: seq<set<nat>>, es: seq<Event>, t: nat, p: nat)
    requires IsRun(frees, es) && t < |es| && es[t] == Took(p)
    ensures p in frees[0]
    ensures (forall q :: q in frees[0] ==> q >= 512) ==> p >= 512
  {
    FreeOrHeld(frees, es, t);
    assert Call(frees[t], Held(es, t), es[t], frees[t + 1]);
  }

  lemma {:induction false} HeldPrefix(es: seq<Event>, more: seq<Event>, t: nat)
    requires t <= |es|
    ensures Held(es + more, t) == Held(es, t)
  {
    if t > 0 { HeldPrefix(es, more, t - 1); }
  }

  lemma CallKept(frees: seq<set<nat>>, es: seq<Event>, e: Event, free: set<nat>, t: nat)
    requires IsRun(frees, es) && t < |es|
    ensures var fs, xs := frees + [free], es + [e]; Call(fs[t], Held(xs, t), xs[t], fs[t + 1])
  {
    HeldPrefix(es, [e], t);
    assert Call(frees[t], Held(es, t), es[t], frees[t + 1]);
  }

  lemma RunExtended(frees: seq<set<nat>>, es: seq<Event>, e: Event, free: set<nat>)
    requires IsRun(frees, es) && Call(frees[|es|], Held(es, |es|), e, free)
    ensures IsRun(frees + [free], es + [e])
  {
    var fs, xs := frees + [free], es + [e];
    forall t | 0 <= t < |xs| ensures Call(fs[t], Held(xs, t), xs[t], fs[t + 1]) {
      if t < |es| { CallKept(frees, es, e, free, t); } else { HeldPrefix(es, [e], t); }
    }
  }

  /** What a caller may ask for. */
  datatype Request = Take | Give(p: nat)

  /** Any sequence of pmm_alloc and pmm_free calls, each free of a frame then held, is such a run. */
  method Serve(a: FrameAllocator, requests: seq<Request>) returns (es: seq<Event>, ghost frees: seq<set<nat>>)
    requires a.Valid() && 0 !in a.Free()
    modifies a.bitmap
    ensures IsRun(frees, es) && frees[0] == old(a.Free()) && frees[|es|] == a.Free()
  {
    es, frees := [], [a.Free()];
    for i := 0 to |requests|
      invariant IsRun(frees, es) && frees[0] == old(a.Free()) && frees[|es|] == a.Free()
    {
      FreeOrHeld(frees, es, |es|);
      ghost var before := a.Free();
      if requests[i].Take? {
        var block := a.Alloc();
        var e := if block == NULL then Refused else Took(block / PAGE_SIZE);
        RunExtended(frees, es, e, a.Free());
        es, frees := es + [e], frees + [a.Free()];
      } else if requests[i].p in Held(es, |es|) {
        var p := requests[i].p;
        assert p < a.bitSize;
        QuotientOf(p, 0);
        a.Release(p * PAGE_SIZE);
        RunExtended(frees, es, Gave(p), a.Free());
        es, frees := es + [Gave(p)], frees + [a.Free()];
      }
    }
  }
}
