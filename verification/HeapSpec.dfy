/** The kernel heap (kheap.c) as a list of chunks: what each operation does to the list, and what
    every operation keeps. */
module HeapSpec {
  import opened Words
  import opened HeapChunks

  // ---------------------------------------------------------------- the operations, by pointer

  /** The chunk whose payload starts at ptr, |cs| if there is none. */
  function IndexOf(cs: Chunks, ptr: nat): (i: nat)
    ensures i <= |cs| && (i < |cs| ==> cs[i].Payload() == ptr)
    ensures forall j :: 0 <= j < i ==> cs[j].Payload() != ptr
  {
    if cs == [] then 0
    else if cs[0].Payload() == ptr then 0
    else
      var i := IndexOf(cs[1..], ptr);
      assert forall j :: 1 <= j < i + 1 ==> cs[j] == cs[1..][j - 1];
      i + 1
  }

  predicate Owns(cs: Chunks, ptr: nat) { IndexOf(cs, ptr) < |cs| && cs[IndexOf(cs, ptr)].inuse }

  lemma IndexIs(cs: Chunks, lo: nat, hi: nat, i: nat)
    requires Layout(cs, lo, hi) && i < |cs|
    ensures IndexOf(cs, cs[i].Payload()) == i
  {
    var j := IndexOf(cs, cs[i].Payload());
    if j < i { LayoutOrder(cs, lo, hi, j, i); }
  }

  /** kalloc of n rounded bytes: the new list, and the payload address or NULL. */
  function Kalloc(cs: Chunks, n: nat): (Chunks, nat) {
    var i := FirstFit(cs, n);
    if i == |cs| then (cs, 0) else (Take(cs, i, n), cs[i].Payload())
  }

  /** kfree; a pointer at or past heap_end is ignored. */
  function Kfree(cs: Chunks, ptr: nat, hi: nat): Chunks {
    if ptr < hi && Owns(cs, ptr) then Release(cs, IndexOf(cs, ptr)) else cs
  }

  /** extendChunkInPlace when the next chunk is free and large enough: block i grows to n bytes and
      the rest of the next chunk, without another header, starts 32 bytes after it. */
  function Extend(cs: Chunks, i: nat, n: nat): Chunks
    requires i + 1 < |cs| && CanExtend(cs, i, n)
  {
    Splice(cs, i, 2, Extended(cs[i], cs[i + 1], n))
  }

  function Extended(c: Chunk, next: Chunk, n: nat): Chunks
    requires c.size < n && next.size >= n - c.size + HEADER
  {
    var extra := n - c.size;
    [Chunk(c.addr, n, true), Chunk(next.addr + HEADER + extra, next.size - extra - HEADER, false)]
  }

  predicate CanExtend(cs: Chunks, i: nat, n: nat)
    requires i + 1 < |cs|
  {
    cs[i].size < n && !cs[i + 1].inuse && cs[i + 1].size >= n - cs[i].size + HEADER
  }

  /** krealloc's answer: a pointer (or NULL), or the page fault of following a null next link. */
  datatype Answer = Fault | Pointer(p: nat)

  /** Allocate, copy, free: krealloc when the block has to move. */
  function Move(cs: Chunks, ptr: nat, n: nat, hi: nat): (Chunks, Answer) {
    var r := Kalloc(cs, n);
    if r.1 == 0 then (cs, Pointer(0)) else (Kfree(r.0, ptr, hi), Pointer(r.1))
  }

  /** krealloc of a block in use to n rounded bytes. */
  function Krealloc(cs: Chunks, ptr: nat, n: nat, hi: nat): (Chunks, Answer)
    requires Owns(cs, ptr)
  {
    var i := IndexOf(cs, ptr);
    if cs[i].size < n then
      if i + 1 == |cs| then (cs, Fault)
      else if CanExtend(cs, i, n) then (Extend(cs, i, n), Pointer(ptr))
      else Move(cs, ptr, n, hi)
    else if cs[i].size > n then
      if cs[i].size - n > MIN_CHUNK_SIZE then (Coalesce(Take(cs, i, n)), Pointer(ptr))
      else Move(cs, ptr, n, hi)
    else (cs, Pointer(ptr))
  }

  /** Whether a krealloc grows its block in place. */
  predicate Extends(cs: Chunks, ptr: nat, n: nat) {
    Owns(cs, ptr) && IndexOf(cs, ptr) + 1 < |cs| && CanExtend(cs, IndexOf(cs, ptr), n)
  }

  /** extendChunkInPlace's comparison is right for growing block c to n bytes before a chunk `next`. */
  predicate GuardRight(c: Chunk, next: Chunk, n: nat) {
    c.size >= n || next.inuse || n - c.size + HEADER < TWO_64 || next.size < n - c.size + HEADER - TWO_64
  }

  /** And for a krealloc of the block at ptr. */
  predicate GuardHolds(cs: Chunks, ptr: nat, n: nat) {
    Owns(cs, ptr) && IndexOf(cs, ptr) + 1 < |cs| ==> GuardRight(cs[IndexOf(cs, ptr)], cs[IndexOf(cs, ptr) + 1], n)
  }

  /** It always is for requests up to 2^64 - 48. */
  lemma ModestRequest(cs: Chunks, ptr: nat, request: Word)
    requires request <= TWO_64 - 48
    ensures GuardHolds(cs, ptr, RoundUp(request))
  {
  }

  /** extendChunkInPlace adds the header size on 64 bits; the comparison means what it should
      exactly when that sum does not wrap, or wraps to more than the next chunk has. */
  lemma ExtendGuard(next: Word, extra: Word)
    ensures (next >= (extra + HEADER) % TWO_64 <==> next >= extra + HEADER)
            <==> extra + HEADER < TWO_64 || next < extra + HEADER - TWO_64
  {
  }

  // ---------------------------------------------------------------- what every operation keeps

  /** The heap's invariant: k blocks have been extended in place so far. */
  ghost predicate HeapInv(cs: Chunks, lo: nat, hi: nat, k: nat) {
    && cs != [] && cs[0].addr == lo
    && Layout(cs, lo, hi) && Coalesced(cs)
    && Total(cs) + HEADER * k == hi - lo
  }

  /** heap_init. */
  lemma InitInv(lo: nat, hi: nat)
    requires lo % 16 == 0 && hi % 16 == 0 && lo + HEADER <= hi
    ensures HeapInv([Chunk(lo, hi - lo - HEADER, false)], lo, hi, 0)
  {
    TotalOne(Chunk(lo, hi - lo - HEADER, false));
  }

  lemma KallocInv(cs: Chunks, n: nat, lo: nat, hi: nat, k: nat)
    requires HeapInv(cs, lo, hi, k) && n % 16 == 0
    ensures HeapInv(Kalloc(cs, n).0, lo, hi, k)
  {
    var i := FirstFit(cs, n);
    if i < |cs| {
      TakeLayout(cs, i, n, lo, hi);
      TakeCoalesced(cs, i, n);
      TakeTotal(cs, i, n);
    }
  }

  lemma ReleaseInv(cs: Chunks, i: nat, lo: nat, hi: nat, k: nat)
    requires HeapInv(cs, lo, hi, k) && i < |cs|
    ensures HeapInv(Release(cs, i), lo, hi, k)
  {
    ReleaseKeeps(cs, i, lo, hi);
    CoalesceHead(cs[i := Chunk(cs[i].addr, cs[i].size, false)]);
  }

  lemma KfreeInv(cs: Chunks, ptr: nat, lo: nat, hi: nat, k: nat)
    requires HeapInv(cs, lo, hi, k)
    ensures HeapInv(Kfree(cs, ptr, hi), lo, hi, k)
  {
    if ptr < hi && Owns(cs, ptr) { ReleaseInv(cs, IndexOf(cs, ptr), lo, hi, k); }
  }

  lemma DifferenceAligned(a: nat, b: nat)
    requires a % 16 == 0 && b % 16 == 0 && a >= b
    ensures (a - b) % 16 == 0
  {
  }

  lemma ExtendedTotal(c: Chunk, next: Chunk, n: nat)
    requires c.size < n && next.size >= n - c.size + HEADER
    ensures Total(Extended(c, next, n)) + HEADER == Total([c, next])
  {
    TotalTwo(c, next);
    TotalTwo(Extended(c, next, n)[0], Extended(c, next, n)[1]);
  }

  lemma ExtendedLayout(c: Chunk, next: Chunk, n: nat)
    requires c.size < n && next.size >= n - c.size + HEADER && c.End() <= next.addr
    requires c.addr % 16 == 0 && c.size % 16 == 0 && n % 16 == 0 && next.addr % 16 == 0 && next.size % 16 == 0
    ensures Layout(Extended(c, next, n), c.addr, next.End())
  {
    DifferenceAligned(n, c.size);
    DifferenceAligned(next.size, n - c.size);
  }

  lemma PairTotal(cs: Chunks, i: nat, s: Chunks)
    requires i + 1 < |cs|
    ensures Total(Splice(cs, i, 2, s)) == Total(cs) - Total([cs[i], cs[i + 1]]) + Total(s)
  {
    SpliceTotal(cs, i, 2, s);
    assert cs[i..i + 2] == [cs[i], cs[i + 1]];
  }

  /** Growing in place loses exactly one header's worth of bytes. */
  lemma ExtendInv(cs: Chunks, i: nat, n: nat, lo: nat, hi: nat, k: nat)
    requires HeapInv(cs, lo, hi, k) && n % 16 == 0 && i + 1 < |cs| && CanExtend(cs, i, n)
    ensures HeapInv(Extend(cs, i, n), lo, hi, k + 1)
  {
    var s := Extended(cs[i], cs[i + 1], n);
    ExtendedTotal(cs[i], cs[i + 1], n);
    ExtendedLayout(cs[i], cs[i + 1], n);
    SpliceLayout(cs, i, 2, s, lo, hi);
    SpliceCoalesced(cs, i, 2, s);
    PairTotal(cs, i, s);
  }

  lemma ShrinkInv(cs: Chunks, i: nat, n: nat, lo: nat, hi: nat, k: nat)
    requires HeapInv(cs, lo, hi, k) && n % 16 == 0 && i < |cs| && n <= cs[i].size
    ensures HeapInv(Coalesce(Take(cs, i, n)), lo, hi, k)
  {
    var t := Take(cs, i, n);
    TakeLayout(cs, i, n, lo, hi);
    TakeTotal(cs, i, n);
    CoalesceKeepsLayout(t, lo, hi);
    CoalesceKeepsTotal(t);
    CoalesceCoalesces(t);
    CoalesceHead(t);
  }

  lemma MoveInv(cs: Chunks, ptr: nat, n: nat, lo: nat, hi: nat, k: nat)
    requires HeapInv(cs, lo, hi, k) && n % 16 == 0
    ensures HeapInv(Move(cs, ptr, n, hi).0, lo, hi, k)
  {
    KallocInv(cs, n, lo, hi, k);
    KfreeInv(Kalloc(cs, n).0, ptr, lo, hi, k);
  }

  lemma KreallocInv(cs: Chunks, ptr: nat, n: nat, lo: nat, hi: nat, k: nat)
    requires HeapInv(cs, lo, hi, k) && n % 16 == 0 && Owns(cs, ptr)
    ensures HeapInv(Krealloc(cs, ptr, n, hi).0, lo, hi, if Extends(cs, ptr, n) then k + 1 else k)
  {
    var i := IndexOf(cs, ptr);
    if Extends(cs, ptr, n) {
      ExtendInv(cs, i, n, lo, hi, k);
    } else {
      MoveInv(cs, ptr, n, lo, hi, k);
      if n <= cs[i].size { ShrinkInv(cs, i, n, lo, hi, k); }
    }
  }

  // ---------------------------------------------------------------- conservation

  /** A heap without blocks in use is one free chunk. */
  lemma OneChunk(cs: Chunks, lo: nat, hi: nat, k: nat)
    requires HeapInv(cs, lo, hi, k) && forall i :: 0 <= i < |cs| ==> !cs[i].inuse
    ensures HEADER + HEADER * k <= hi - lo && cs == [Chunk(lo, hi - lo - HEADER - HEADER * k, false)]
  {
    if |cs| > 1 { FirstTwo(cs); }
    assert cs == [cs[0]];
    TotalOne(cs[0]);
  }

  lemma {:induction false} TotalBound(cs: Chunks, lo: nat, hi: nat)
    requires Layout(cs, lo, hi) && lo <= hi
    ensures Total(cs) <= hi - lo
  {
    if cs != [] {
      LayoutTail(cs, lo, hi);
      TotalBound(cs[1..], cs[0].End(), hi);
    }
  }

  /** No byte between the chunks, before the first or after the last. */
  ghost predicate Tiles(cs: Chunks, lo: nat, hi: nat) {
    && cs != [] && cs[0].addr == lo && cs[|cs| - 1].End() == hi
    && forall i :: 0 <= i < |cs| - 1 ==> cs[i].End() == cs[i + 1].addr
  }

  /** Chunks that add up to the heap leave no gap. */
  lemma {:induction false} Tiling(cs: Chunks, lo: nat, hi: nat)
    requires Layout(cs, lo, hi) && lo <= hi && Total(cs) == hi - lo
    ensures cs != [] ==> cs[0].addr == lo && cs[|cs| - 1].End() == hi
    ensures forall i :: 0 <= i < |cs| - 1 ==> cs[i].End() == cs[i + 1].addr
  {
    if cs != [] {
      var t := cs[1..];
      LayoutTail(cs, lo, hi);
      TotalBound(t, cs[0].End(), hi);
      Tiling(t, cs[0].End(), hi);
      forall i | 0 <= i < |cs| - 1 ensures cs[i].End() == cs[i + 1].addr {
        if i > 0 { assert t[i - 1].End() == t[i - 1 + 1].addr; }
      }
    }
  }

  lemma {:induction false} TilesTotal(cs: Chunks, lo: nat, hi: nat)
    requires Tiles(cs, lo, hi)
    ensures lo <= hi && Total(cs) == hi - lo
  {
    if |cs| > 1 {
      assert cs[0].End() == cs[0 + 1].addr;
      forall i | 0 <= i < |cs| - 2 ensures cs[1..][i].End() == cs[1..][i + 1].addr {
        assert cs[i + 1].End() == cs[i + 1 + 1].addr;
      }
      TilesTotal(cs[1..], cs[1].addr, hi);
    } else {
      assert cs[1..] == [];
    }
  }

  /** The chunks tile the heap exactly when no block has been extended in place. */
  lemma TilesUnlessExtended(cs: Chunks, lo: nat, hi: nat, k: nat)
    requires HeapInv(cs, lo, hi, k) && lo <= hi
    ensures Tiles(cs, lo, hi) <==> k == 0
  {
    if k == 0 { Tiling(cs, lo, hi); }
    if Tiles(cs, lo, hi) { TilesTotal(cs, lo, hi); }
  }

  // ---------------------------------------------------------------- what the answers promise

  /** kalloc answers NULL, and changes nothing, exactly when no free chunk is large enough. */
  lemma KallocNull(cs: Chunks, n: nat)
    ensures Kalloc(cs, n).1 == 0 <==> forall j :: 0 <= j < |cs| ==> !Fits(cs[j], n)
    ensures Kalloc(cs, n).1 == 0 ==> Kalloc(cs, n).0 == cs
  {
  }

  /** Otherwise it takes the lowest chunk that fits, at an aligned address, for no more than 47
      bytes beyond the request. */
  lemma KallocBlock(cs: Chunks, size: Word, lo: nat, hi: nat, k: nat, i: nat)
    requires HeapInv(cs, lo, hi, k) && i == FirstFit(cs, RoundUp(size)) && i < |cs|
    ensures var (t, p) := Kalloc(cs, RoundUp(size));
            && i < |t| && p == t[i].Payload() && p % 16 == 0 && Owns(t, p) && IndexOf(t, p) == i
            && RoundUp(size) <= t[i].size && (size <= TWO_64 - 16 ==> size <= t[i].size <= size + 47)
    ensures forall j :: 0 <= j < i ==> !Fits(cs[j], RoundUp(size))
  {
    var n := RoundUp(size);
    RoundUpEnough(size);
    KallocInv(cs, n, lo, hi, k);
    TakenSize(cs[i], n);
    TakeAt(cs, i, n);
    PayloadAligned(cs[i]);
    IndexIs(Take(cs, i, n), lo, hi, i);
  }

  /** The list after kalloc of n rounded bytes from chunk i, chunk by chunk: the chunk is cut when more
      than 36 bytes would be left over, a header and 4 bytes, and handed out whole otherwise. */
  lemma KallocList(cs: Chunks, n: nat, i: nat)
    requires i < |cs| && Fits(cs[i], n) && forall j :: 0 <= j < i ==> !Fits(cs[j], n)
    ensures var c, (t, p) := cs[i], Kalloc(cs, n);
            && p == c.addr + 32
            && (c.size > n + 36 ==>
                  t == cs[..i] + [Chunk(c.addr, n, true), Chunk(c.addr + 32 + n, c.size - n - 32, false)] + cs[i + 1..])
            && (c.size <= n + 36 ==> t == cs[..i] + [Chunk(c.addr, c.size, true)] + cs[i + 1..])
  {
    FirstFitIs(cs, n, i);
  }

  lemma FirstFitIs(cs: Chunks, n: nat, i: nat)
    requires i <= |cs| && (forall j :: 0 <= j < i ==> !Fits(cs[j], n)) && (i < |cs| ==> Fits(cs[i], n))
    ensures FirstFit(cs, n) == i
  {
  }

  /** The list after kfree: the block's flag cleared, and every maximal run of free chunks made one. */
  lemma KfreeList(cs: Chunks, ptr: nat, lo: nat, hi: nat, i: nat)
    requires Layout(cs, lo, hi) && i < |cs| && cs[i].inuse && ptr == cs[i].addr + 32
    ensures Kfree(cs, ptr, hi) == if ptr < hi then MergeRuns(cs[i := Chunk(cs[i].addr, cs[i].size, false)]) else cs
  {
    IndexIs(cs, lo, hi, i);
    CoalesceMergesRuns(cs[i := Chunk(cs[i].addr, cs[i].size, false)]);
  }

  lemma TakeAt(cs: Chunks, i: nat, n: nat)
    requires i < |cs| && n <= cs[i].size
    ensures i < |Take(cs, i, n)| && Take(cs, i, n)[i] == Taken(cs[i], n)[0]
    ensures Taken(cs[i], n)[0].inuse && Taken(cs[i], n)[0].addr == cs[i].addr
  {
  }

  lemma PayloadAligned(c: Chunk)
    requires c.addr % 16 == 0
    ensures c.Payload() % 16 == 0
  {
  }

  lemma TakenSize(c: Chunk, n: nat)
    requires n <= c.size && n % 16 == 0 && c.size % 16 == 0
    ensures Taken(c, n)[0].addr == c.addr && n <= Taken(c, n)[0].size <= n + 32
  {
  }

  /** kalloc of n rounded bytes followed by kfree restores the list, chunk for chunk, unless the
      block is an empty one at the very end of the heap, whose pointer kfree takes for foreign. */
  lemma KallocThenKfree(cs: Chunks, n: nat, lo: nat, hi: nat, k: nat)
    requires HeapInv(cs, lo, hi, k) && Kalloc(cs, n).1 != 0
    ensures var (t, p) := Kalloc(cs, n);
            && (Kfree(t, p, hi) == cs <==> p < hi)
            && (p < hi <== n > 0)
  {
    var i := FirstFit(cs, n);
    var (t, p) := Kalloc(cs, n);
    TakeAt(cs, i, n);
    FirstOwned(cs, t, i, n, lo, hi);
    TakeThenRelease(cs, i, n);
    assert !cs[i].inuse && t[i].inuse;
  }

  lemma FirstOwned(cs: Chunks, t: Chunks, i: nat, n: nat, lo: nat, hi: nat)
    requires Layout(cs, lo, hi) && i < |cs| && n <= cs[i].size && t == Take(cs, i, n)
    ensures Owns(t, cs[i].Payload()) && IndexOf(t, cs[i].Payload()) == i
  {
    TakeAt(cs, i, n);
    var j := IndexOf(t, cs[i].Payload());
    if j < i {
      assert t[j] == cs[j];
      LayoutOrder(cs, lo, hi, j, i);
    }
  }

  /** The guard on `avail` never turns away a request that would fit. */
  lemma AvailGuard(cs: Chunks, n: nat, lo: nat, hi: nat, k: nat)
    requires HeapInv(cs, lo, hi, k) && n > hi - lo
    ensures FirstFit(cs, n) == |cs|
  {
  }

  /** Payloads of blocks in use are disjoint from every header and from each other. */
  lemma PayloadsDisjoint(cs: Chunks, lo: nat, hi: nat, i: nat, j: nat, x: nat)
    requires Layout(cs, lo, hi) && i < |cs| && j < |cs| && i != j && cs[i].Payload() <= x < cs[i].End()
    ensures !(cs[j].addr <= x < cs[j].End())
  {
    if i < j { LayoutOrder(cs, lo, hi, i, j); } else { LayoutOrder(cs, lo, hi, j, i); }
  }

  // ---------------------------------------------------------------- blocks that stay

  /** Blocks outside the spliced part stay. */
  lemma SpliceMember(cs: Chunks, i: nat, k: nat, s: Chunks, j: nat)
    requires i + k <= |cs| && j < |cs| && (j < i || j >= i + k)
    ensures cs[j] in Splice(cs, i, k, s)
  {
    var t := Splice(cs, i, k, s);
    if j < i { assert t[j] == cs[j]; } else { assert t[j - k + |s|] == cs[j]; }
  }

  lemma CoalesceMember(cs: Chunks, c: Chunk)
    requires c.inuse && c in cs
    ensures c in Coalesce(cs)
  {
    CoalesceKeepsInUse(cs);
    InUseMember(cs, c);
    InUseMember(Coalesce(cs), c);
  }

  /** kalloc keeps every block in use. */
  lemma KallocKeepsBlocks(cs: Chunks, n: nat, c: Chunk)
    requires c.inuse && c in cs
    ensures c in Kalloc(cs, n).0
  {
    var i := FirstFit(cs, n);
    if i < |cs| {
      var j :| 0 <= j < |cs| && cs[j] == c;
      SpliceMember(cs, i, 1, Taken(cs[i], n), j);
    }
  }

  lemma ReleaseMember(cs: Chunks, i: nat, c: Chunk)
    requires i < |cs| && c.inuse && c in cs && c != cs[i]
    ensures c in Release(cs, i)
  {
    var j :| 0 <= j < |cs| && cs[j] == c;
    var t := cs[i := Chunk(cs[i].addr, cs[i].size, false)];
    assert t[j] == c;
    CoalesceMember(t, c);
  }

  /** kfree keeps every other block in use. */
  lemma KfreeKeepsBlocks(cs: Chunks, ptr: nat, hi: nat, c: Chunk)
    requires c.inuse && c in cs && c.Payload() != ptr
    ensures c in Kfree(cs, ptr, hi)
  {
    if ptr < hi && Owns(cs, ptr) { ReleaseMember(cs, IndexOf(cs, ptr), c); }
  }

  /** krealloc keeps every other block in use. */
  lemma KreallocKeepsBlocks(cs: Chunks, ptr: nat, n: nat, hi: nat, c: Chunk)
    requires Owns(cs, ptr) && c.inuse && c in cs && c.Payload() != ptr
    ensures c in Krealloc(cs, ptr, n, hi).0
  {
    var i := IndexOf(cs, ptr);
    var j :| 0 <= j < |cs| && cs[j] == c;
    if Extends(cs, ptr, n) {
      SpliceMember(cs, i, 2, Extended(cs[i], cs[i + 1], n), j);
    } else {
      KallocKeepsBlocks(cs, n, c);
      KfreeKeepsBlocks(Kalloc(cs, n).0, ptr, hi, c);
      if n <= cs[i].size {
        SpliceMember(cs, i, 1, Taken(cs[i], n), j);
        CoalesceMember(Take(cs, i, n), c);
      }
    }
  }

  lemma MemberOwns(cs: Chunks, lo: nat, hi: nat, c: Chunk)
    requires Layout(cs, lo, hi) && c.inuse && c in cs
    ensures Owns(cs, c.Payload()) && cs[IndexOf(cs, c.Payload())] == c
  {
    var j :| 0 <= j < |cs| && cs[j] == c;
    IndexIs(cs, lo, hi, j);
  }

  /** kalloc's block: large enough, and not one that was in use. */
  lemma NewBlock(cs: Chunks, n: nat, lo: nat, hi: nat, k: nat) returns (c: Chunk)
    requires HeapInv(cs, lo, hi, k) && n % 16 == 0 && Kalloc(cs, n).1 != 0
    ensures c in Kalloc(cs, n).0 && c.inuse && c.Payload() == Kalloc(cs, n).1 && n <= c.size <= n + 36
    ensures !Owns(cs, c.Payload())
  {
    var i := FirstFit(cs, n);
    TakeAt(cs, i, n);
    TakenSize(cs[i], n);
    IndexIs(cs, lo, hi, i);
    c := Kalloc(cs, n).0[i];
  }

  /** A block that has to move goes to the lowest chunk that fits; NULL exactly when there is none. */
  lemma MoveAnswer(cs: Chunks, ptr: nat, n: nat, lo: nat, hi: nat, k: nat)
    requires HeapInv(cs, lo, hi, k) && n % 16 == 0 && Owns(cs, ptr)
    ensures var (t, a) := Move(cs, ptr, n, hi);
            && (a == Pointer(0) <==> forall j :: 0 <= j < |cs| ==> !Fits(cs[j], n))
            && (a == Pointer(0) ==> t == cs)
            && (a != Pointer(0) ==> LowestFit(cs, n, a) && BlockOf(t, a, n) && a.p != ptr)
  {
    var (t, p) := Kalloc(cs, n);
    if p != 0 {
      var c := NewBlock(cs, n, lo, hi, k);
      KallocInv(cs, n, lo, hi, k);
      KfreeKeepsBlocks(t, ptr, hi, c);
      KfreeInv(t, ptr, lo, hi, k);
      MemberOwns(Kfree(t, ptr, hi), lo, hi, c);
      assert cs[FirstFit(cs, n)].Payload() == p;
    }
  }

  /** The answer is the payload of the lowest chunk that holds n bytes. */
  ghost predicate LowestFit(cs: Chunks, n: nat, a: Answer) {
    a.Pointer? && exists j :: 0 <= j < |cs| && Fits(cs[j], n) && a.p == cs[j].addr + 32 && forall i :: 0 <= i < j ==> !Fits(cs[i], n)
  }

  /** The answer is a block in use of n to n + 36 bytes. */
  predicate BlockOf(t: Chunks, a: Answer, n: nat) {
    a.Pointer? && Owns(t, a.p) && n <= t[IndexOf(t, a.p)].size <= n + 36
  }

  /** Growing in place: the next chunk's rest keeps its end, 32 bytes after the block's. */
  lemma ExtendAnswer(cs: Chunks, i: nat, n: nat, lo: nat, hi: nat, k: nat)
    requires HeapInv(cs, lo, hi, k) && n % 16 == 0 && i + 1 < |cs| && CanExtend(cs, i, n)
    ensures var c, next, t := cs[i], cs[i + 1], Extend(cs, i, n);
            && t == cs[..i] + [Chunk(c.addr, n, true), Chunk(next.addr + 32 + (n - c.size), next.size - (n - c.size) - 32, false)] + cs[i + 2..]
            && Owns(t, c.Payload()) && t[IndexOf(t, c.Payload())].size == n
  {
    ExtendInv(cs, i, n, lo, hi, k);
    var t := Extend(cs, i, n);
    assert t[i] == Extended(cs[i], cs[i + 1], n)[0];
    IndexIs(t, lo, hi, i);
  }

  lemma ShrinkAnswer(cs: Chunks, i: nat, n: nat, lo: nat, hi: nat, k: nat)
    requires HeapInv(cs, lo, hi, k) && n % 16 == 0 && i < |cs| && cs[i].size > n + MIN_CHUNK_SIZE
    ensures var t := Coalesce(Take(cs, i, n));
            Owns(t, cs[i].Payload()) && t[IndexOf(t, cs[i].Payload())] == Chunk(cs[i].addr, n, true)
  {
    ShrinkInv(cs, i, n, lo, hi, k);
    var c := Taken(cs[i], n)[0];
    TakeAt(cs, i, n);
    CoalesceMember(Take(cs, i, n), c);
    MemberOwns(Coalesce(Take(cs, i, n)), lo, hi, c);
  }

  /** Shrinking in place: the block is cut and what is left over joins the free chunks after it. */
  lemma ShrinkList(cs: Chunks, i: nat, n: nat)
    requires i < |cs| && cs[i].size > n + MIN_CHUNK_SIZE
    ensures var c := cs[i];
            Coalesce(Take(cs, i, n))
            == MergeRuns(cs[..i] + [Chunk(c.addr, n, true), Chunk(c.addr + 32 + n, c.size - n - 32, false)] + cs[i + 1..])
  {
    CoalesceMergesRuns(Take(cs, i, n));
  }

  /** Whether krealloc has to move block i to give it n rounded bytes: the block grows and the chunk
      after it is in use or too small, or it shrinks by too little to leave a chunk. */
  predicate HasToMove(cs: Chunks, i: nat, n: nat)
    requires i < |cs|
  {
    || (n > cs[i].size && i + 1 < |cs| && (cs[i + 1].inuse || cs[i + 1].size < n - cs[i].size + 32))
    || n < cs[i].size <= n + 36
  }

  /** krealloc of block i to n rounded bytes, case by case. It faults exactly when the list's last block
      is to grow, and answers NULL exactly when the block has to move and nothing fits. */
  lemma KreallocAnswer(cs: Chunks, ptr: nat, n: nat, lo: nat, hi: nat, k: nat, i: nat)
    requires HeapInv(cs, lo, hi, k) && n % 16 == 0 && i < |cs| && cs[i].inuse && ptr == cs[i].addr + 32
    ensures Owns(cs, ptr)
    ensures var c, (t, a) := cs[i], Krealloc(cs, ptr, n, hi);
            && (a == Fault <==> n > c.size && i + 1 == |cs|)
            && (a == Pointer(0) <==> HasToMove(cs, i, n) && forall j :: 0 <= j < |cs| ==> !Fits(cs[j], n))
            && (a == Fault || a == Pointer(0) || n == c.size ==> t == cs)
            && (HasToMove(cs, i, n) && a != Pointer(0) ==> LowestFit(cs, n, a) && BlockOf(t, a, n) && a.p != ptr)
            && (a != Fault && !HasToMove(cs, i, n) ==> a == Pointer(ptr) && Owns(t, ptr) && t[IndexOf(t, ptr)] == Chunk(c.addr, n, true))
  {
    IndexIs(cs, lo, hi, i);
    if Extends(cs, ptr, n) {
      ExtendAnswer(cs, i, n, lo, hi, k);
    } else if cs[i].size > n && cs[i].size - n > MIN_CHUNK_SIZE {
      ShrinkAnswer(cs, i, n, lo, hi, k);
    } else {
      MoveAnswer(cs, ptr, n, lo, hi, k);
    }
  }

  /** The list krealloc leaves when the block stays where it is and changes its size. */
  lemma KreallocList(cs: Chunks, ptr: nat, n: nat, lo: nat, hi: nat, k: nat, i: nat)
    requires HeapInv(cs, lo, hi, k) && n % 16 == 0 && i < |cs| && cs[i].inuse && ptr == cs[i].addr + 32
    requires !HasToMove(cs, i, n) && n != cs[i].size && (n > cs[i].size ==> i + 1 < |cs|)
    ensures Owns(cs, ptr)
    ensures var c, t := cs[i], Krealloc(cs, ptr, n, hi).0;
            if n < c.size
            then t == MergeRuns(cs[..i] + [Chunk(c.addr, n, true), Chunk(c.addr + 32 + n, c.size - n - 32, false)] + cs[i + 1..])
            else var next := cs[i + 1];
                 t == cs[..i] + [Chunk(c.addr, n, true), Chunk(next.addr + 32 + (n - c.size), next.size - (n - c.size) - 32, false)] + cs[i + 2..]
  {
    IndexIs(cs, lo, hi, i);
    if n < cs[i].size { ShrinkList(cs, i, n); } else { ExtendAnswer(cs, i, n, lo, hi, k); }
  }

  /** The list krealloc leaves when the block moves to chunk j: as kalloc of the new block, then kfree of
      the old one, would. */
  lemma KreallocMoves(cs: Chunks, ptr: nat, n: nat, lo: nat, hi: nat, k: nat, i: nat, j: nat)
    requires HeapInv(cs, lo, hi, k) && n % 16 == 0 && i < |cs| && cs[i].inuse && ptr == cs[i].addr + 32 && HasToMove(cs, i, n)
    requires j < |cs| && Fits(cs[j], n) && forall q :: 0 <= q < j ==> !Fits(cs[q], n)
    ensures Owns(cs, ptr) && Krealloc(cs, ptr, n, hi) == (Kfree(Kalloc(cs, n).0, ptr, hi), Pointer(cs[j].addr + 32))
  {
    IndexIs(cs, lo, hi, i);
    FirstFitIs(cs, n, j);
  }
}
