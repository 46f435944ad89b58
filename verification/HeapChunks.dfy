/** Chunk lists: the heap of kheap.c as the sequence of its headers, and what splitting, freeing and
    coalescing do to it. */
module HeapChunks {
  import opened Words

  const HEADER: nat := 32              // sizeof(struct heapchunk_t)
  const MIN_CHUNK_SIZE: nat := 36      // sizeof(struct heapchunk_t) + 4

  /** A chunk: the address of its header, the size of its payload, and whether it is in use. */
  datatype Chunk = Chunk(addr: nat, size: nat, inuse: bool) {
    function Payload(): nat { addr + HEADER }
    function End(): nat { addr + HEADER + size }
  }

  type Chunks = seq<Chunk>

  /** `(size + 15) & ~15` on 64 bits; it wraps for the largest sizes. */
  function RoundUp(n: Word): Word { (n + 15) % TWO_64 / 16 * 16 }

  /** Rounding gives at least what was asked for exactly when it does not wrap. */
  lemma RoundUpEnough(n: Word)
    ensures RoundUp(n) % 16 == 0 && RoundUp(n) < n + 16
    ensures RoundUp(n) >= n <==> n <= TWO_64 - 16
    ensures RoundUp(RoundUp(n)) == RoundUp(n)
  {
  }

  // ---------------------------------------------------------------- well-formed lists

  /** Chunks in address order, aligned, none reaching into the next, all inside [lo, hi). */
  ghost predicate Layout(cs: Chunks, lo: nat, hi: nat) {
    && (forall i :: 0 <= i < |cs| ==> cs[i].addr % 16 == 0 && cs[i].size % 16 == 0 && lo <= cs[i].addr && cs[i].End() <= hi)
    && (forall i :: 0 <= i < |cs| - 1 ==> cs[i].End() <= cs[i + 1].addr)
  }

  lemma {:induction false} LayoutOrder(cs: Chunks, lo: nat, hi: nat, i: nat, j: nat)
    requires Layout(cs, lo, hi) && i < j < |cs|
    ensures cs[i].End() <= cs[j].addr
    decreases j
  {
    if i < j - 1 { LayoutOrder(cs, lo, hi, i, j - 1); }
  }

  /** No two neighbouring chunks are both free. */
  ghost predicate Coalesced(cs: Chunks) {
    forall i :: 0 <= i < |cs| - 1 ==> cs[i].inuse || cs[i + 1].inuse
  }

  /** Headers and payloads together. */
  function Total(cs: Chunks): nat {
    if cs == [] then 0 else HEADER + cs[0].size + Total(cs[1..])
  }

  lemma {:induction false} TotalConcat(a: Chunks, b: Chunks)
    ensures Total(a + b) == Total(a) + Total(b)
  {
    if a == [] {
      assert a + b == b;
    } else {
      assert (a + b)[1..] == a[1..] + b;
      TotalConcat(a[1..], b);
    }
  }

  // ---------------------------------------------------------------- kalloc

  predicate Fits(c: Chunk, n: nat) { !c.inuse && c.size >= n }

  /** The lowest-addressed chunk that is free and large enough, |cs| if there is none. */
  function FirstFit(cs: Chunks, n: nat): (i: nat)
    ensures i <= |cs| && (i < |cs| ==> Fits(cs[i], n))
    ensures forall j :: 0 <= j < i ==> !Fits(cs[j], n)
  {
    if cs == [] then 0
    else if Fits(cs[0], n) then 0
    else
      var i := FirstFit(cs[1..], n);
      assert forall j :: 1 <= j < i + 1 ==> cs[j] == cs[1..][j - 1];
      i + 1
  }

  /** Chunk i replaced by the chunks of s. */
  function Splice(cs: Chunks, i: nat, k: nat, s: Chunks): Chunks
    requires i + k <= |cs|
  {
    cs[..i] + s + cs[i + k..]
  }

  /** A chunk taken for n bytes, split when more than MIN_CHUNK_SIZE bytes would be left over. */
  function Taken(c: Chunk, n: nat): Chunks
    requires n <= c.size
  {
    if c.size - n > MIN_CHUNK_SIZE
    then [Chunk(c.addr, n, true), Chunk(c.addr + HEADER + n, c.size - n - HEADER, false)]
    else [Chunk(c.addr, c.size, true)]
  }

  function Take(cs: Chunks, i: nat, n: nat): Chunks
    requires i < |cs| && n <= cs[i].size
  {
    Splice(cs, i, 1, Taken(cs[i], n))
  }

  // ---------------------------------------------------------------- coalescing

  function Merge(a: Chunk, b: Chunk): Chunk { Chunk(a.addr, a.size + HEADER + b.size, false) }

  /** coalesce_chunk, left to right as its loop goes. */
  function Coalesce(cs: Chunks): Chunks
    decreases |cs|
  {
    if |cs| < 2 then cs
    else if !cs[0].inuse && !cs[1].inuse then Coalesce([Merge(cs[0], cs[1])] + cs[2..])
    else [cs[0]] + Coalesce(cs[1..])
  }

  lemma {:induction false} CoalesceKeepsTotal(cs: Chunks)
    ensures Total(Coalesce(cs)) == Total(cs)
    decreases |cs|
  {
    if |cs| >= 2 {
      if !cs[0].inuse && !cs[1].inuse {
        CoalesceKeepsTotal([Merge(cs[0], cs[1])] + cs[2..]);
        assert cs[1..][1..] == cs[2..];
        assert ([Merge(cs[0], cs[1])] + cs[2..])[1..] == cs[2..];
      } else {
        CoalesceKeepsTotal(cs[1..]);
        assert ([cs[0]] + Coalesce(cs[1..]))[1..] == Coalesce(cs[1..]);
      }
    }
  }

  /** The head stays where it is, and stays free or in use. */
  lemma {:induction false} CoalesceHead(cs: Chunks)
    requires cs != []
    ensures Coalesce(cs) != [] && Coalesce(cs)[0].addr == cs[0].addr && Coalesce(cs)[0].inuse == cs[0].inuse
    decreases |cs|
  {
    if |cs| >= 2 && !cs[0].inuse && !cs[1].inuse { CoalesceHead([Merge(cs[0], cs[1])] + cs[2..]); }
  }

  lemma LayoutTail(cs: Chunks, lo: nat, hi: nat)
    requires Layout(cs, lo, hi) && cs != []
    ensures Layout(cs[1..], cs[0].End(), hi)
  {
    forall i | 0 <= i < |cs| - 1 ensures cs[0].End() <= cs[1..][i].addr { LayoutOrder(cs, lo, hi, 0, i + 1); }
  }

  lemma LayoutCons(c: Chunk, cs: Chunks, lo: nat, hi: nat)
    requires Layout(cs, c.End(), hi) && c.addr % 16 == 0 && c.size % 16 == 0 && lo <= c.addr && c.End() <= hi
    ensures Layout([c] + cs, lo, hi)
  {
    var t := [c] + cs;
    assert forall i :: 1 <= i < |t| ==> t[i] == cs[i - 1];
  }

  lemma LayoutWeaken(cs: Chunks, lo: nat, lo': nat, hi: nat)
    requires Layout(cs, lo, hi) && lo' <= lo
    ensures Layout(cs, lo', hi)
  {
  }

  lemma {:induction false} CoalesceKeepsLayout(cs: Chunks, lo: nat, hi: nat)
    requires Layout(cs, lo, hi)
    ensures Layout(Coalesce(cs), lo, hi)
    decreases |cs|
  {
    if |cs| >= 2 {
      LayoutTail(cs, lo, hi);
      if !cs[0].inuse && !cs[1].inuse {
        var m := Merge(cs[0], cs[1]);
        LayoutTail(cs[1..], cs[0].End(), hi);
        assert cs[1..][1..] == cs[2..];
        LayoutWeaken(cs[2..], cs[1].End(), m.End(), hi);
        LayoutCons(m, cs[2..], lo, hi);
        CoalesceKeepsLayout([m] + cs[2..], lo, hi);
      } else {
        CoalesceKeepsLayout(cs[1..], cs[0].End(), hi);
        LayoutCons(cs[0], Coalesce(cs[1..]), lo, hi);
      }
    }
  }

  lemma {:induction false} CoalesceCoalesces(cs: Chunks)
    ensures Coalesced(Coalesce(cs))
    decreases |cs|
  {
    if |cs| >= 2 {
      if !cs[0].inuse && !cs[1].inuse {
        CoalesceCoalesces([Merge(cs[0], cs[1])] + cs[2..]);
      } else {
        CoalesceCoalesces(cs[1..]);
        CoalesceHead(cs[1..]);
      }
    }
  }

  lemma CoalescedTail(cs: Chunks)
    requires Coalesced(cs) && cs != []
    ensures Coalesced(cs[1..])
  {
    forall i | 0 <= i < |cs| - 2 ensures cs[1..][i].inuse || cs[1..][i + 1].inuse {
      assert cs[i + 1].inuse || cs[i + 1 + 1].inuse;
    }
  }

  lemma {:induction false} CoalesceIdle(cs: Chunks)
    requires Coalesced(cs)
    ensures Coalesce(cs) == cs
    decreases |cs|
  {
    if |cs| >= 2 {
      assert cs[0].inuse || cs[1].inuse;
      CoalescedTail(cs);
      CoalesceIdle(cs[1..]);
    }
  }

  /** coalesce_chunk a second time does nothing. */
  lemma CoalesceTwice(cs: Chunks)
    ensures Coalesce(Coalesce(cs)) == Coalesce(cs)
  {
    CoalesceCoalesces(cs);
    CoalesceIdle(Coalesce(cs));
  }

  /** The blocks in use. */
  function InUse(cs: Chunks): Chunks {
    if cs == [] then [] else (if cs[0].inuse then [cs[0]] else []) + InUse(cs[1..])
  }

  lemma {:induction false} InUseMember(cs: Chunks, c: Chunk)
    ensures c in InUse(cs) <==> c.inuse && c in cs
  {
    if cs != [] { InUseMember(cs[1..], c); }
  }

  lemma {:induction false} InUseConcat(a: Chunks, b: Chunks)
    ensures InUse(a + b) == InUse(a) + InUse(b)
  {
    if a == [] {
      assert a + b == b;
    } else {
      assert (a + b)[1..] == a[1..] + b && (a + b)[0] == a[0];
      InUseConcat(a[1..], b);
      var h := if a[0].inuse then [a[0]] else [];
      assert (h + InUse(a[1..])) + InUse(b) == h + (InUse(a[1..]) + InUse(b));
    }
  }

  lemma {:induction false} CoalesceKeepsInUse(cs: Chunks)
    ensures InUse(Coalesce(cs)) == InUse(cs)
    decreases |cs|
  {
    if |cs| >= 2 {
      if !cs[0].inuse && !cs[1].inuse {
        var t := [Merge(cs[0], cs[1])] + cs[2..];
        CoalesceKeepsInUse(t);
        assert t[1..] == cs[2..] && cs[1..][1..] == cs[2..];
      } else {
        CoalesceKeepsInUse(cs[1..]);
        assert ([cs[0]] + Coalesce(cs[1..]))[1..] == Coalesce(cs[1..]);
      }
    }
  }

  /** The length of the run of free chunks at the front. */
  function FreeRun(cs: Chunks): (k: nat)
    ensures k <= |cs|
  {
    if cs == [] || cs[0].inuse then 0 else 1 + FreeRun(cs[1..])
  }

  /** Each maximal run of free chunks replaced by one chunk of the combined size. */
  function MergeRuns(cs: Chunks): Chunks
    decreases |cs|
  {
    if cs == [] then []
    else if cs[0].inuse then [cs[0]] + MergeRuns(cs[1..])
    else
      var k := FreeRun(cs);
      [Chunk(cs[0].addr, Total(cs[..k]) - HEADER, false)] + MergeRuns(cs[k..])
  }

  lemma MergedTotal(cs: Chunks, k: nat)
    requires 1 <= k < |cs|
    ensures Total(([Merge(cs[0], cs[1])] + cs[2..])[..k]) == Total(cs[..k + 1])
  {
    var t := [Merge(cs[0], cs[1])] + cs[2..];
    var u, v := t[..k], cs[..k + 1];
    assert u[1..] == cs[2..k + 1];
    assert v[1..] == cs[1..k + 1];
    assert v[1..][1..] == cs[2..k + 1];
  }

  lemma RunOfOne(cs: Chunks)
    requires cs != [] && !cs[0].inuse && (|cs| == 1 || cs[1].inuse)
    ensures FreeRun(cs) == 1 && Total(cs[..1]) == HEADER + cs[0].size
  {
    assert cs[1..] == [] || cs[1..][0] == cs[1];
    assert cs[..1] == [cs[0]] && cs[..1][1..] == [];
  }

  lemma MergeRunsAlone(cs: Chunks)
    requires cs != [] && (cs[0].inuse || |cs| == 1 || cs[1].inuse)
    ensures MergeRuns(cs) == [cs[0]] + MergeRuns(cs[1..])
  {
    if !cs[0].inuse { RunOfOne(cs); }
  }

  lemma RunOfPair(cs: Chunks)
    requires |cs| >= 2 && !cs[0].inuse && !cs[1].inuse
    ensures FreeRun(cs) == FreeRun([Merge(cs[0], cs[1])] + cs[2..]) + 1
  {
    assert ([Merge(cs[0], cs[1])] + cs[2..])[1..] == cs[2..];
    assert cs[1..][1..] == cs[2..];
  }

  lemma {:induction false} SameRuns(cs: Chunks, t: Chunks)
    requires cs != [] && !cs[0].inuse && t != [] && !t[0].inuse && t[0].addr == cs[0].addr
    requires Total(t[..FreeRun(t)]) == Total(cs[..FreeRun(cs)]) && t[FreeRun(t)..] == cs[FreeRun(cs)..]
    ensures MergeRuns(cs) == MergeRuns(t)
  {
  }

  lemma MergeRunsPair(cs: Chunks)
    requires |cs| >= 2 && !cs[0].inuse && !cs[1].inuse
    ensures MergeRuns(cs) == MergeRuns([Merge(cs[0], cs[1])] + cs[2..])
  {
    var t := [Merge(cs[0], cs[1])] + cs[2..];
    var k := FreeRun(t);
    RunOfPair(cs);
    assert t[k..] == cs[k + 1..];
    MergedTotal(cs, k);
    SameRuns(cs, t);
  }

  /** The loop computes exactly that. */
  lemma {:induction false} CoalesceMergesRuns(cs: Chunks)
    ensures Coalesce(cs) == MergeRuns(cs)
    decreases |cs|
  {
    if |cs| >= 2 && !cs[0].inuse && !cs[1].inuse {
      CoalesceMergesRuns([Merge(cs[0], cs[1])] + cs[2..]);
      MergeRunsPair(cs);
    } else if cs != [] {
      CoalesceMergesRuns(cs[1..]);
      MergeRunsAlone(cs);
    }
  }

  // ---------------------------------------------------------------- replacing chunks

  lemma SpliceLayout(cs: Chunks, i: nat, k: nat, s: Chunks, lo: nat, hi: nat)
    requires Layout(cs, lo, hi) && k > 0 && i + k <= |cs| && s != []
    requires Layout(s, cs[i].addr, cs[i + k - 1].End())
    ensures Layout(Splice(cs, i, k, s), lo, hi)
  {
    var t := Splice(cs, i, k, s);
    forall j | 0 <= j < |t| - 1 ensures t[j].End() <= t[j + 1].addr {
      if j + 1 < i {
        assert t[j] == cs[j] && t[j + 1] == cs[j + 1];
      } else if j + 1 == i {
        assert t[j] == cs[j] && t[j + 1] == s[0];
      } else if j + 1 < i + |s| {
        assert t[j] == s[j - i] && t[j + 1] == s[j - i + 1];
      } else if j + 1 == i + |s| {
        assert t[j] == s[|s| - 1] && t[j + 1] == cs[i + k];
      } else {
        assert t[j] == cs[j - |s| + k] && t[j + 1] == cs[j - |s| + k + 1];
      }
    }
    forall j | 0 <= j < |t|
      ensures t[j].addr % 16 == 0 && t[j].size % 16 == 0 && lo <= t[j].addr && t[j].End() <= hi
    {
      assert t[j] == if j < i then cs[j] else if j < i + |s| then s[j - i] else cs[j - |s| + k];
    }
  }

  lemma SpliceTotal(cs: Chunks, i: nat, k: nat, s: Chunks)
    requires i + k <= |cs|
    ensures Total(Splice(cs, i, k, s)) == Total(cs) - Total(cs[i..i + k]) + Total(s)
  {
    assert cs == cs[..i] + cs[i..i + k] + cs[i + k..];
    TotalConcat(cs[..i] + cs[i..i + k], cs[i + k..]);
    TotalConcat(cs[..i], cs[i..i + k]);
    TotalConcat(cs[..i] + s, cs[i + k..]);
    TotalConcat(cs[..i], s);
  }

  lemma TotalOne(c: Chunk)
    ensures Total([c]) == HEADER + c.size
  {
  }

  lemma TotalTwo(a: Chunk, b: Chunk)
    ensures Total([a, b]) == 2 * HEADER + a.size + b.size
  {
    assert [a, b][1..] == [b];
    TotalOne(b);
  }

  /** Replacing chunks by chunks with a used one in front keeps the list coalesced. */
  lemma SpliceCoalesced(cs: Chunks, i: nat, k: nat, s: Chunks)
    requires Coalesced(cs) && k > 0 && i + k <= |cs|
    requires |s| == 1 || |s| == 2
    requires s[0].inuse && (s[|s| - 1].inuse || !cs[i + k - 1].inuse)
    ensures Coalesced(Splice(cs, i, k, s))
  {
    var t := Splice(cs, i, k, s);
    forall j | 0 <= j < |t| - 1 ensures t[j].inuse || t[j + 1].inuse {
      if j + 1 < i {
        assert t[j] == cs[j] && t[j + 1] == cs[j + 1];
      } else if j + 1 == i {
        assert t[j + 1] == s[0];
      } else if j == i {
        assert t[j] == s[0];
      } else if j + 1 == i + |s| {
        assert t[j] == s[|s| - 1] && t[j + 1] == cs[i + k] && (cs[i + k - 1].inuse || cs[i + k - 1 + 1].inuse);
      } else {
        assert t[j] == cs[j - |s| + k] && t[j + 1] == cs[j - |s| + k + 1];
      }
    }
  }

  lemma LeftoverAligned(size: nat, n: nat)
    requires size % 16 == 0 && n % 16 == 0 && size >= n + HEADER
    ensures (size - n - HEADER) % 16 == 0
  {
  }

  lemma SpliceOne(cs: Chunks, i: nat, c: Chunk)
    requires i < |cs|
    ensures Splice(cs, i, 1, [c]) == cs[i := c]
  {
  }

  lemma TakenChunks(c: Chunk, n: nat)
    requires n <= c.size
    ensures var s := Taken(c, n); s != [] && s[0].inuse && Total(s) == HEADER + c.size
    ensures c.addr % 16 == 0 && c.size % 16 == 0 && n % 16 == 0 ==> Layout(Taken(c, n), c.addr, c.End())
  {
    if c.size - n > MIN_CHUNK_SIZE {
      TotalTwo(Taken(c, n)[0], Taken(c, n)[1]);
      if c.size % 16 == 0 && n % 16 == 0 { LeftoverAligned(c.size, n); }
    } else {
      TotalOne(Taken(c, n)[0]);
    }
  }

  lemma TakeLayout(cs: Chunks, i: nat, n: nat, lo: nat, hi: nat)
    requires Layout(cs, lo, hi) && i < |cs| && n <= cs[i].size && n % 16 == 0
    ensures Layout(Take(cs, i, n), lo, hi)
  {
    TakenChunks(cs[i], n);
    SpliceLayout(cs, i, 1, Taken(cs[i], n), lo, hi);
  }

  lemma TakeCoalesced(cs: Chunks, i: nat, n: nat)
    requires Coalesced(cs) && i < |cs| && Fits(cs[i], n)
    ensures Coalesced(Take(cs, i, n))
  {
    SpliceCoalesced(cs, i, 1, Taken(cs[i], n));
  }

  lemma ReplaceTotal(cs: Chunks, i: nat, s: Chunks)
    requires i < |cs| && Total(s) == HEADER + cs[i].size
    ensures Total(Splice(cs, i, 1, s)) == Total(cs)
  {
    SpliceTotal(cs, i, 1, s);
    assert cs[i..i + 1] == [cs[i]];
    TotalOne(cs[i]);
  }

  lemma TakeTotal(cs: Chunks, i: nat, n: nat)
    requires i < |cs| && n <= cs[i].size
    ensures Total(Take(cs, i, n)) == Total(cs)
  {
    TakenChunks(cs[i], n);
    ReplaceTotal(cs, i, Taken(cs[i], n));
  }

  // ---------------------------------------------------------------- kfree

  /** Chunk i set free and the list coalesced. */
  function Release(cs: Chunks, i: nat): Chunks
    requires i < |cs|
  {
    Coalesce(cs[i := Chunk(cs[i].addr, cs[i].size, false)])
  }

  lemma ReleaseKeeps(cs: Chunks, i: nat, lo: nat, hi: nat)
    requires Layout(cs, lo, hi) && i < |cs|
    ensures Layout(Release(cs, i), lo, hi) && Coalesced(Release(cs, i)) && Total(Release(cs, i)) == Total(cs)
  {
    var c := Chunk(cs[i].addr, cs[i].size, false);
    var t := cs[i := c];
    assert t == Splice(cs, i, 1, [c]);
    SpliceLayout(cs, i, 1, [c], lo, hi);
    SpliceTotal(cs, i, 1, [c]);
    assert cs[i..i + 1] == [cs[i]];
    TotalOne(c);
    TotalOne(cs[i]);
    CoalesceKeepsTotal(t);
    CoalesceKeepsLayout(t, lo, hi);
    CoalesceCoalesces(t);
  }

  lemma FirstTwo(cs: Chunks)
    requires Coalesced(cs) && |cs| > 1
    ensures cs[0].inuse || cs[1].inuse
  {
    assert cs[0].inuse || cs[0 + 1].inuse;
  }

  lemma CoalesceFirst(cs: Chunks)
    requires |cs| > 1 && (cs[0].inuse || cs[1].inuse)
    ensures Coalesce(cs) == [cs[0]] + Coalesce(cs[1..])
  {
  }

  lemma PrefixStep(a: Chunks, b: Chunks)
    requires a != [] && Coalesced(a) && (a[|a| - 1].inuse || b == [] || b[0].inuse)
    ensures Coalesce(a + b) == [a[0]] + Coalesce(a[1..] + b)
  {
    if |a + b| > 1 {
      if |a| > 1 { FirstTwo(a); }
      CoalesceFirst(a + b);
    }
    assert (a + b)[1..] == a[1..] + b;
  }

  /** A coalesced prefix that ends in use is not touched. */
  lemma {:induction false} CoalescePrefix(a: Chunks, b: Chunks)
    requires Coalesced(a) && (a == [] || a[|a| - 1].inuse || b == [] || b[0].inuse)
    ensures Coalesce(a + b) == a + Coalesce(b)
    decreases |a|
  {
    if a == [] {
      assert a + b == b;
    } else {
      PrefixStep(a, b);
      CoalescedTail(a);
      CoalescePrefix(a[1..], b);
      assert a + Coalesce(b) == [a[0]] + (a[1..] + Coalesce(b));
    }
  }

  lemma MergePair(u: Chunk, v: Chunk, b: Chunks)
    requires !u.inuse && !v.inuse
    ensures Coalesce([u, v] + b) == Coalesce([Merge(u, v)] + b)
  {
    assert ([u, v] + b)[2..] == b;
  }

  lemma CoalescedTake(cs: Chunks, i: nat)
    requires Coalesced(cs) && i <= |cs|
    ensures Coalesced(cs[..i])
  {
    forall j | 0 <= j < i - 1 ensures cs[..i][j].inuse || cs[..i][j + 1].inuse { assert cs[j].inuse || cs[j + 1].inuse; }
  }

  lemma BeforeFree(cs: Chunks, i: nat)
    requires Coalesced(cs) && 0 < i < |cs| && !cs[i].inuse
    ensures cs[i - 1].inuse
  {
  }

  lemma SameTail(a: Chunks, s: Chunks, t: Chunks)
    requires Coalesced(a) && (a == [] || a[|a| - 1].inuse) && Coalesce(s) == Coalesce(t)
    ensures Coalesce(a + s) == Coalesce(a + t)
  {
    CoalescePrefix(a, s);
    CoalescePrefix(a, t);
  }

  /** Two free chunks amid a coalesced list merge, and nothing else does. */
  lemma TwoMerge(a: Chunks, u: Chunk, v: Chunk, b: Chunks)
    requires !u.inuse && !v.inuse && Coalesced(a + ([Merge(u, v)] + b))
    ensures Coalesce(a + ([u, v] + b)) == a + ([Merge(u, v)] + b)
  {
    var cs := a + ([Merge(u, v)] + b);
    assert cs[..|a|] == a && cs[|a|] == Merge(u, v);
    CoalescedTake(cs, |a|);
    if a != [] { BeforeFree(cs, |a|); }
    MergePair(u, v, b);
    SameTail(a, [u, v] + b, [Merge(u, v)] + b);
    CoalesceIdle(cs);
  }

  /** kalloc followed by kfree of the block restores the list exactly. */
  lemma TakeThenRelease(cs: Chunks, i: nat, n: nat)
    requires Coalesced(cs) && i < |cs| && Fits(cs[i], n)
    ensures i < |Take(cs, i, n)| && Release(Take(cs, i, n), i) == cs
  {
    var c, a, b, t := cs[i], cs[..i], cs[i + 1..], Take(cs, i, n);
    var freed := t[i := Chunk(t[i].addr, t[i].size, false)];
    if c.size - n > MIN_CHUNK_SIZE {
      var u, v := Chunk(c.addr, n, false), Chunk(c.addr + HEADER + n, c.size - n - HEADER, false);
      assert Merge(u, v) == c && cs == a + ([c] + b);
      TwoMerge(a, u, v, b);
      assert freed == a + ([u, v] + b);
    } else {
      CoalesceIdle(cs);
      SpliceOne(cs, i, Chunk(c.addr, c.size, true));
      assert c == Chunk(c.addr, c.size, false);
      assert freed == cs;
    }
  }

  // ---------------------------------------------------------------- coalesce_chunk, one turn at a time

  lemma MergeTurn(cs: Chunks, i: nat)
    requires i + 1 < |cs| && !cs[i].inuse && !cs[i + 1].inuse
    ensures var t := Splice(cs, i, 2, [Merge(cs[i], cs[i + 1])]);
            t[..i] + Coalesce(t[i..]) == cs[..i] + Coalesce(cs[i..]) && InUse(t) == InUse(cs)
  {
    var m := Merge(cs[i], cs[i + 1]);
    var t := Splice(cs, i, 2, [m]);
    assert t[..i] == cs[..i] && t[i..] == [m] + cs[i + 2..];
    assert cs[i..][2..] == cs[i + 2..];
    assert cs == cs[..i] + ([cs[i], cs[i + 1]] + cs[i + 2..]);
    assert t == cs[..i] + ([m] + cs[i + 2..]);
    InUseConcat(cs[..i], [cs[i], cs[i + 1]] + cs[i + 2..]);
    InUseConcat(cs[..i], [m] + cs[i + 2..]);
    assert ([cs[i], cs[i + 1]] + cs[i + 2..])[1..] == [cs[i + 1]] + cs[i + 2..];
    assert ([cs[i + 1]] + cs[i + 2..])[1..] == cs[i + 2..];
    assert ([m] + cs[i + 2..])[1..] == cs[i + 2..];
  }

  lemma AdvanceTurn(cs: Chunks, i: nat)
    requires i + 1 < |cs| && (cs[i].inuse || cs[i + 1].inuse)
    ensures cs[..i + 1] + Coalesce(cs[i + 1..]) == cs[..i] + Coalesce(cs[i..])
  {
    var rest := Coalesce(cs[i + 1..]);
    assert cs[i..][1..] == cs[i + 1..] && cs[i..][0] == cs[i] && cs[i..][1] == cs[i + 1];
    assert Coalesce(cs[i..]) == [cs[i]] + rest;
    assert cs[..i + 1] == cs[..i] + [cs[i]];
    assert (cs[..i] + [cs[i]]) + rest == cs[..i] + ([cs[i]] + rest);
  }

  lemma LastTurn(cs: Chunks, i: nat)
    requires i + 1 == |cs|
    ensures cs[..i] + Coalesce(cs[i..]) == cs
  {
    assert cs[i..] == [cs[i]];
  }

  lemma MergeLayout(cs: Chunks, i: nat, lo: nat, hi: nat)
    requires Layout(cs, lo, hi) && i + 1 < |cs|
    ensures Layout(Splice(cs, i, 2, [Merge(cs[i], cs[i + 1])]), lo, hi)
  {
    var m := Merge(cs[i], cs[i + 1]);
    assert m.size % 16 == 0;
    SpliceLayout(cs, i, 2, [m], lo, hi);
  }
}
