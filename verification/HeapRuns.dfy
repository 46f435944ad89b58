/** Whole runs of heap calls (kheap.c): what holds in every reachable state, and which pointers are
    outstanding. */
module HeapRuns {
  import opened Words
  import opened HeapChunks
  import opened HeapSpec

  datatype Op = Alloc(size: Word) | Free(ptr: Word) | Resize(ptr: Word, newSize: Word)

  /** The calls the heap's users may make: free and resize only what is theirs, or NULL. A resize
      must not wrap the comparison of an in-place extension, which no request up to 2^64 - 48 does. */
  predicate Allowed(cs: Chunks, op: Op) {
    match op
    case Alloc(_) => true
    case Free(ptr) => ptr == 0 || Owns(cs, ptr)
    case Resize(ptr, newSize) => ptr == 0 || (Owns(cs, ptr) && GuardHolds(cs, ptr, RoundUp(newSize)))
  }

  function Step(cs: Chunks, op: Op, hi: nat): Chunks
    requires Allowed(cs, op)
  {
    match op
    case Alloc(size) => Kalloc(cs, RoundUp(size)).0
    case Free(ptr) => Kfree(cs, ptr, hi)
    case Resize(ptr, newSize) =>
      if ptr == 0 then Kalloc(cs, RoundUp(newSize)).0 else Krealloc(cs, ptr, RoundUp(newSize), hi).0
  }

  predicate GrowsInPlace(cs: Chunks, op: Op) {
    op.Resize? && op.ptr != 0 && Extends(cs, op.ptr, RoundUp(op.newSize))
  }

  /** A run: states[0] is the start and each operation leads to the next state. */
  ghost predicate IsRun(states: seq<Chunks>, ops: seq<Op>, hi: nat) {
    |states| == |ops| + 1 &&
    forall t :: 0 <= t < |ops| ==> Allowed(states[t], ops[t]) && states[t + 1] == Step(states[t], ops[t], hi)
  }

  /** How many of the first t operations extended a block in place. */
  function Extensions(states: seq<Chunks>, ops: seq<Op>, t: nat): nat
    requires t <= |ops| && |states| == |ops| + 1
  {
    if t == 0 then 0 else Extensions(states, ops, t - 1) + if GrowsInPlace(states[t - 1], ops[t - 1]) then 1 else 0
  }

  lemma StepInv(cs: Chunks, op: Op, lo: nat, hi: nat, k: nat)
    requires HeapInv(cs, lo, hi, k) && Allowed(cs, op)
    ensures HeapInv(Step(cs, op, hi), lo, hi, k + if GrowsInPlace(cs, op) then 1 else 0)
  {
    match op
    case Alloc(size) =>
      RoundUpEnough(size);
      KallocInv(cs, RoundUp(size), lo, hi, k);
    case Free(ptr) =>
      KfreeInv(cs, ptr, lo, hi, k);
    case Resize(ptr, newSize) =>
      RoundUpEnough(newSize);
      if ptr == 0 { KallocInv(cs, RoundUp(newSize), lo, hi, k); }
      else { KreallocInv(cs, ptr, RoundUp(newSize), lo, hi, k); }
  }

  /** In every reachable state the list is ordered, aligned, free of overlap and coalesced, and no
      byte is lost but a header's worth per in-place extension. */
  lemma {:induction false} RunInv(states: seq<Chunks>, ops: seq<Op>, lo: nat, hi: nat, t: nat)
    requires IsRun(states, ops, hi) && t <= |ops| && HeapInv(states[0], lo, hi, 0)
    ensures HeapInv(states[t], lo, hi, Extensions(states, ops, t))
    decreases t
  {
    if t > 0 {
      RunInv(states, ops, lo, hi, t - 1);
      StepInv(states[t - 1], ops[t - 1], lo, hi, Extensions(states, ops, t - 1));
    }
  }

  // ---------------------------------------------------------------- pointers in use

  /** The payload addresses of the blocks in use. */
  function Payloads(cs: Chunks): set<nat> { set c | c in cs && c.inuse :: c.Payload() }

  lemma PayloadsOwned(cs: Chunks, lo: nat, hi: nat, x: nat)
    requires Layout(cs, lo, hi)
    ensures x in Payloads(cs) <==> Owns(cs, x)
  {
    if x in Payloads(cs) {
      var c :| c in cs && c.inuse && c.Payload() == x;
      MemberOwns(cs, lo, hi, c);
    }
    if Owns(cs, x) { assert cs[IndexOf(cs, x)] in cs; }
  }

  lemma PayloadsBelow(cs: Chunks, lo: nat, hi: nat, x: nat)
    requires Layout(cs, lo, hi) && x in Payloads(cs)
    ensures HEADER <= x <= hi
  {
  }

  lemma PayloadsConcat(a: Chunks, b: Chunks)
    ensures Payloads(a + b) == Payloads(a) + Payloads(b)
  {
  }

  /** The payloads outside chunks i..i+k. */
  function Around(cs: Chunks, i: nat, k: nat): set<nat>
    requires i + k <= |cs|
  {
    Payloads(cs[..i]) + Payloads(cs[i + k..])
  }

  lemma PayloadsReplaced(cs: Chunks, i: nat, k: nat, s: Chunks)
    requires i + k <= |cs|
    ensures Payloads(Splice(cs, i, k, s)) == Around(cs, i, k) + Payloads(s)
  {
    PayloadsConcat(cs[..i], s);
    PayloadsConcat(cs[..i] + s, cs[i + k..]);
  }

  lemma PayloadsSplice(cs: Chunks, i: nat, k: nat, s: Chunks)
    requires i + k <= |cs|
    ensures Payloads(cs) == Around(cs, i, k) + Payloads(cs[i..i + k])
    ensures Payloads(Splice(cs, i, k, s)) == Around(cs, i, k) + Payloads(s)
  {
    PayloadsReplaced(cs, i, k, s);
    PayloadsReplaced(cs, i, k, cs[i..i + k]);
    assert Splice(cs, i, k, cs[i..i + k]) == cs;
  }

  lemma PayloadsCoalesce(cs: Chunks)
    ensures Payloads(Coalesce(cs)) == Payloads(cs)
  {
    CoalesceKeepsInUse(cs);
    forall c: Chunk ensures c.inuse && c in cs <==> c.inuse && c in Coalesce(cs) {
      InUseMember(cs, c);
      InUseMember(Coalesce(cs), c);
    }
    forall x ensures x in Payloads(Coalesce(cs)) <==> x in Payloads(cs) {
      if x in Payloads(cs) {
        var c :| c in cs && c.inuse && c.Payload() == x;
        assert c in Coalesce(cs);
      }
      if x in Payloads(Coalesce(cs)) {
        var c :| c in Coalesce(cs) && c.inuse && c.Payload() == x;
        assert c in cs;
      }
    }
  }

  lemma PayloadsTaken(c: Chunk, n: nat)
    requires n <= c.size
    ensures Payloads(Taken(c, n)) == {c.Payload()}
  {
    assert Taken(c, n)[0].Payload() == c.Payload();
  }

  lemma PayloadsOne(c: Chunk)
    ensures Payloads([c]) == if c.inuse then {c.Payload()} else {}
  {
    if c.inuse { assert c in [c]; }
  }

  /** Taking a free chunk adds its payload; shrinking a used one changes nothing. */
  lemma TakePayloads(cs: Chunks, i: nat, n: nat)
    requires i < |cs| && n <= cs[i].size
    ensures Payloads(Take(cs, i, n)) == Payloads(cs) + {cs[i].Payload()}
  {
    PayloadsSplice(cs, i, 1, Taken(cs[i], n));
    PayloadsTaken(cs[i], n);
    assert cs[i..i + 1] == [cs[i]];
    PayloadsOne(cs[i]);
  }

  lemma PayloadsTwo(a: Chunk, b: Chunk)
    requires a.inuse && !b.inuse
    ensures Payloads([a, b]) == {a.Payload()}
  {
    assert a in [a, b];
  }

  lemma ExtendPayloads(cs: Chunks, i: nat, n: nat)
    requires i + 1 < |cs| && CanExtend(cs, i, n) && cs[i].inuse
    ensures Payloads(Extend(cs, i, n)) == Payloads(cs)
  {
    var s := Extended(cs[i], cs[i + 1], n);
    PayloadsSplice(cs, i, 2, s);
    assert cs[i..i + 2] == [cs[i], cs[i + 1]];
    PayloadsTwo(s[0], s[1]);
    PayloadsTwo(cs[i], cs[i + 1]);
  }

  lemma ElsewherePayloads(cs: Chunks, i: nat, lo: nat, hi: nat)
    requires Layout(cs, lo, hi) && i < |cs|
    ensures cs[i].Payload() !in Around(cs, i, 1)
  {
    forall c | c in cs[..i] ensures c.Payload() != cs[i].Payload() {
      var j :| 0 <= j < i && cs[j] == c;
      LayoutOrder(cs, lo, hi, j, i);
    }
    forall c | c in cs[i + 1..] ensures c.Payload() != cs[i].Payload() {
      var j :| i < j < |cs| && cs[j] == c;
      LayoutOrder(cs, lo, hi, i, j);
    }
  }

  lemma ReleasePayloads(cs: Chunks, i: nat, lo: nat, hi: nat)
    requires Layout(cs, lo, hi) && i < |cs|
    ensures Payloads(Release(cs, i)) == Payloads(cs) - {cs[i].Payload()}
  {
    var c := Chunk(cs[i].addr, cs[i].size, false);
    SpliceOne(cs, i, c);
    PayloadsSplice(cs, i, 1, [c]);
    assert cs[i..i + 1] == [cs[i]];
    PayloadsOne(c);
    PayloadsOne(cs[i]);
    ElsewherePayloads(cs, i, lo, hi);
    PayloadsCoalesce(cs[i := c]);
  }

  // ---------------------------------------------------------------- what each call does to them

  /** kalloc hands out one pointer that was not in use. */
  lemma KallocPayloads(cs: Chunks, n: nat)
    ensures var (t, p) := Kalloc(cs, n); Payloads(t) == if p == 0 then Payloads(cs) else Payloads(cs) + {p}
  {
    var i := FirstFit(cs, n);
    if i < |cs| { TakePayloads(cs, i, n); }
  }

  /** kfree takes back its pointer, unless it is heap_end. */
  lemma KfreePayloads(cs: Chunks, ptr: nat, lo: nat, hi: nat)
    requires Layout(cs, lo, hi) && Owns(cs, ptr)
    ensures Payloads(Kfree(cs, ptr, hi)) == if ptr < hi then Payloads(cs) - {ptr} else Payloads(cs)
  {
    if ptr < hi { ReleasePayloads(cs, IndexOf(cs, ptr), lo, hi); }
  }

  /** A freed block is no longer in use, and every other block is as before. */
  lemma KfreeInUse(cs: Chunks, ptr: nat, lo: nat, hi: nat, k: nat, c: Chunk)
    requires HeapInv(cs, lo, hi, k) && Owns(cs, ptr) && ptr < hi
    ensures c in InUse(Kfree(cs, ptr, hi)) <==> c in InUse(cs) && c.Payload() != ptr
  {
    var i := IndexOf(cs, ptr);
    var t := cs[i := Chunk(cs[i].addr, cs[i].size, false)];
    CoalesceKeepsInUse(t);
    InUseMember(t, c);
    InUseMember(cs, c);
    if c in t && c.inuse {
      var j :| 0 <= j < |t| && t[j] == c;
      IndexIs(cs, lo, hi, j);
    }
    if c in cs && c.Payload() != ptr {
      var j :| 0 <= j < |cs| && cs[j] == c;
      assert t[j] == c;
    }
  }

  /** The pointers in use after krealloc's answer a to ptr, and the one it can never take back. */
  function Answered(h: set<nat>, ptr: nat, a: Answer): set<nat> {
    if a.Fault? || a.p == 0 then h else h - {ptr} + {a.p}
  }

  lemma MovePayloads(cs: Chunks, ptr: nat, n: nat, lo: nat, hi: nat, k: nat)
    requires HeapInv(cs, lo, hi, k) && n % 16 == 0 && Owns(cs, ptr) && ptr < hi
    ensures var (t, a) := Move(cs, ptr, n, hi); Payloads(t) == Answered(Payloads(cs), ptr, a)
  {
    var (t, p) := Kalloc(cs, n);
    if p != 0 {
      MoveAnswer(cs, ptr, n, lo, hi, k);
      KallocPayloads(cs, n);
      KallocInv(cs, n, lo, hi, k);
      KallocKeepsBlocks(cs, n, cs[IndexOf(cs, ptr)]);
      MemberOwns(t, lo, hi, cs[IndexOf(cs, ptr)]);
      KfreePayloads(t, ptr, lo, hi);
    }
  }

  /** An empty block at heap_end is the last chunk. */
  lemma EmptyAtEnd(cs: Chunks, lo: nat, hi: nat)
    requires Layout(cs, lo, hi) && Owns(cs, hi)
    ensures IndexOf(cs, hi) == |cs| - 1 && cs[|cs| - 1].size == 0
  {
    var i := IndexOf(cs, hi);
    if i < |cs| - 1 { LayoutOrder(cs, lo, hi, i, |cs| - 1); }
  }

  /** krealloc exchanges its pointer for its answer. */
  lemma KreallocPayloads(cs: Chunks, ptr: nat, n: nat, lo: nat, hi: nat, k: nat)
    requires HeapInv(cs, lo, hi, k) && n % 16 == 0 && Owns(cs, ptr)
    ensures var (t, a) := Krealloc(cs, ptr, n, hi); Payloads(t) == Answered(Payloads(cs), ptr, a)
  {
    var i := IndexOf(cs, ptr);
    PayloadsOwned(cs, lo, hi, ptr);
    PayloadsBelow(cs, lo, hi, ptr);
    if Extends(cs, ptr, n) {
      ExtendPayloads(cs, i, n);
    } else if cs[i].size > n && cs[i].size - n > MIN_CHUNK_SIZE {
      TakePayloads(cs, i, n);
      PayloadsCoalesce(Take(cs, i, n));
    } else if ptr == hi {
      EmptyAtEnd(cs, lo, hi);
    } else {
      MovePayloads(cs, ptr, n, lo, hi, k);
    }
  }

  lemma EndStays(h: set<nat>, cs: Chunks, ptr: nat, n: nat, lo: nat, hi: nat)
    requires Layout(cs, lo, hi) && Owns(cs, ptr) && hi in h
    ensures hi in Answered(h, ptr, Krealloc(cs, ptr, n, hi).1)
  {
    if ptr == hi { EmptyAtEnd(cs, lo, hi); }
  }

  // ---------------------------------------------------------------- outstanding pointers

  /** The pointers handed out and not given back, after one more call. */
  function Outstanding1(h: set<nat>, cs: Chunks, op: Op, hi: nat): set<nat>
    requires Allowed(cs, op)
  {
    match op
    case Alloc(size) => Given(h, Kalloc(cs, RoundUp(size)).1)
    case Free(ptr) => h - {ptr}
    case Resize(ptr, newSize) =>
      if ptr == 0 then Given(h, Kalloc(cs, RoundUp(newSize)).1) else Answered(h, ptr, Krealloc(cs, ptr, RoundUp(newSize), hi).1)
  }

  function Given(h: set<nat>, p: nat): set<nat> { if p == 0 then h else h + {p} }

  /** The pointers handed out in the first t calls of a run and not given back by then. */
  ghost function Outstanding(states: seq<Chunks>, ops: seq<Op>, hi: nat, t: nat): set<nat>
    requires IsRun(states, ops, hi) && t <= |ops|
  {
    if t == 0 then {} else Outstanding1(Outstanding(states, ops, hi, t - 1), states[t - 1], ops[t - 1], hi)
  }

  /** One call changes the pointers in use as it changes the outstanding ones, except that heap_end
      is never taken back. */
  lemma StepPayloads(cs: Chunks, op: Op, lo: nat, hi: nat, k: nat)
    requires HeapInv(cs, lo, hi, k) && Allowed(cs, op)
    ensures Payloads(Step(cs, op, hi)) == Outstanding1(Payloads(cs), cs, op, hi) + Payloads(cs) * {hi}
  {
    forall x { PayloadsOwned(cs, lo, hi, x); }
    match op
    case Alloc(size) => KallocPayloads(cs, RoundUp(size));
    case Free(ptr) => if Owns(cs, ptr) { KfreePayloads(cs, ptr, lo, hi); PayloadsBelow(cs, lo, hi, ptr); }
    case Resize(ptr, newSize) =>
      if ptr == 0 { KallocPayloads(cs, RoundUp(newSize)); }
      else { RoundUpEnough(newSize); KreallocPayloads(cs, ptr, RoundUp(newSize), lo, hi, k); if hi in Payloads(cs) { EndStays(Payloads(cs), cs, ptr, RoundUp(newSize), lo, hi); } }
  }

  /** What is outstanding is in use. */
  lemma {:induction false} OutstandingInUse(states: seq<Chunks>, ops: seq<Op>, lo: nat, hi: nat, t: nat)
    requires IsRun(states, ops, hi) && t <= |ops| && HeapInv(states[0], lo, hi, 0)
    ensures Outstanding(states, ops, hi, t) <= Payloads(states[t])
    decreases t
  {
    if t > 0 {
      OutstandingInUse(states, ops, lo, hi, t - 1);
      RunInv(states, ops, lo, hi, t - 1);
      StepPayloads(states[t - 1], ops[t - 1], lo, hi, Extensions(states, ops, t - 1));
    }
  }

  /** As long as heap_end has not been handed out, exactly what is outstanding is in use. */
  lemma {:induction false} OutstandingExactly(states: seq<Chunks>, ops: seq<Op>, lo: nat, hi: nat, t: nat)
    requires IsRun(states, ops, hi) && t <= |ops| && HeapInv(states[0], lo, hi, 0) && Payloads(states[0]) == {}
    requires forall u :: 0 <= u < t ==> hi !in Outstanding(states, ops, hi, u)
    ensures Outstanding(states, ops, hi, t) == Payloads(states[t])
    decreases t
  {
    if t > 0 {
      OutstandingExactly(states, ops, lo, hi, t - 1);
      RunInv(states, ops, lo, hi, t - 1);
      StepPayloads(states[t - 1], ops[t - 1], lo, hi, Extensions(states, ops, t - 1));
    }
  }

  lemma RunEndStep(states: seq<Chunks>, ops: seq<Op>, lo: nat, hi: nat, u: nat)
    requires IsRun(states, ops, hi) && u < |ops| && HeapInv(states[0], lo, hi, 0) && hi in Payloads(states[u])
    ensures hi in Payloads(states[u + 1])
  {
    RunInv(states, ops, lo, hi, u);
    EndStep(states[u], ops[u], lo, hi, Extensions(states, ops, u));
  }

  lemma EndStep(cs: Chunks, op: Op, lo: nat, hi: nat, k: nat)
    requires HeapInv(cs, lo, hi, k) && Allowed(cs, op) && hi in Payloads(cs)
    ensures hi in Payloads(Step(cs, op, hi))
  {
    StepPayloads(cs, op, lo, hi, k);
  }

  /** Once handed out, heap_end stays in use. */
  lemma {:induction false} EndIsForever(states: seq<Chunks>, ops: seq<Op>, lo: nat, hi: nat, t: nat, u: nat)
    requires IsRun(states, ops, hi) && t <= u <= |ops| && HeapInv(states[0], lo, hi, 0) && hi in Payloads(states[t])
    ensures hi in Payloads(states[u])
    decreases u
  {
    if t < u {
      EndIsForever(states, ops, lo, hi, t, u - 1);
      RunEndStep(states, ops, lo, hi, u - 1);
    }
  }

  lemma NothingInUse(cs: Chunks)
    ensures Payloads(cs) == {} <==> forall i :: 0 <= i < |cs| ==> !cs[i].inuse
  {
    forall i | 0 <= i < |cs| && cs[i].inuse ensures cs[i].Payload() in Payloads(cs) {
      assert cs[i] in cs;
    }
  }

  /** What heap_init leaves, after k in-place extensions. */
  function OneFree(lo: nat, hi: nat, k: nat): Chunks
    requires HEADER + HEADER * k <= hi - lo
  {
    [Chunk(lo, hi - lo - HEADER - HEADER * k, false)]
  }

  /** When everything handed out has been given back, the heap is the one free chunk of heap_init,
      a header's worth smaller for every in-place extension, if and only if no call ever answered
      with heap_end. */
  lemma AllFreed(states: seq<Chunks>, ops: seq<Op>, lo: nat, hi: nat)
    requires lo + HEADER <= hi && HeapInv(OneFree(lo, hi, 0), lo, hi, 0)
    requires IsRun(states, ops, hi) && states[0] == OneFree(lo, hi, 0) && Outstanding(states, ops, hi, |ops|) == {}
    ensures var k := Extensions(states, ops, |ops|);
            (HEADER + HEADER * k <= hi - lo && states[|ops|] == OneFree(lo, hi, k))
            <==> forall t :: 0 <= t <= |ops| ==> hi !in Outstanding(states, ops, hi, t)
  {
    var n, k := |ops|, Extensions(states, ops, |ops|);
    NothingInUse(states[0]);
    NothingInUse(states[n]);
    RunInv(states, ops, lo, hi, n);
    if forall t :: 0 <= t <= n ==> hi !in Outstanding(states, ops, hi, t) {
      OutstandingExactly(states, ops, lo, hi, n);
      OneChunk(states[n], lo, hi, k);
    } else {
      var t :| 0 <= t <= n && hi in Outstanding(states, ops, hi, t);
      OutstandingInUse(states, ops, lo, hi, t);
      EndIsForever(states, ops, lo, hi, t, n);
    }
  }

  // ---------------------------------------------------------------- requests of at least one byte

  /** Every request is for at least one byte, and small enough to be rounded up. */
  predicate AsksBytes(op: Op) {
    match op
    case Alloc(size) => 0 < size <= TWO_64 - 16
    case Free(_) => true
    case Resize(_, newSize) => 0 < newSize <= TWO_64 - 16
  }

  lemma AnswerBelow(cs: Chunks, op: Op, lo: nat, hi: nat, k: nat, h: set<nat>)
    requires HeapInv(cs, lo, hi, k) && Allowed(cs, op) && AsksBytes(op) && hi !in h
    ensures hi !in Outstanding1(h, cs, op, hi)
  {
    match op
    case Alloc(size) => FreshBelow(cs, size, lo, hi, k);
    case Free(ptr) =>
    case Resize(ptr, newSize) =>
      if ptr == 0 {
        FreshBelow(cs, newSize, lo, hi, k);
      } else {
        var n := RoundUp(newSize);
        var (t, a) := Krealloc(cs, ptr, n, hi);
        RoundUpEnough(newSize);
        KreallocAnswer(cs, ptr, n, lo, hi, k, IndexOf(cs, ptr));
        KreallocInv(cs, ptr, n, lo, hi, k);
      }
  }

  lemma FreshBelow(cs: Chunks, size: Word, lo: nat, hi: nat, k: nat)
    requires HeapInv(cs, lo, hi, k) && 0 < size <= TWO_64 - 16
    ensures Kalloc(cs, RoundUp(size)).1 != hi || hi == 0
  {
    RoundUpEnough(size);
  }

  /** When every request is for at least one byte, heap_end is never handed out. */
  lemma {:induction false} EndNotGiven(states: seq<Chunks>, ops: seq<Op>, lo: nat, hi: nat, t: nat)
    requires IsRun(states, ops, hi) && t <= |ops| && HeapInv(states[0], lo, hi, 0)
    requires forall u :: 0 <= u < |ops| ==> AsksBytes(ops[u])
    ensures hi !in Outstanding(states, ops, hi, t)
    decreases t
  {
    if t > 0 {
      EndNotGiven(states, ops, lo, hi, t - 1);
      RunInv(states, ops, lo, hi, t - 1);
      AnswerBelow(states[t - 1], ops[t - 1], lo, hi, Extensions(states, ops, t - 1), Outstanding(states, ops, hi, t - 1));
    }
  }

  /** So then freeing everything always gives back the one free chunk. */
  lemma AllBytesFreed(states: seq<Chunks>, ops: seq<Op>, lo: nat, hi: nat)
    requires lo + HEADER <= hi && HeapInv(OneFree(lo, hi, 0), lo, hi, 0)
    requires IsRun(states, ops, hi) && states[0] == OneFree(lo, hi, 0) && Outstanding(states, ops, hi, |ops|) == {}
    requires forall u :: 0 <= u < |ops| ==> AsksBytes(ops[u])
    ensures var k := Extensions(states, ops, |ops|);
            HEADER + HEADER * k <= hi - lo && states[|ops|] == OneFree(lo, hi, k)
  {
    forall t | 0 <= t <= |ops| ensures hi !in Outstanding(states, ops, hi, t) { EndNotGiven(states, ops, lo, hi, t); }
    AllFreed(states, ops, lo, hi);
  }

  // ---------------------------------------------------------------- where the heap falls short

  /** The list after heap_init on four pages and one kalloc. */
  lemma AfterOne(lo: nat, n: nat)
    requires n % 16 == 0 && n + MIN_CHUNK_SIZE < 0x4000 - HEADER
    ensures Kalloc(OneFree(lo, lo + 0x4000, 0), n)
            == ([Chunk(lo, n, true), Chunk(lo + HEADER + n, 0x4000 - HEADER - HEADER - n, false)], lo + HEADER)
  {
    var cs := OneFree(lo, lo + 0x4000, 0);
    assert FirstFit(cs, n) == 0;
    assert cs[..0] == [] && cs[1..] == [];
    assert Take(cs, 0, n) == Taken(cs[0], n);
  }

  /** A chunk that spans the heap is handed out whole; growing it then follows a null link. */
  lemma FaultOccurs(lo: nat)
    requires lo < TWO_64
    ensures var hi := lo + 0x4000;
            var (t, p) := Kalloc(OneFree(lo, hi, 0), RoundUp(0x4000 - HEADER));
            Owns(t, p) && Krealloc(t, p, RoundUp(0x4000 - 16), hi) == (t, Fault)
  {
    var cs := OneFree(lo, lo + 0x4000, 0);
    assert FirstFit(cs, 0x4000 - HEADER) == 0;
    assert cs[..0] == [] && cs[1..] == [];
    assert Take(cs, 0, 0x4000 - HEADER) == [Chunk(lo, 0x4000 - HEADER, true)];
  }

  /** Two chunks, the first in use: what krealloc does to the first. */
  lemma FirstOfTwo(a: Chunk, b: Chunk, n: nat, hi: nat)
    requires a.inuse && !b.inuse && a.size < n && b.size >= n - a.size + HEADER
    ensures Owns([a, b], a.Payload()) && IndexOf([a, b], a.Payload()) == 0
    ensures Krealloc([a, b], a.Payload(), n, hi) == (Extended(a, b, n), Pointer(a.Payload()))
  {
    var cs := [a, b];
    assert IndexOf(cs, a.Payload()) == 0;
    assert cs[..0] == [] && cs[2..] == [];
    assert Extend(cs, 0, n) == Extended(a, b, n);
  }

  /** Growing a block from 16 to 32 bytes leaves a gap of 32 bytes behind it. */
  lemma GapOccurs(lo: nat)
    requires lo < TWO_64
    ensures var hi := lo + 0x4000;
            var (t, p) := Kalloc(OneFree(lo, hi, 0), RoundUp(16));
            && Owns(t, p) && Extends(t, p, RoundUp(32))
            && Krealloc(t, p, RoundUp(32), hi).0 == [Chunk(lo, 32, true), Chunk(lo + 96, 0x4000 - 128, false)]
            && !Tiles(Krealloc(t, p, RoundUp(32), hi).0, lo, hi)
  {
    AfterOne(lo, 16);
    var t := Kalloc(OneFree(lo, lo + 0x4000, 0), 16).0;
    FirstOfTwo(t[0], t[1], 32, lo + 0x4000);
  }

  /** A block of 16 bytes and a huge request: the 64-bit sum wraps and the comparison lets it pass. */
  lemma MisfireOccurs(lo: nat)
    requires lo < TWO_64
    ensures var (t, p) := Kalloc(OneFree(lo, lo + 0x4000, 0), RoundUp(1));
            && Owns(t, p) && !GuardHolds(t, p, RoundUp(TWO_64 - 20))
            && Krealloc(t, p, RoundUp(TWO_64 - 20), lo + 0x4000) == (t, Pointer(0))
  {
    AfterOne(lo, 16);
    var t := Kalloc(OneFree(lo, lo + 0x4000, 0), 16).0;
    assert IndexOf(t, lo + HEADER) == 0;
    assert FirstFit(t, TWO_64 - 16) == 2;
  }

  /** The calls that make kalloc hand out heap_end: a block grown so that an empty chunk is left. */
  function EndOps(lo: nat): seq<Op>
    requires lo + 0x4000 < TWO_64
  {
    [Alloc(16), Resize(lo + HEADER, 0x4000 - 96), Alloc(0), Free(lo + 0x4000)]
  }

  function EndStates(lo: nat): seq<Chunks> {
    var hi := lo + 0x4000;
    [OneFree(lo, hi, 0),
     [Chunk(lo, 16, true), Chunk(lo + 48, 0x4000 - 80, false)],
     [Chunk(lo, 0x4000 - 96, true), Chunk(hi - HEADER, 0, false)],
     [Chunk(lo, 0x4000 - 96, true), Chunk(hi - HEADER, 0, true)],
     [Chunk(lo, 0x4000 - 96, true), Chunk(hi - HEADER, 0, true)]]
  }

  lemma LastOfTwo(a: Chunk, b: Chunk)
    requires a.inuse && !b.inuse && b.size == 0
    ensures Kalloc([a, b], 0) == ([a, Chunk(b.addr, 0, true)], b.Payload())
  {
    var cs := [a, b];
    assert FirstFit(cs, 0) == 1;
    assert Take(cs, 1, 0) == [a, Chunk(b.addr, 0, true)];
  }

  /** They are a run, heap_end is answered, and freeing it changes nothing. */
  lemma EndOccurs(lo: nat)
    requires 0 < lo && lo + 0x4000 < TWO_64
    ensures var hi := lo + 0x4000; var states, ops := EndStates(lo), EndOps(lo);
            && IsRun(states, ops, hi)
            && Kalloc(states[2], RoundUp(0)).1 == hi && Owns(states[3], hi)
            && Kfree(states[3], hi, hi) == states[3]
            && hi !in Outstanding(states, ops, hi, 4) && hi in Payloads(states[4])
  {
    var hi, states, ops := lo + 0x4000, EndStates(lo), EndOps(lo);
    AfterOne(lo, 16);
    FirstOfTwo(states[1][0], states[1][1], 0x4000 - 96, hi);
    LastOfTwo(states[2][0], states[2][1]);
    assert IndexOf(states[3], hi) == 1;
    assert states[3][1].Payload() == hi;
    assert Step(states[0], ops[0], hi) == states[1];
    assert Step(states[1], ops[1], hi) == states[2];
    assert Step(states[2], ops[2], hi) == states[3];
    assert Step(states[3], ops[3], hi) == states[4];
  }
}
