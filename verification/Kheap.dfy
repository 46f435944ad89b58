/** The kernel heap (kheap.c), on the bytes it manages. */
module Kheap {
  import opened Words
  import opened Bytes
  import opened HeapChunks
  import opened HeapSpec
  import opened HeapRuns
  import opened HeapMemory

  class Heap {
    const mem: array<Byte>   // the bytes from heap_start to heap_end
    const heapStart: Word
    var start: Word          // heap.start
    var avail: Word          // heap.avail
    ghost var chunks: Chunks
    ghost var extensions: nat

    function HeapEnd(): nat { heapStart + mem.Length }

    ghost predicate Placed() {
      0 < heapStart && heapStart % 16 == 0 && HeapEnd() < TWO_64 && mem.Length < 0x8000_0000 // memcpy counts with an int
    }

    /** The list is laid out, and in memory, as `chunks` says; it may not be coalesced. */
    ghost predicate Listed()
      reads this, mem
    {
      && Placed() && start == heapStart && avail == mem.Length
      && chunks != [] && chunks[0].addr == heapStart
      && Layout(chunks, heapStart, HeapEnd()) && Represents(mem[..], heapStart, chunks)
    }

    ghost predicate Valid()
      reads this, mem
    {
      Listed() && HeapInv(chunks, heapStart, HeapEnd(), extensions)
    }

    // ------------------------------------------------------------ header fields

    predicate InHeap(chunk: Word) { HeapEnd() < TWO_64 && heapStart <= chunk && chunk - heapStart + HEADER <= mem.Length }

    function At(chunk: Word): Header
      requires InHeap(chunk)
      reads mem
    {
      HeaderAt(mem[..], chunk - heapStart)
    }

    /** Two headers that do not overlap. */
    predicate Apart(a: Word, b: Word) {
      InHeap(a) && InHeap(b) && (a + 24 <= b || b + 24 <= a)
    }

    /** A 64-bit store. */
    method Store64(address: Word, value: Word)
      requires heapStart <= address && address - heapStart + 8 <= mem.Length
      modifies mem
      ensures Field(mem[..], address - heapStart, 8) == value
      ensures OnlyIn(old(mem[..]), mem[..], address - heapStart, address - heapStart + 8)
    {
      var o := address - heapStart;
      for j := 0 to 8
        invariant forall x :: 0 <= x < mem.Length && !(o <= x < o + j) ==> mem[x] == old(mem[x])
        invariant forall i: nat :: i < j ==> mem[o + i] == GetByte(value, i)
      {
        mem[o + j] := GetByte(value, j);
      }
      WordLimit();
      FieldOfBytes(mem[..], o, value, 8);
    }

    method SetSize(chunk: Word, size: Word, ghost other: Word)
      requires InHeap(chunk)
      modifies mem
      ensures At(chunk) == old(At(chunk)).(size := size)
      ensures OnlyIn(old(mem[..]), mem[..], chunk - heapStart, chunk - heapStart + 24)
      ensures Apart(chunk, other) ==> At(other) == old(At(other))
    {
      Store64(chunk, size);
      FieldFrame(old(mem[..]), mem[..], chunk - heapStart + 16, 8);
      if Apart(chunk, other) { HeaderElsewhere(old(mem[..]), mem[..], chunk - heapStart, chunk - heapStart + 24, other - heapStart); }
    }

    method SetInuse(chunk: Word, inuse: bool, ghost other: Word)
      requires InHeap(chunk)
      modifies mem
      ensures At(chunk) == old(At(chunk)).(inuse := inuse)
      ensures OnlyIn(old(mem[..]), mem[..], chunk - heapStart, chunk - heapStart + 24)
      ensures Apart(chunk, other) ==> At(other) == old(At(other))
    {
      mem[chunk - heapStart + 8] := if inuse then 1 else 0;
      FieldFrame(old(mem[..]), mem[..], chunk - heapStart, 8);
      FieldFrame(old(mem[..]), mem[..], chunk - heapStart + 16, 8);
      if Apart(chunk, other) { HeaderElsewhere(old(mem[..]), mem[..], chunk - heapStart, chunk - heapStart + 24, other - heapStart); }
    }

    method SetNext(chunk: Word, next: Word, ghost other: Word)
      requires InHeap(chunk)
      modifies mem
      ensures At(chunk) == old(At(chunk)).(next := next)
      ensures OnlyIn(old(mem[..]), mem[..], chunk - heapStart, chunk - heapStart + 24)
      ensures Apart(chunk, other) ==> At(other) == old(At(other))
    {
      Store64(chunk + 16, next);
      FieldFrame(old(mem[..]), mem[..], chunk - heapStart, 8);
      if Apart(chunk, other) { HeaderElsewhere(old(mem[..]), mem[..], chunk - heapStart, chunk - heapStart + 24, other - heapStart); }
    }

    /** The first two stores that make a new chunk. */
    method StartChunk(chunk: Word, size: Word, ghost a: Word, ghost b: Word)
      requires InHeap(chunk)
      modifies mem
      ensures At(chunk) == old(At(chunk)).(size := size, inuse := false)
      ensures OnlyIn(old(mem[..]), mem[..], chunk - heapStart, chunk - heapStart + 24)
      ensures Apart(chunk, a) ==> At(a) == old(At(a))
      ensures Apart(chunk, b) ==> At(b) == old(At(b))
    {
      ghost var m0 := mem[..];
      SetSize(chunk, size, a);
      SetInuse(chunk, false, a);
      if Apart(chunk, b) { HeaderElsewhere(m0, mem[..], chunk - heapStart, chunk - heapStart + 24, b - heapStart); }
    }

    /** The three stores that make a new chunk. */
    method NewChunk(chunk: Word, size: Word, next: Word, ghost other: Word)
      requires InHeap(chunk)
      modifies mem
      ensures At(chunk) == Header(size, false, next)
      ensures OnlyIn(old(mem[..]), mem[..], chunk - heapStart, chunk - heapStart + 24)
      ensures Apart(chunk, other) ==> At(other) == old(At(other))
    {
      SetSize(chunk, size, other);
      SetInuse(chunk, false, other);
      SetNext(chunk, next, other);
      if Apart(chunk, other) { HeaderElsewhere(old(mem[..]), mem[..], chunk - heapStart, chunk - heapStart + 24, other - heapStart); }
    }

    constructor (mem: array<Byte>, heapStart: Word)
      ensures this.mem == mem && this.heapStart == heapStart
    {
      this.mem, this.heapStart := mem, heapStart;
      start, avail, chunks, extensions := 0, 0, [], 0;
    }

    /** heap_init. */
    method Init()
      requires Placed() && mem.Length % 16 == 0 && mem.Length >= HEADER
      modifies this, mem
      ensures Valid() && extensions == 0 && chunks == [Chunk(heapStart, mem.Length - HEADER, false)]
    {
      start, avail := heapStart, mem.Length;
      NewChunk(start, avail - HEADER, 0, start);
      chunks, extensions := [Chunk(heapStart, mem.Length - HEADER, false)], 0;
      OneHeader(mem[..], heapStart, chunks[0]);
      InitInv(heapStart, HeapEnd());
    }

    // ------------------------------------------------------------ kalloc

    /** The header of chunk i of the list. */
    lemma ListedAt(i: nat)
      requires Listed() && i < |chunks|
      ensures chunks[i].addr < TWO_64 && InHeap(chunks[i].addr) && At(chunks[i].addr) == HeaderOf(chunks, i)
      ensures chunks[i].addr != 0
    {
      assert HeaderOk(mem[..], heapStart, chunks, i);
    }

    /** kalloc's loop: the first free chunk of at least `size` bytes, NULL if there is none. */
    method FindFit(size: Word) returns (chunk: Word)
      requires Valid()
      ensures chunk == Link(chunks, FirstFit(chunks, size))
    {
      chunk := start;
      ghost var i := 0;
      while chunk != 0
        invariant i <= |chunks| && chunk == Link(chunks, i)
        invariant forall j :: 0 <= j < i ==> !Fits(chunks[j], size)
        decreases |chunks| - i
      {
        ListedAt(i);
        if !At(chunk).inuse && At(chunk).size >= size { break; }
        chunk := At(chunk).next;
        i := i + 1;
      }
      if i < |chunks| { ListedAt(i); }
      FirstFitIs(chunks, size, i);
    }

    /** Split a chunk after its first `size` payload bytes; the rest becomes a free chunk. */
    method SplitChunk(chunk: Word, size: Word, ghost i: nat) returns (rest: Word)
      requires Listed() && i < |chunks| && chunk == chunks[i].addr && size + MIN_CHUNK_SIZE < chunks[i].size
      modifies mem
      ensures rest == chunk + HEADER + size && InHeap(rest) && InHeap(chunk)
      ensures At(chunk) == Header(size, chunks[i].inuse, rest)
      ensures At(rest) == Header(chunks[i].size - size - HEADER, false, Link(chunks, i + 1))
      ensures OnlyIn(old(mem[..]), mem[..], chunks[i].addr - heapStart, chunks[i].End() - heapStart)
      ensures SameContents(old(mem[..]), mem[..], heapStart, chunk + HEADER, chunk + HEADER, size)
    {
      ListedAt(i);
      var leftover := At(chunk).size - size;
      rest := chunk + HEADER + size;
      NewChunk(rest, leftover - HEADER, At(chunk).next, chunk);
      SetNext(chunk, rest, rest);
      SetSize(chunk, size, rest);
    }

    method Kalloc(request: Word) returns (ptr: Word)
      requires Valid()
      modifies this`chunks, mem
      ensures Valid()
      ensures (chunks, ptr as nat) == HeapSpec.Kalloc(old(chunks), RoundUp(request))
      ensures SamePayloads(old(mem[..]), mem[..], heapStart, InUse(old(chunks)))
      ensures ptr == 0 ==> mem[..] == old(mem[..])
    {
      var size := RoundUp(request);
      RoundUpEnough(request);
      KallocInv(chunks, size, heapStart, HeapEnd(), extensions);
      if size > avail {
        AvailGuard(chunks, size, heapStart, HeapEnd(), extensions);
        return 0;
      }
      var chunk := FindFit(size);
      if chunk == 0 { return 0; }
      ghost var i := FirstFit(chunks, size);
      TakeChunk(chunk, size, i);
      ptr := chunk + HEADER;
    }

    /** The end of kalloc: split the chunk found if that leaves room, and mark it used. */
    method TakeChunk(chunk: Word, size: Word, ghost i: nat)
      requires Listed() && i < |chunks| && chunk == chunks[i].addr && Fits(chunks[i], size)
      modifies this`chunks, mem
      ensures chunks == Take(old(chunks), i, size) && Represents(mem[..], heapStart, chunks)
      ensures SamePayloads(old(mem[..]), mem[..], heapStart, InUse(old(chunks)))
    {
      ghost var m0, cs, c := mem[..], chunks, chunks[i];
      ListedAt(i);
      var leftover := At(chunk).size - size;
      if leftover > MIN_CHUNK_SIZE {
        var rest := SplitChunk(chunk, size, i);
        SetInuse(chunk, true, rest);
        TakenWritten(mem[..], heapStart, c, size, chunk, rest, Link(cs, i + 1));
      } else {
        SetInuse(chunk, true, chunk);
        TakenWritten(mem[..], heapStart, c, size, chunk, chunk, Link(cs, i + 1));
      }
      SpliceRepresents(m0, mem[..], heapStart, cs, i, 1, Taken(c, size), HeapEnd());
      PayloadsKept(m0, mem[..], heapStart, cs, HeapEnd(), i, c.addr - heapStart, c.End() - heapStart);
      chunks := Take(cs, i, size);
    }

    // ------------------------------------------------------------ coalesce_chunk and kfree

    method CoalesceChunks()
      requires Listed()
      modifies this`chunks, mem
      ensures Listed() && chunks == Coalesce(old(chunks))
      ensures SamePayloads(old(mem[..]), mem[..], heapStart, InUse(old(chunks)))
    {
      ghost var m0, cs, i := mem[..], chunks, 0;
      var chunk := start;
      ListedAt(0);
      while chunk != 0 && At(chunk).next != 0
        invariant Listed() && i < |chunks| && chunk == chunks[i].addr && InHeap(chunk)
        invariant Coalesce(cs) == chunks[..i] + Coalesce(chunks[i..]) && InUse(chunks) == InUse(cs)
        invariant SamePayloads(m0, mem[..], heapStart, InUse(cs))
        decreases |chunks| - i
      {
        ListedAt(i);
        var next := At(chunk).next;
        ListedAt(i + 1);
        if !At(chunk).inuse && !At(next).inuse {
          ghost var m := mem[..];
          MergeTurn(chunks, i);
          MergeNext(chunk, i);
          SamePayloadsTwice(m0, m, mem[..], heapStart, InUse(cs));
        } else {
          AdvanceTurn(chunks, i);
          chunk := next;
          i := i + 1;
        }
        ListedAt(i);
      }
      ListedAt(i);
      LastTurn(chunks, i);
    }

    /** One merge of coalesce_chunk. */
    method MergeNext(chunk: Word, ghost i: nat)
      requires Listed() && i + 1 < |chunks| && chunk == chunks[i].addr && !chunks[i].inuse && !chunks[i + 1].inuse
      modifies this`chunks, mem
      ensures Listed() && chunks == Splice(old(chunks), i, 2, [Merge(old(chunks)[i], old(chunks)[i + 1])])
      ensures SamePayloads(old(mem[..]), mem[..], heapStart, InUse(old(chunks)))
    {
      ghost var m0, cs, m := mem[..], chunks, Merge(chunks[i], chunks[i + 1]);
      ListedAt(i);
      ListedAt(i + 1);
      MergeLayout(cs, i, heapStart, HeapEnd());
      var next := At(chunk).next;
      SetSize(chunk, At(chunk).size + HEADER + At(next).size, next);
      SetNext(chunk, At(next).next, next);
      assert WrittenAt(mem[..], heapStart, m, Link(cs, i + 2));
      SpliceRepresents(m0, mem[..], heapStart, cs, i, 2, [m], HeapEnd());
      PayloadsKept(m0, mem[..], heapStart, cs, HeapEnd(), i, cs[i].addr - heapStart, cs[i].addr + 24 - heapStart);
      chunks := Splice(cs, i, 2, [m]);
    }

    /** kfree of NULL, of an address outside the heap, of a block in use, or of one whose header
        still reads as free (a second kfree). */
    method Kfree(ptr: Word)
      requires Valid()
      requires ptr == 0 || ptr < heapStart || ptr >= HeapEnd() || Owns(chunks, ptr)
               || (ptr - heapStart >= HEADER && !At(ptr - HEADER).inuse)
      modifies this`chunks, mem
      ensures Valid() && chunks == HeapSpec.Kfree(old(chunks), ptr, HeapEnd())
      ensures SamePayloads(old(mem[..]), mem[..], heapStart, InUse(chunks))
    {
      OwnedAt(ptr);
      if ptr == 0 { return; }
      if ptr < heapStart || ptr >= HeapEnd() { return; }
      var chunk := ptr - HEADER;
      if !At(chunk).inuse { return; }
      FreeOwned(ptr);
    }

    /** kfree of a block in use. */
    method FreeOwned(ptr: Word)
      requires Valid() && Owns(chunks, ptr) && ptr < HeapEnd()
      modifies this`chunks, mem
      ensures Valid() && chunks == HeapSpec.Kfree(old(chunks), ptr, HeapEnd())
      ensures SamePayloads(old(mem[..]), mem[..], heapStart, InUse(chunks))
    {
      OwnedAt(ptr);
      KfreeInv(chunks, ptr, heapStart, HeapEnd(), extensions);
      FreeChunk(ptr - HEADER, IndexOf(chunks, ptr));
    }

    /** The end of kfree: clear the flag and coalesce. */
    method FreeChunk(chunk: Word, ghost i: nat)
      requires Listed() && i < |chunks| && chunk == chunks[i].addr
      modifies this`chunks, mem
      ensures Listed() && chunks == Release(old(chunks), i)
      ensures SamePayloads(old(mem[..]), mem[..], heapStart, InUse(chunks))
    {
      ghost var m0, cs, c := mem[..], chunks, Chunk(chunks[i].addr, chunks[i].size, false);
      ListedAt(i);
      SetInuse(chunk, false, chunk);
      ghost var m1 := mem[..];
      assert WrittenAt(m1, heapStart, c, Link(cs, i + 1));
      SpliceRepresents(m0, m1, heapStart, cs, i, 1, [c], HeapEnd());
      SpliceLayout(cs, i, 1, [c], heapStart, HeapEnd());
      SpliceOne(cs, i, c);
      chunks := cs[i := c];
      PayloadsKept(m0, m1, heapStart, cs, HeapEnd(), i, c.addr - heapStart, c.addr + 24 - heapStart);
      FewerInUse(cs, i);
      CoalesceChunks();
      CoalesceKeepsInUse(cs[i := c]);
      SamePayloadsTwice(m0, m1, mem[..], heapStart, InUse(chunks));
    }

    /** The header before an owned pointer. */
    lemma OwnedAt(ptr: Word)
      requires Valid()
      ensures Owns(chunks, ptr) ==>
                && ptr != 0 && ptr >= heapStart + HEADER && InHeap(ptr - HEADER)
                && At(ptr - HEADER) == HeaderOf(chunks, IndexOf(chunks, ptr))
    {
      if Owns(chunks, ptr) { ListedAt(IndexOf(chunks, ptr)); }
    }

    // ------------------------------------------------------------ krealloc

    /** extendChunkInPlace: the grown block's pointer, NULL, or the fault of a null next link. Where
        its comparison wraps it grows the block beyond the heap. */
    method ExtendInPlace(chunk: Word, newSize: Word, ghost i: nat) returns (answer: Answer)
      requires Valid() && i < |chunks| && chunk == chunks[i].addr && chunks[i].inuse
      requires chunks[i].size < newSize && newSize % 16 == 0
      modifies this, mem
      ensures Valid() <==> i + 1 == |old(chunks)| || GuardRight(old(chunks)[i], old(chunks)[i + 1], newSize)
      ensures Valid() ==> SamePayloads(old(mem[..]), mem[..], heapStart, InUse(old(chunks)))
      ensures Valid() ==>
                answer == if i + 1 == |old(chunks)| then Fault
                          else if CanExtend(old(chunks), i, newSize) then Pointer(chunk + HEADER) else Pointer(0)
      ensures Valid() && answer == Pointer(chunk + HEADER) ==>
                chunks == Extend(old(chunks), i, newSize) && extensions == old(extensions) + 1
      ensures Valid() && answer != Pointer(chunk + HEADER) ==>
                chunks == old(chunks) && extensions == old(extensions) && mem[..] == old(mem[..])
      ensures !Valid() ==> answer == Pointer(chunk + HEADER) && Outgrown(chunk, newSize)
    {
      ListedAt(i);
      var next := At(chunk).next;
      if next == 0 { return Fault; }
      ListedAt(i + 1);
      if !At(next).inuse {
        var extra := newSize - At(chunk).size;
        WrappedSum(extra);
        if At(next).size >= (extra + HEADER) % TWO_64 {
          GrowInto(chunk, next, extra, i, newSize);
          return Pointer(chunk + HEADER);
        }
      }
      return Pointer(0);
    }

    /** The header claims more bytes than the heap has. */
    predicate Outgrown(chunk: Word, size: Word)
      reads mem
    {
      InHeap(chunk) && At(chunk).size == size > mem.Length
    }

    /** The stores of extendChunkInPlace. */
    method StoreGrown(chunk: Word, next: Word, extra: Word, ghost i: nat) returns (split: Word, ghost m1: HeapMemory.Memory)
      requires Listed() && i + 1 < |chunks| && chunk == chunks[i].addr && next == chunks[i + 1].addr && chunks[i].inuse
      requires chunks[i + 1].size >= (extra + HEADER) % TWO_64 && 0 < extra && chunks[i].size + extra < TWO_64
      modifies mem
      ensures InHeap(chunk) && At(chunk) == Header(chunks[i].size + extra, true, split)
      ensures extra + HEADER < TWO_64 ==>
                && split == next + HEADER + extra && InHeap(split)
                && At(split) == Header(chunks[i + 1].size - extra - HEADER, false, Link(chunks, i + 2))
                && OnlyIn(old(mem[..]), m1, split - heapStart, split - heapStart + 24)
                && OnlyIn(m1, mem[..], chunk - heapStart, chunk - heapStart + 24)
    {
      ListedAt(i);
      ListedAt(i + 1);
      split := (next + HEADER + extra) % TWO_64;
      SplitPlace(next, At(next).size, extra);
      StartChunk(split, (At(next).size - extra - HEADER) % TWO_64, chunk, next);
      HeaderBound(mem[..], next - heapStart);
      SetNext(split, At(next).next, chunk);
      m1 := mem[..];
      SetSize(chunk, At(chunk).size + extra, split);
      SetNext(chunk, split, split);
    }

    /** The stores, and what they do to the list. */
    method GrowInto(chunk: Word, next: Word, extra: Word, ghost i: nat, ghost n: nat)
      requires Valid() && i + 1 < |chunks| && chunk == chunks[i].addr && next == chunks[i + 1].addr && chunks[i].inuse
      requires n == chunks[i].size + extra && 0 < extra && n % 16 == 0 && n < TWO_64
      requires !chunks[i + 1].inuse && chunks[i + 1].size >= (extra + HEADER) % TWO_64
      modifies this`chunks, this`extensions, mem
      ensures Valid() <==> extra + HEADER < TWO_64
      ensures Valid() ==> CanExtend(old(chunks), i, n) && chunks == Extend(old(chunks), i, n) && extensions == old(extensions) + 1
      ensures Valid() ==> SamePayloads(old(mem[..]), mem[..], heapStart, InUse(old(chunks)))
      ensures !Valid() ==> Outgrown(chunk, n)
    {
      ghost var m0, cs, hi := mem[..], chunks, HeapEnd();
      var split;
      ghost var m1;
      split, m1 := StoreGrown(chunk, next, extra, i);
      if extra + HEADER < TWO_64 {
        ExtendedWritten(mem[..], heapStart, cs[i], cs[i + 1], n, split, Link(cs, i + 2));
        ExtendRepresents(m0, m1, mem[..], heapStart, cs, i, n, hi, split);
        ExtendInv(cs, i, n, heapStart, hi, extensions);
        chunks, extensions := Extend(cs, i, n), extensions + 1;
      } else {
        WrongHeader(i);
      }
    }

    /** A header that differs from the list. */
    lemma WrongHeader(i: nat)
      requires i < |chunks| && chunks[i].addr < TWO_64 && InHeap(chunks[i].addr) && At(chunks[i].addr).size != chunks[i].size
      ensures !Listed()
    {
      if Listed() { ListedAt(i); }
    }

    /** krealloc's split when the block shrinks by enough: the rest becomes free and is coalesced. */
    method ShrinkInPlace(chunk: Word, newSize: Word, ghost i: nat)
      requires Valid() && i < |chunks| && chunk == chunks[i].addr && chunks[i].inuse
      requires chunks[i].size > newSize + MIN_CHUNK_SIZE && newSize % 16 == 0
      modifies this`chunks, mem
      ensures Valid() && chunks == Coalesce(Take(old(chunks), i, newSize))
      ensures SameOthers(old(mem[..]), mem[..], heapStart, InUse(old(chunks)), chunk + HEADER)
      ensures SameContents(old(mem[..]), mem[..], heapStart, chunk + HEADER, chunk + HEADER, newSize)
    {
      ghost var m0, cs, hi := mem[..], chunks, HeapEnd();
      SplitUsed(chunk, newSize, i);
      ghost var m1 := mem[..];
      ShrinkInv(cs, i, newSize, heapStart, hi, extensions);
      CoalesceChunks();
      ShrunkKeeps(m0, m1, mem[..], heapStart, cs, hi, i, newSize);
    }

    /** The split of a shrinking block. */
    method SplitUsed(chunk: Word, newSize: Word, ghost i: nat)
      requires Listed() && i < |chunks| && chunk == chunks[i].addr && chunks[i].inuse
      requires chunks[i].size > newSize + MIN_CHUNK_SIZE && newSize % 16 == 0
      modifies this`chunks, mem
      ensures Listed() && chunks == Take(old(chunks), i, newSize)
      ensures SameOthers(old(mem[..]), mem[..], heapStart, InUse(old(chunks)), chunk + HEADER)
      ensures SameContents(old(mem[..]), mem[..], heapStart, chunk + HEADER, chunk + HEADER, newSize)
    {
      ghost var m0, cs, c, hi := mem[..], chunks, chunks[i], HeapEnd();
      var rest := SplitChunk(chunk, newSize, i);
      TakenWritten(mem[..], heapStart, c, newSize, chunk, rest, Link(cs, i + 1));
      SpliceRepresents(m0, mem[..], heapStart, cs, i, 1, Taken(c, newSize), hi);
      TakeLayout(cs, i, newSize, heapStart, hi);
      TakeFirst(cs, i, newSize);
      OthersKept(m0, mem[..], heapStart, cs, hi, i);
      chunks := Take(cs, i, newSize);
    }

    /** memcpy between two disjoint ranges of the heap. */
    method CopyBytes(dst: Word, src: Word, count: nat)
      requires count < 0x8000_0000
      requires heapStart <= dst && dst + count <= HeapEnd() && heapStart <= src && src + count <= HeapEnd()
      requires dst + count <= src || src + count <= dst
      modifies mem
      ensures OnlyIn(old(mem[..]), mem[..], dst - heapStart, dst - heapStart + count)
      ensures SameContents(old(mem[..]), mem[..], heapStart, src, dst, count)
    {
      var d, s := dst - heapStart, src - heapStart;
      for i := 0 to count
        invariant OnlyIn(old(mem[..]), mem[..], d, d + i)
        invariant SameContents(old(mem[..]), mem[..], heapStart, src, dst, i)
      {
        mem[d + i] := mem[s + i];
      }
    }

    /** krealloc's other way: a new block, a copy of what fits, and kfree of the old block. */
    method MoveBlock(ptr: Word, newSize: Word) returns (answer: Answer)
      requires Valid() && Owns(chunks, ptr) && newSize % 16 == 0
      modifies this`chunks, mem
      ensures Valid() && (chunks, answer) == Move(old(chunks), ptr, newSize, HeapEnd())
      ensures answer == Pointer(0) ==> mem[..] == old(mem[..])
      ensures answer != Pointer(0) ==>
                && SameOthers(old(mem[..]), mem[..], heapStart, InUse(old(chunks)), ptr)
                && answer.Pointer?
                && SameContents(old(mem[..]), mem[..], heapStart, ptr, answer.p, Min(old(chunks)[IndexOf(old(chunks), ptr)].size, newSize))
    {
      ghost var m0, cs, hi := mem[..], chunks, HeapEnd();
      RoundUpAligned(newSize);
      var newPtr := Kalloc(newSize);
      if newPtr == 0 { return Pointer(0); }
      ghost var m1, cs1 := mem[..], chunks;
      OwnedAfter(cs, heapStart, hi, extensions, ptr, newSize);
      CopyBlock(newPtr, ptr, newSize);
      ghost var m2 := mem[..];
      Kfree(ptr);
      MovedKeeps(m0, m1, m2, mem[..], heapStart, cs, cs1, chunks, hi, extensions, ptr, newPtr, newSize);
      answer := Pointer(newPtr);
    }

    /** The copy of krealloc: as much of the old block as the new one holds. */
    method CopyBlock(newPtr: Word, ptr: Word, newSize: Word)
      requires Valid() && Owns(chunks, ptr) && Owns(chunks, newPtr) && ptr != newPtr
      requires chunks[IndexOf(chunks, newPtr)].size >= newSize
      modifies mem
      ensures Valid() && SameOthers(old(mem[..]), mem[..], heapStart, InUse(chunks), newPtr)
      ensures SameContents(old(mem[..]), mem[..], heapStart, ptr, newPtr, Min(chunks[IndexOf(chunks, ptr)].size, newSize))
    {
      ghost var m1, i, j, hi := mem[..], IndexOf(chunks, ptr), IndexOf(chunks, newPtr), HeapEnd();
      OwnedAt(ptr);
      if i < j { LayoutOrder(chunks, heapStart, hi, i, j); } else { LayoutOrder(chunks, heapStart, hi, j, i); }
      var oldSize := At(ptr - HEADER).size;
      CopyBytes(newPtr, ptr, if oldSize < newSize then oldSize else newSize);
      PayloadWrite(m1, mem[..], heapStart, chunks, hi, j);
    }

    /** krealloc of NULL or of a block in use: as the list says, unless the comparison of the in-place
        extension wraps. Then the block's header claims more than the whole heap. */
    method Krealloc(ptr: Word, request: Word) returns (answer: Answer)
      requires Valid() && (ptr == 0 || Owns(chunks, ptr))
      modifies this, mem
      ensures Valid() <==> ptr == 0 || GuardHolds(old(chunks), ptr, RoundUp(request))
      ensures Valid() ==>
                (chunks, answer) ==
                if ptr == 0 then (HeapSpec.Kalloc(old(chunks), RoundUp(request)).0, Pointer(HeapSpec.Kalloc(old(chunks), RoundUp(request)).1))
                else HeapSpec.Krealloc(old(chunks), ptr, RoundUp(request), HeapEnd())
      ensures Valid() ==> extensions == old(extensions) + if ptr != 0 && Extends(old(chunks), ptr, RoundUp(request)) then 1 else 0
      ensures Valid() ==> SameOthers(old(mem[..]), mem[..], heapStart, InUse(old(chunks)), ptr)
      ensures Valid() && (answer == Pointer(0) || answer == Fault) ==> mem[..] == old(mem[..])
      ensures Valid() && ptr != 0 && answer.Pointer? && answer.p != 0 ==>
                SameContents(old(mem[..]), mem[..], heapStart, ptr, answer.p,
                             Min(old(chunks)[IndexOf(old(chunks), ptr)].size, RoundUp(request)))
      ensures !Valid() ==> answer == Pointer(ptr) && ptr >= HEADER && Outgrown(ptr - HEADER, RoundUp(request))
    {
      var newSize := RoundUp(request);
      RoundUpEnough(request);
      if ptr == 0 {
        var p := Kalloc(newSize);
        return Pointer(p);
      }
      answer := ReallocOwned(ptr, newSize);
    }

    /** krealloc after rounding, for a block in use. */
    method ReallocOwned(ptr: Word, newSize: Word) returns (answer: Answer)
      requires Valid() && Owns(chunks, ptr) && newSize % 16 == 0
      modifies this, mem
      ensures Valid() <==> GuardHolds(old(chunks), ptr, newSize)
      ensures Valid() ==> (chunks, answer) == HeapSpec.Krealloc(old(chunks), ptr, newSize, HeapEnd())
      ensures Valid() ==> extensions == old(extensions) + if Extends(old(chunks), ptr, newSize) then 1 else 0
      ensures Valid() ==> SameOthers(old(mem[..]), mem[..], heapStart, InUse(old(chunks)), ptr)
      ensures Valid() && (answer == Pointer(0) || answer == Fault) ==> mem[..] == old(mem[..])
      ensures Valid() && answer.Pointer? && answer.p != 0 ==>
                SameContents(old(mem[..]), mem[..], heapStart, ptr, answer.p, Min(old(chunks)[IndexOf(old(chunks), ptr)].size, newSize))
      ensures !Valid() ==> answer == Pointer(ptr) && ptr >= HEADER && Outgrown(ptr - HEADER, newSize)
    {
      ghost var i, c := IndexOf(chunks, ptr), chunks[IndexOf(chunks, ptr)];
      OwnedAt(ptr);
      InUseAt(chunks, i);
      answer := Pointer(ptr);
      var oldChunk := ptr - HEADER;
      if At(oldChunk).size < newSize {
        answer := GrowBlock(ptr, newSize);
      } else if At(oldChunk).size > newSize {
        var leftover := At(oldChunk).size - newSize;
        NotMinChunk(c.size, newSize);
        if leftover > MIN_CHUNK_SIZE {
          ShrinkInPlace(oldChunk, newSize, i);
        } else if leftover < MIN_CHUNK_SIZE {
          answer := MoveBlock(ptr, newSize);
        }
      }
    }

    /** krealloc's growing branch. */
    method GrowBlock(ptr: Word, newSize: Word) returns (answer: Answer)
      requires Valid() && Owns(chunks, ptr) && newSize % 16 == 0 && chunks[IndexOf(chunks, ptr)].size < newSize
      modifies this, mem
      ensures Valid() <==> GuardHolds(old(chunks), ptr, newSize)
      ensures Valid() ==> (chunks, answer) == HeapSpec.Krealloc(old(chunks), ptr, newSize, HeapEnd())
      ensures Valid() ==> extensions == old(extensions) + if Extends(old(chunks), ptr, newSize) then 1 else 0
      ensures Valid() ==> SameOthers(old(mem[..]), mem[..], heapStart, InUse(old(chunks)), ptr)
      ensures Valid() && (answer == Pointer(0) || answer == Fault) ==> mem[..] == old(mem[..])
      ensures Valid() && answer.Pointer? && answer.p != 0 ==>
                SameContents(old(mem[..]), mem[..], heapStart, ptr, answer.p, Min(old(chunks)[IndexOf(old(chunks), ptr)].size, newSize))
      ensures !Valid() ==> answer == Pointer(ptr) && ptr >= HEADER && Outgrown(ptr - HEADER, newSize)
    {
      ghost var m0, cs, i, c := mem[..], chunks, IndexOf(chunks, ptr), chunks[IndexOf(chunks, ptr)];
      OwnedAt(ptr);
      InUseAt(chunks, i);
      answer := ExtendInPlace(ptr - HEADER, newSize, i);
      if answer == Pointer(0) {
        answer := MoveBlock(ptr, newSize);
      } else if answer.Pointer? && Valid() {
        KeptContents(m0, mem[..], heapStart, InUse(cs), 0, c, c.size);
      }
    }
  }

  /** The wrapped comparison on a heap of four pages: a block of one byte, resized to nearly 2^64
      bytes, is said to have them. */
  method OutgrowBlock(h: Heap) returns (ptr: Word, answer: Answer)
    requires h.Placed() && h.mem.Length == 0x4000
    modifies h, h.mem
    ensures ptr == h.heapStart + HEADER && answer == Pointer(ptr)
    ensures !h.Valid() && h.Outgrown(h.heapStart, TWO_64 - 16)
  {
    MisfireOccurs(h.heapStart);
    AfterOne(h.heapStart, 16);
    h.Init();
    ptr := h.Kalloc(1);
    assert ptr == h.heapStart + HEADER && Owns(h.chunks, ptr) && !GuardHolds(h.chunks, ptr, RoundUp(TWO_64 - 20));
    answer := h.Krealloc(ptr, TWO_64 - 20);
    assert RoundUp(TWO_64 - 20) == TWO_64 - 16;
  }

  /** The headers kalloc leaves are those of the taken chunk and the rest. */
  lemma TakenWritten(m: HeapMemory.Memory, base: nat, c: Chunk, size: nat, chunk: nat, rest: nat, link: nat)
    requires size <= c.size && base <= chunk == c.addr && chunk - base + HEADER <= |m|
    requires if c.size - size > MIN_CHUNK_SIZE
             then rest == chunk + HEADER + size && rest - base + HEADER <= |m|
                  && HeaderAt(m, chunk - base) == Header(size, true, rest)
                  && HeaderAt(m, rest - base) == Header(c.size - size - HEADER, false, link)
             else HeaderAt(m, chunk - base) == Header(c.size, true, link)
    ensures Written(m, base, Taken(c, size), link)
  {
  }

  lemma FewerInUse(cs: Chunks, i: nat)
    requires i < |cs|
    ensures forall b :: b in InUse(cs[i := Chunk(cs[i].addr, cs[i].size, false)]) ==> b in InUse(cs)
  {
    var t := cs[i := Chunk(cs[i].addr, cs[i].size, false)];
    forall b | b in InUse(t) ensures b in InUse(cs) {
      InUseMember(t, b);
      var j :| 0 <= j < |t| && t[j] == b;
      assert cs[j] == b;
      InUseMember(cs, b);
    }
  }

  lemma ExtendedWritten(m: HeapMemory.Memory, base: nat, c: Chunk, next: Chunk, n: nat, split: nat, link: nat)
    requires c.size < n && next.size >= n - c.size + HEADER && base <= c.addr && c.addr - base + HEADER <= |m|
    requires split == next.addr + HEADER + (n - c.size) && base <= split && split - base + HEADER <= |m| && c.inuse
    requires HeaderAt(m, c.addr - base) == Header(n, true, split)
    requires HeaderAt(m, split - base) == Header(next.size - (n - c.size) - HEADER, false, link)
    ensures Written(m, base, Extended(c, next, n), link)
  {
  }

  lemma ExtendRepresents(m0: HeapMemory.Memory, m1: HeapMemory.Memory, m2: HeapMemory.Memory, base: nat, cs: Chunks,
                         i: nat, n: nat, hi: nat, split: nat)
    requires Represents(m0, base, cs) && Layout(cs, base, hi) && i + 1 < |cs| && CanExtend(cs, i, n) && cs[i].inuse
    requires split == cs[i + 1].addr + HEADER + (n - cs[i].size)
    requires OnlyIn(m0, m1, split - base, split - base + 24)
    requires OnlyIn(m1, m2, cs[i].addr - base, cs[i].addr - base + 24)
    requires Written(m2, base, Extended(cs[i], cs[i + 1], n), Link(cs, i + 2))
    ensures Represents(m2, base, Extend(cs, i, n)) && SamePayloads(m0, m2, base, InUse(cs))
  {
    SpliceRepresents(m0, m2, base, cs, i, 2, Extended(cs[i], cs[i + 1], n), hi);
    PayloadsKept(m0, m1, base, cs, hi, i + 1, split - base, split - base + 24);
    PayloadsKept(m1, m2, base, cs, hi, i, cs[i].addr - base, cs[i].addr - base + 24);
    SamePayloadsTwice(m0, m1, m2, base, InUse(cs));
  }

  /** Stores inside chunk i's span touch no other block's payload. */
  lemma OthersKept(m: HeapMemory.Memory, m': HeapMemory.Memory, base: nat, cs: Chunks, hi: nat, i: nat)
    requires Layout(cs, base, hi) && i < |cs| && OnlyIn(m, m', cs[i].addr - base, cs[i].End() - base)
    ensures SameOthers(m, m', base, InUse(cs), cs[i].Payload())
  {
    forall b, x: nat | b in InUse(cs) && b.Payload() != cs[i].Payload() && b.Payload() <= x < b.End() && base <= x < base + |m|
      ensures ByteOf(m', base, x) == ByteOf(m, base, x)
    {
      InUseMember(cs, b);
      var j :| 0 <= j < |cs| && cs[j] == b;
      PayloadsDisjoint(cs, base, hi, j, i, x);
    }
  }

  lemma ShrunkKeeps(m0: HeapMemory.Memory, m1: HeapMemory.Memory, m2: HeapMemory.Memory, base: nat, cs: Chunks, hi: nat, i: nat, n: nat)
    requires Layout(cs, base, hi) && i < |cs| && cs[i].inuse && cs[i].size > n + MIN_CHUNK_SIZE && |m0| == |m1| && hi <= base + |m0|
    requires SameOthers(m0, m1, base, InUse(cs), cs[i].Payload())
    requires SameContents(m0, m1, base, cs[i].Payload(), cs[i].Payload(), n)
    requires SamePayloads(m1, m2, base, InUse(Take(cs, i, n)))
    ensures SameOthers(m0, m2, base, InUse(cs), cs[i].Payload())
    ensures SameContents(m0, m2, base, cs[i].Payload(), cs[i].Payload(), n)
  {
    var t, c, ptr := Take(cs, i, n), Taken(cs[i], n)[0], cs[i].Payload();
    TakeAt(cs, i, n);
    InUseAt(t, i);
    assert c == Chunk(cs[i].addr, n, true);
    assert c.End() <= base + |m1|;
    KeptContents(m1, m2, base, InUse(t), 0, c, n);
    assert c.Payload() == ptr;
    assert SameContents(m1, m2, base, ptr, ptr, n);
    ContentsTwice(m0, m1, m2, base, ptr, ptr, ptr, n);
    forall b | b in InUse(cs) && b.Payload() != ptr ensures b in InUse(t) {
      InUseMember(cs, b);
      var j :| 0 <= j < |cs| && cs[j] == b;
      SpliceMember(cs, i, 1, Taken(cs[i], n), j);
      InUseMember(t, b);
    }
  }

  lemma TakeFirst(cs: Chunks, i: nat, n: nat)
    requires i < |cs| && n <= cs[i].size
    ensures Take(cs, i, n) != [] && Take(cs, i, n)[0].addr == cs[0].addr
  {
  }

  lemma InUseAt(cs: Chunks, i: nat)
    requires i < |cs| && cs[i].inuse
    ensures cs[i] in InUse(cs)
  {
    InUseMember(cs, cs[i]);
  }

  function Min(a: nat, b: nat): nat { if a < b then a else b }

  lemma RoundUpAligned(n: Word)
    requires n % 16 == 0 && n <= TWO_64 - 16
    ensures RoundUp(n) == n
  {
  }

  /** After a successful kalloc both the old block and the new one are owned, and differ. */
  lemma OwnedAfter(cs: Chunks, lo: nat, hi: nat, k: nat, ptr: nat, n: nat)
    requires HeapInv(cs, lo, hi, k) && Owns(cs, ptr) && n % 16 == 0 && HeapSpec.Kalloc(cs, n).1 != 0
    ensures var (t, p) := HeapSpec.Kalloc(cs, n);
            && Owns(t, ptr) && t[IndexOf(t, ptr)] == cs[IndexOf(cs, ptr)]
            && Owns(t, p) && t[IndexOf(t, p)].size >= n && p != ptr
  {
    var i := FirstFit(cs, n);
    var (t, p) := HeapSpec.Kalloc(cs, n);
    KallocInv(cs, n, lo, hi, k);
    KallocKeepsBlocks(cs, n, cs[IndexOf(cs, ptr)]);
    MemberOwns(t, lo, hi, cs[IndexOf(cs, ptr)]);
    TakeAt(cs, i, n);
    TakenSize(cs[i], n);
    IndexIs(t, lo, hi, i);
    IndexIs(cs, lo, hi, i);
  }

  /** What a moved block's copy and the other blocks hold in the end. */
  lemma MovedKeeps(m0: HeapMemory.Memory, m1: HeapMemory.Memory, m2: HeapMemory.Memory, m3: HeapMemory.Memory, base: nat,
                   cs: Chunks, cs1: Chunks, cs3: Chunks, hi: nat, k: nat, ptr: nat, p: nat, n: nat)
    requires HeapInv(cs, base, hi, k) && Owns(cs, ptr) && n % 16 == 0 && hi == base + |m0|
    requires (cs1, p) == HeapSpec.Kalloc(cs, n) && p != 0 && cs3 == HeapSpec.Kfree(cs1, ptr, hi)
    requires SamePayloads(m0, m1, base, InUse(cs))
    requires SameOthers(m1, m2, base, InUse(cs1), p)
    requires SameContents(m1, m2, base, ptr, p, Min(cs[IndexOf(cs, ptr)].size, n))
    requires SamePayloads(m2, m3, base, InUse(cs3))
    ensures SameOthers(m0, m3, base, InUse(cs), ptr)
    ensures SameContents(m0, m3, base, ptr, p, Min(cs[IndexOf(cs, ptr)].size, n))
  {
    OwnedAfter(cs, base, hi, k, ptr, n);
    var c, b, count := cs[IndexOf(cs, ptr)], cs1[IndexOf(cs1, p)], Min(cs[IndexOf(cs, ptr)].size, n);
    KallocInv(cs, n, base, hi, k);
    InUseAt(cs, IndexOf(cs, ptr));
    KeptContents(m0, m1, base, InUse(cs), 0, c, count);
    ContentsTwice(m0, m1, m2, base, ptr, ptr, p, count);
    KfreeKeepsBlocks(cs1, ptr, hi, b);
    InUseMember(cs3, b);
    KeptContents(m2, m3, base, InUse(cs3), 0, b, count);
    ContentsTwice(m0, m2, m3, base, ptr, p, p, count);
    forall d | d in InUse(cs) && d.Payload() != ptr ensures d in InUse(cs1) && d in InUse(cs3) && d.Payload() != p {
      InUseMember(cs, d);
      KallocKeepsBlocks(cs, n, d);
      InUseMember(cs1, d);
      KfreeKeepsBlocks(cs1, ptr, hi, d);
      InUseMember(cs3, d);
      NewIsNew(cs, base, hi, n, d);
    }
  }

  /** kalloc's block was not in use before. */
  lemma NewIsNew(cs: Chunks, lo: nat, hi: nat, n: nat, d: Chunk)
    requires Layout(cs, lo, hi) && d.inuse && d in cs
    ensures HeapSpec.Kalloc(cs, n).1 != d.Payload()
  {
    MemberOwns(cs, lo, hi, d);
    var i := FirstFit(cs, n);
    if i < |cs| { IndexIs(cs, lo, hi, i); }
  }

  lemma WrappedSum(extra: Word)
    ensures (extra + HEADER) % TWO_64 == if extra + HEADER < TWO_64 then extra + HEADER else extra + HEADER - TWO_64
  {
  }

  /** Where extendChunkInPlace puts the rest of the next chunk, wrapping or not. */
  lemma SplitPlace(next: Word, size: Word, extra: Word)
    requires size >= (extra + HEADER) % TWO_64 && next + HEADER + size < TWO_64
    ensures var split := (next + HEADER + extra) % TWO_64;
            && next <= split <= next + size
            && (extra + HEADER < TWO_64 ==> split == next + HEADER + extra && (size - extra - HEADER) % TWO_64 == size - extra - HEADER)
  {
    if extra + HEADER >= TWO_64 { assert (extra + HEADER) % TWO_64 == extra + HEADER - TWO_64; }
  }

  /** A difference of aligned sizes is never MIN_CHUNK_SIZE. */
  lemma NotMinChunk(size: nat, n: nat)
    requires size % 16 == 0 && n % 16 == 0
    ensures size - n != MIN_CHUNK_SIZE
  {
  }
}
