/** How the chunk list lies in memory: 32-byte headers (size, in-use flag, link) inside the managed
    bytes themselves. */
module HeapMemory {
  import opened Words
  import opened Bytes
  import opened HeapChunks
  import opened HeapSpec

  type Memory = seq<Byte>

  /** struct heapchunk_t: the size at offset 0, the flag at 8, the link at 16. */
  datatype Header = Header(size: nat, inuse: bool, next: nat)

  function HeaderAt(m: Memory, o: nat): Header
    requires o + HEADER <= |m|
  {
    Header(Field(m, o, 8), m[o + 8] != 0, Field(m, o + 16, 8))
  }

  lemma HeaderBound(m: Memory, o: nat)
    requires o + HEADER <= |m|
    ensures HeaderAt(m, o).size < TWO_64 && HeaderAt(m, o).next < TWO_64
  {
    FieldBound(m, o, 8);
    FieldBound(m, o + 16, 8);
    WordLimit();
  }

  lemma HeaderFrame(m: Memory, m': Memory, o: nat)
    requires o + HEADER <= |m| == |m'| && forall x :: o <= x < o + 24 ==> m[x] == m'[x]
    ensures HeaderAt(m, o) == HeaderAt(m', o)
  {
    FieldFrame(m, m', o, 8);
    FieldFrame(m, m', o + 16, 8);
  }

  /** The link stored in the chunk before chunk j: its address, NULL past the end. */
  function Link(cs: Chunks, j: nat): nat { if j < |cs| then cs[j].addr else 0 }

  /** Chunk j of the list as its header should read. */
  function HeaderOf(cs: Chunks, j: nat): Header
    requires j < |cs|
  {
    Header(cs[j].size, cs[j].inuse, Link(cs, j + 1))
  }

  ghost predicate HeaderOk(m: Memory, base: nat, cs: Chunks, j: nat)
    requires j < |cs|
  {
    base <= cs[j].addr && cs[j].addr - base + HEADER <= |m| && HeaderAt(m, cs[j].addr - base) == HeaderOf(cs, j)
  }

  /** The bytes from address base on hold the headers of the list. */
  ghost predicate Represents(m: Memory, base: nat, cs: Chunks) {
    forall j :: 0 <= j < |cs| ==> HeaderOk(m, base, cs, j)
  }

  lemma OneHeader(m: Memory, base: nat, c: Chunk)
    requires base <= c.addr && c.addr - base + HEADER <= |m|
    requires HeaderAt(m, c.addr - base) == Header(c.size, c.inuse, 0)
    ensures Represents(m, base, [c])
  {
  }

  /** m' differs from m in [lo, hi) at most. */
  ghost predicate OnlyIn(m: Memory, m': Memory, lo: nat, hi: nat) {
    |m'| == |m| && forall x :: 0 <= x < |m| && !(lo <= x < hi) ==> m'[x] == m[x]
  }

  /** The headers of s are in memory, its last chunk linking to `last`. */
  ghost predicate Written(m: Memory, base: nat, s: Chunks, last: nat) {
    forall q :: 0 <= q < |s| ==> WrittenAt(m, base, s[q], NextAddr(s, q, last))
  }

  function NextAddr(s: Chunks, q: nat, last: nat): nat { if q + 1 < |s| then s[q + 1].addr else last }

  ghost predicate WrittenAt(m: Memory, base: nat, c: Chunk, next: nat) {
    base <= c.addr && c.addr - base + HEADER <= |m| && HeaderAt(m, c.addr - base) == Header(c.size, c.inuse, next)
  }

  lemma HeaderBefore(m: Memory, m': Memory, base: nat, cs: Chunks, i: nat, k: nat, s: Chunks, hi: nat, j: nat)
    requires Represents(m, base, cs) && Layout(cs, base, hi) && j < i < i + k <= |cs| && s != [] && s[0].addr == cs[i].addr
    requires OnlyIn(m, m', cs[i].addr - base, cs[i + k - 1].End() - base)
    ensures HeaderOk(m', base, Splice(cs, i, k, s), j)
  {
    assert HeaderOk(m, base, cs, j);
    LayoutOrder(cs, base, hi, j, i);
    HeaderFrame(m, m', cs[j].addr - base);
    assert Link(Splice(cs, i, k, s), j + 1) == Link(cs, j + 1);
  }

  lemma HeaderInside(m: Memory, base: nat, cs: Chunks, i: nat, k: nat, s: Chunks, j: nat)
    requires i + k <= |cs| && i <= j < i + |s| && Written(m, base, s, Link(cs, i + k))
    ensures HeaderOk(m, base, Splice(cs, i, k, s), j)
  {
    var t := Splice(cs, i, k, s);
    var q := j - i;
    assert t[j] == s[q];
    assert WrittenAt(m, base, s[q], NextAddr(s, q, Link(cs, i + k)));
    assert q + 1 < |s| ==> t[j + 1] == s[q + 1];
    assert q + 1 == |s| && i + k < |cs| ==> t[j + 1] == cs[i + k];
  }

  lemma HeaderAfter(m: Memory, m': Memory, base: nat, cs: Chunks, i: nat, k: nat, s: Chunks, hi: nat, j: nat)
    requires Represents(m, base, cs) && Layout(cs, base, hi) && k > 0 && i + k <= j < |cs|
    requires OnlyIn(m, m', cs[i].addr - base, cs[i + k - 1].End() - base)
    ensures HeaderOk(m', base, Splice(cs, i, k, s), j - k + |s|)
  {
    assert HeaderOk(m, base, cs, j);
    LayoutOrder(cs, base, hi, i + k - 1, j);
    HeaderFrame(m, m', cs[j].addr - base);
    var t := Splice(cs, i, k, s);
    assert t[j - k + |s|] == cs[j];
    assert Link(t, j - k + |s| + 1) == Link(cs, j + 1);
  }

  /** Chunks i..i+k of the list became s: their headers were written, inside their own span, and
      the chunk before still links to the same address. */
  lemma SpliceRepresents(m: Memory, m': Memory, base: nat, cs: Chunks, i: nat, k: nat, s: Chunks, hi: nat)
    requires Represents(m, base, cs) && Layout(cs, base, hi) && k > 0 && i + k <= |cs| && s != []
    requires s[0].addr == cs[i].addr && Written(m', base, s, Link(cs, i + k))
    requires OnlyIn(m, m', cs[i].addr - base, cs[i + k - 1].End() - base)
    ensures Represents(m', base, Splice(cs, i, k, s))
  {
    var t := Splice(cs, i, k, s);
    forall j | 0 <= j < |t| ensures HeaderOk(m', base, t, j) {
      if j < i {
        HeaderBefore(m, m', base, cs, i, k, s, hi, j);
      } else if j < i + |s| {
        HeaderInside(m', base, cs, i, k, s, j);
      } else {
        HeaderAfter(m, m', base, cs, i, k, s, hi, j - |s| + k);
      }
    }
  }

  /** The bytes of the payloads of these blocks are the same, the block at ptr aside. */
  ghost predicate SameOthers(m: Memory, m': Memory, base: nat, blocks: Chunks, ptr: nat) {
    |m'| == |m| &&
    forall b, x: nat :: b in blocks && b.Payload() != ptr && b.Payload() <= x < b.End() && base <= x < base + |m| ==>
      ByteOf(m', base, x) == ByteOf(m, base, x)
  }

  /** The bytes of the payloads of these blocks are the same. */
  ghost predicate SamePayloads(m: Memory, m': Memory, base: nat, blocks: Chunks) {
    SameOthers(m, m', base, blocks, 0)
  }

  function ByteOf(m: Memory, base: nat, x: nat): Byte
    requires base <= x < base + |m|
  {
    m[x - base]
  }

  lemma SamePayloadsTwice(m0: Memory, m1: Memory, m2: Memory, base: nat, blocks: Chunks)
    requires SamePayloads(m0, m1, base, blocks) && SamePayloads(m1, m2, base, blocks)
    ensures SamePayloads(m0, m2, base, blocks)
  {
  }

  /** Writes to the span of one free chunk, or to a chunk's header, touch no payload in use. */
  lemma PayloadsKept(m: Memory, m': Memory, base: nat, cs: Chunks, hi: nat, i: nat, lo: nat, top: nat)
    requires Layout(cs, base, hi) && i < |cs| && cs[i].addr - base <= lo
    requires OnlyIn(m, m', lo, top) && top <= (if cs[i].inuse then cs[i].Payload() else cs[i].End()) - base
    ensures SamePayloads(m, m', base, InUse(cs))
  {
    forall b, x: nat | b in InUse(cs) && b.Payload() <= x < b.End() && base <= x < base + |m|
      ensures ByteOf(m', base, x) == ByteOf(m, base, x)
    {
      InUseMember(cs, b);
      var j :| 0 <= j < |cs| && cs[j] == b;
      if j != i { PayloadsDisjoint(cs, base, hi, j, i, x); }
    }
  }

  lemma HeaderElsewhere(m: Memory, m': Memory, lo: nat, hi: nat, o: nat)
    requires OnlyIn(m, m', lo, hi) && o + HEADER <= |m| && (o + 24 <= lo || hi <= o)
    ensures HeaderAt(m', o) == HeaderAt(m, o)
  {
    HeaderFrame(m, m', o);
  }

  /** Stores inside the payload of chunk i keep every header and every other payload. */
  lemma PayloadWrite(m: Memory, m': Memory, base: nat, cs: Chunks, hi: nat, i: nat)
    requires Represents(m, base, cs) && Layout(cs, base, hi) && i < |cs|
    requires OnlyIn(m, m', cs[i].Payload() - base, cs[i].End() - base)
    ensures Represents(m', base, cs)
    ensures SameOthers(m, m', base, InUse(cs), cs[i].Payload())
  {
    forall j | 0 <= j < |cs| ensures HeaderOk(m', base, cs, j) {
      assert HeaderOk(m, base, cs, j);
      if j < i { LayoutOrder(cs, base, hi, j, i); }
      if i < j { LayoutOrder(cs, base, hi, i, j); }
      HeaderElsewhere(m, m', cs[i].Payload() - base, cs[i].End() - base, cs[j].addr - base);
    }
    forall b, x: nat | b in InUse(cs) && b.Payload() != cs[i].Payload() && b.Payload() <= x < b.End() && base <= x < base + |m|
      ensures ByteOf(m', base, x) == ByteOf(m, base, x)
    {
      InUseMember(cs, b);
      var j :| 0 <= j < |cs| && cs[j] == b;
      PayloadsDisjoint(cs, base, hi, j, i, x);
    }
  }

  function ByteFrom(m: Memory, base: nat, a: nat, x: nat): Byte
    requires base <= a && a + x < base + |m|
  {
    m[a + x - base]
  }

  /** The first n bytes at dst in m' are those at src in m. */
  ghost predicate SameContents(m: Memory, m': Memory, base: nat, src: nat, dst: nat, n: nat) {
    && base <= src && src + n <= base + |m| && base <= dst && dst + n <= base + |m'|
    && forall x: nat :: x < n ==> ByteFrom(m', base, dst, x) == ByteFrom(m, base, src, x)
  }

  /** A kept payload has the same contents. */
  lemma KeptContents(m: Memory, m': Memory, base: nat, blocks: Chunks, ptr: nat, b: Chunk, n: nat)
    requires SameOthers(m, m', base, blocks, ptr) && b in blocks && b.Payload() != ptr && n <= b.size
    requires base <= b.addr && b.End() <= base + |m|
    ensures SameContents(m, m', base, b.Payload(), b.Payload(), n)
  {
    forall x: nat | x < n
      ensures ByteFrom(m', base, b.Payload(), x) == ByteFrom(m, base, b.Payload(), x)
    {
      assert ByteOf(m', base, b.Payload() + x) == ByteOf(m, base, b.Payload() + x);
    }
  }

  lemma ContentsTwice(m0: Memory, m1: Memory, m2: Memory, base: nat, a: nat, b: nat, c: nat, n: nat)
    requires SameContents(m0, m1, base, a, b, n) && SameContents(m1, m2, base, b, c, n)
    ensures SameContents(m0, m2, base, a, c, n)
  {
  }
}
