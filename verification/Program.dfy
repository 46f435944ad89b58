/** What a loaded program finds in its address space, told on the bytes of its image. */
module Program {
  import opened Words
  import opened Bytes
  import opened PageTables
  import opened Addresses
  import opened UserSpace
  import opened Elf

  /** Reading address a under root r gives b: the page is mapped, to RAM holding b. */
  ghost predicate Reads(m: Memory, r: nat, a: Word, b: Byte) {
    var e := Entry(m, r, PageOf(a));
    Present(e) && Target(e) in m && ByteAt(m, Target(e), a % PAGE_SIZE) == b
  }

  /** An entry for user code: present and user set, writable as given, no other flag. */
  predicate UserEntry(e: Word, writable: bool) {
    && e % 2 == 1                                    // present
    && e / 2 % 2 == (if writable then 1 else 0)
    && e / 4 % 2 == 1                                // user
    && e / 8 % 512 == 0 && e / 0x10_0000_0000_0000 == 0
  }

  lemma UserEntryIs(f: nat, writable: bool)
    requires f < TWO_40
    ensures UserEntry(f * PAGE_SIZE + if writable then 0x7 else 0x5, writable)
  {
    var low := if writable then 0x7 else 0x5;
    assert (f * PAGE_SIZE + low) / 8 == f * 512;
  }

  /** Where the i-th program header is in the file: e_phoff + 56 i. */
  function HeaderOffset(elf: Image, i: nat): nat
    requires |elf| >= 64
  {
    Field(elf, 32, 8) + 56 * i
  }

  /** The address is one of the segment of the program header at offset o, or the one after it. */
  predicate Spans(elf: Image, o: nat, a: nat) {
    && o + 56 <= |elf| && Field(elf, o, 4) == 1
    && Field(elf, o + 16, 8) <= a <= Field(elf, o + 16, 8) + Field(elf, o + 40, 8)
  }

  /** The program header at offset o, if it is loadable, is in place under root r: every address it
      spans is mapped for the user, writable exactly if bit 1 of p_flags (PF_W) is set, and the
      file's bytes are readable from p_vaddr on. */
  ghost predicate SegmentAt(m: Memory, r: nat, elf: Image, o: nat) {
    && o + 56 <= |elf|
    && (forall a: Word :: Spans(elf, o, a) ==> UserEntry(Entry(m, r, PageOf(a)), elf[o + 4] / 2 % 2 == 1))
    && (Field(elf, o, 4) == 1 ==>
          var offset, vaddr, filesz := Field(elf, o + 8, 8), Field(elf, o + 16, 8), Field(elf, o + 32, 8);
          && offset + filesz <= |elf|
          && forall a: Word :: vaddr <= a < vaddr + filesz ==> Reads(m, r, a, FileByte(elf, offset, vaddr, a)))
  }

  /** The file's byte for address a of a segment from vaddr on, whose bytes start at offset. */
  function FileByte(elf: Image, offset: nat, vaddr: nat, a: nat): Byte
    requires vaddr <= a && offset + (a - vaddr) < |elf|
  {
    elf[offset + (a - vaddr)]
  }

  /** All program headers are in place. */
  ghost predicate SegmentsAt(m: Memory, r: nat, elf: Image) {
    |elf| >= 64 && forall i :: 0 <= i < Field(elf, 56, 2) ==> SegmentAt(m, r, elf, HeaderOffset(elf, i))
  }

  /** The image asks for the page of this address: a segment spans it, or it is the stack's. */
  ghost predicate Wanted(elf: Image, a: nat) {
    || a == 0x7000_0000_0000
    || (|elf| >= 64 && exists i :: 0 <= i < Field(elf, 56, 2) && Spans(elf, HeaderOffset(elf, i), a))
  }

  lemma LowBitOfField(m: seq<Byte>, o: nat)
    requires o + 4 <= |m|
    ensures Field(m, o, 4) / 2 % 2 == m[o] / 2 % 2
  {
    var rest := Field(m, o + 1, 3);
    assert (m[o] + 256 * rest) / 2 == m[o] / 2 + 128 * rest;
  }

  /** The pages of a segment are those of the addresses its header spans. */
  lemma SpannedPages(elf: Image, o: nat, v: nat)
    requires o + 56 <= |elf|
    ensures InSegment(PhdrAt(elf, o), v) <==> exists a: nat :: a / PAGE_SIZE == v && Spans(elf, o, a)
  {
    var ph := PhdrAt(elf, o);
    if InSegment(ph, v) {
      var a := if ph.pVaddr < v * PAGE_SIZE then v * PAGE_SIZE else ph.pVaddr;
      assert a / PAGE_SIZE == v && Spans(elf, o, a);
    }
  }
}
