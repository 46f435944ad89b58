/** The parts of an ELF64 image that load_elf reads (System V gABI, chapters 4 and 5). */
module Elf {
  import opened Words
  import opened Bytes
  import opened UserSpace

  type Image = seq<Byte>

  const EHDR_SIZE: nat := 64
  const PHDR_SIZE: nat := 56
  const PT_LOAD: nat := 1

  /** load_elf's return code for a rejected header, 0 for an accepted one. */
  function HeaderError(elf: Image): nat
    requires |elf| >= EHDR_SIZE
  {
    if elf[..4] != [0x7F, 0x45, 0x4C, 0x46] then 0x10
    else if elf[4] != 2 then 0x11
    else if elf[5] != 1 then 0x12
    else if Field(elf, 18, 2) != 62 then 0x13
    else 0
  }

  datatype Phdr = Phdr(pType: nat, pFlags: nat, pOffset: nat, pVaddr: nat, pFilesz: nat, pMemsz: nat)

  function PhdrAt(elf: Image, o: nat): Phdr
    requires o + PHDR_SIZE <= |elf|
  {
    Phdr(Field(elf, o, 4), Field(elf, o + 4, 4), Field(elf, o + 8, 8), Field(elf, o + 16, 8), Field(elf, o + 32, 8), Field(elf, o + 40, 8))
  }

  ghost predicate TableInside(elf: Image) {
    && |elf| >= EHDR_SIZE
    && Field(elf, 32, 8) + Field(elf, 56, 2) * PHDR_SIZE <= |elf|
  }

  /** The program headers. */
  function Phdrs(elf: Image): (phs: seq<Phdr>)
    requires TableInside(elf)
    ensures |phs| == Field(elf, 56, 2)
  {
    seq(Field(elf, 56, 2), i requires 0 <= i < Field(elf, 56, 2) => PhdrAt(elf, Field(elf, 32, 8) + i * PHDR_SIZE))
  }

  // ---------------------------------------------------------------- segments

  /** The pages load_elf maps for a segment: up to and including the one at vaddr + memsz. */
  function FirstPage(ph: Phdr): nat { ph.pVaddr / PAGE_SIZE }
  function EndPage(ph: Phdr): nat { (ph.pVaddr + ph.pMemsz) / PAGE_SIZE + 1 }

  predicate InSegment(ph: Phdr, v: nat) {
    ph.pType == PT_LOAD && FirstPage(ph) <= v < EndPage(ph)
  }

  /** Present and user, and writable when PF_W is set. */
  function SegmentFlags(ph: Phdr): Word {
    if ph.pFlags / 2 % 2 == 1 then 0x7 else 0x5
  }

  const STACK_PAGE: nat := 0x7_0000_0000

  /** A segment that can be loaded: its file bytes are in the image and in the segment, fewer than
      memcpy's 32-bit counter can count, and its pages are in the lower half, clear of the stack. */
  ghost predicate Loadable(elf: Image, ph: Phdr) {
    ph.pType == PT_LOAD ==>
      && ph.pFilesz <= ph.pMemsz && ph.pOffset + ph.pFilesz <= |elf| && ph.pFilesz < 0x8000_0000
      && ph.pVaddr + ph.pMemsz < LOWER_END
      && !InSegment(ph, STACK_PAGE)
  }

  ghost predicate Disjoint(a: Phdr, b: Phdr) {
    forall v :: !(InSegment(a, v) && InSegment(b, v))
  }

  /** Segments load_elf can load together: they share no page. Their order is free. */
  ghost predicate GoodSegments(elf: Image, phs: seq<Phdr>) {
    && (forall i :: 0 <= i < |phs| ==> Loadable(elf, phs[i]))
    && (forall i, j :: 0 <= i < j < |phs| ==> Disjoint(phs[i], phs[j]))
  }

  /** Frames that are enough for the segments from n on and the stack: every page costs at most
      four, its own and three tables. */
  function Cost(phs: seq<Phdr>, n: nat): nat
    requires n <= |phs|
    decreases |phs| - n
  {
    if n == |phs| then 4
    else Cost(phs, n + 1) + if phs[n].pType == PT_LOAD then 4 * (EndPage(phs[n]) - FirstPage(phs[n])) else 0
  }
}
