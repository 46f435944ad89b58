/** ELF64 headers as the format lays them out (System V gABI, chapters 4 and 5): writing them and reading
    them back. */
module ElfFormat {
  import opened Words
  import opened Bytes
  import opened Elf

  // ---------------------------------------------------------------- numbers in a row

  /** The n little-endian bytes of v. */
  function LittleEndian(v: nat, n: nat): (s: seq<Byte>)
    ensures |s| == n
  {
    if n == 0 then [] else [v % 256] + LittleEndian(v / 256, n - 1)
  }

  /** A number and the number of bytes it takes. */
  datatype Number = Number(value: nat, width: nat)

  function Width(ns: seq<Number>): nat { if ns == [] then 0 else ns[0].width + Width(ns[1..]) }

  /** Where the k-th number starts. */
  function Offset(ns: seq<Number>, k: nat): nat
    requires k <= |ns|
  {
    if k == 0 then 0 else Offset(ns, k - 1) + ns[k - 1].width
  }

  lemma {:induction false} OffsetTail(ns: seq<Number>, k: nat)
    requires 0 < k <= |ns|
    ensures Offset(ns, k) == ns[0].width + Offset(ns[1..], k - 1)
  {
    if k > 1 { OffsetTail(ns, k - 1); }
  }

  lemma {:induction false} WidthIsOffset(ns: seq<Number>)
    ensures Width(ns) == Offset(ns, |ns|)
  {
    if ns != [] {
      WidthIsOffset(ns[1..]);
      OffsetTail(ns, |ns|);
    }
  }

  function Encode(ns: seq<Number>): (s: seq<Byte>)
    ensures |s| == Width(ns)
  {
    if ns == [] then [] else LittleEndian(ns[0].value, ns[0].width) + Encode(ns[1..])
  }

  lemma {:induction false} FieldWritten(m: seq<Byte>, o: nat, v: nat, n: nat)
    requires o + n <= |m| && m[o..o + n] == LittleEndian(v, n) && v < ByteLimit(n)
    ensures Field(m, o, n) == v
    decreases n
  {
    if n != 0 {
      var s := LittleEndian(v, n);
      assert m[o] == m[o..o + n][0] == s[0];
      assert m[o + 1..o + n] == m[o..o + n][1..] == s[1..];
      FieldWritten(m, o + 1, v / 256, n - 1);
    }
  }

  /** Numbers written at o: the first, and the others after it. */
  lemma {:induction false} FirstWritten(m: seq<Byte>, o: nat, ns: seq<Number>)
    requires ns != [] && o + Width(ns) <= |m| && m[o..o + Width(ns)] == Encode(ns)
    ensures var w := ns[0].width;
            && m[o..o + w] == LittleEndian(ns[0].value, w)
            && m[o + w..o + w + Width(ns[1..])] == Encode(ns[1..])
  {
    var w, s := ns[0].width, Encode(ns);
    assert m[o..o + w] == m[o..o + Width(ns)][..w] == s[..w];
    assert m[o + w..o + Width(ns)] == m[o..o + Width(ns)][w..] == s[w..];
  }

  /** The k-th of the numbers written at offset o reads back where it starts. */
  lemma {:induction false} NumberWritten(m: seq<Byte>, o: nat, ns: seq<Number>, k: nat)
    requires o + Width(ns) <= |m| && m[o..o + Width(ns)] == Encode(ns)
    requires k < |ns| && ns[k].value < ByteLimit(ns[k].width)
    ensures o + Offset(ns, k) + ns[k].width <= |m| && Field(m, o + Offset(ns, k), ns[k].width) == ns[k].value
    decreases k
  {
    FirstWritten(m, o, ns);
    if k == 0 {
      FieldWritten(m, o, ns[0].value, ns[0].width);
    } else {
      OffsetTail(ns, k);
      NumberWritten(m, o + ns[0].width, ns[1..], k - 1);
    }
  }

  // ---------------------------------------------------------------- program headers

  /** struct Elf64_Phdr, with the two members load_elf does not read. */
  function PhdrNumbers(h: Phdr, paddr: nat, align: nat): seq<Number> {
    [Number(h.pType, 4), Number(h.pFlags, 4), Number(h.pOffset, 8), Number(h.pVaddr, 8), Number(paddr, 8),
     Number(h.pFilesz, 8), Number(h.pMemsz, 8), Number(align, 8)]
  }

  predicate PhdrFits(h: Phdr) {
    && h.pType < ByteLimit(4) && h.pFlags < ByteLimit(4) && h.pOffset < ByteLimit(8) && h.pVaddr < ByteLimit(8)
    && h.pFilesz < ByteLimit(8) && h.pMemsz < ByteLimit(8)
  }

  lemma PhdrOffsets(h: Phdr, paddr: nat, align: nat)
    ensures var ns := PhdrNumbers(h, paddr, align);
            && Offset(ns, 1) == 4 && Offset(ns, 2) == 8 && Offset(ns, 3) == 16 && Offset(ns, 5) == 32 && Offset(ns, 6) == 40
            && Width(ns) == 56
  {
    WidthIsOffset(PhdrNumbers(h, paddr, align));
  }

  /** The loader reads back a program header written by the format. */
  lemma PhdrRoundTrip(elf: Image, o: nat, h: Phdr, paddr: nat, align: nat)
    requires PhdrFits(h) && o + 56 <= |elf| && elf[o..o + 56] == Encode(PhdrNumbers(h, paddr, align))
    ensures PhdrAt(elf, o) == h
  {
    var ns := PhdrNumbers(h, paddr, align);
    PhdrOffsets(h, paddr, align);
    NumberWritten(elf, o, ns, 0);
    NumberWritten(elf, o, ns, 1);
    NumberWritten(elf, o, ns, 2);
    NumberWritten(elf, o, ns, 3);
    NumberWritten(elf, o, ns, 5);
    NumberWritten(elf, o, ns, 6);
  }

  /** A table of program headers, each with its physical address and alignment zero. */
  function EncodeTable(phs: seq<Phdr>): (s: seq<Byte>)
    ensures |s| == 56 * |phs|
  {
    if phs == [] then []
    else
      PhdrOffsets(phs[0], 0, 0);
      Encode(PhdrNumbers(phs[0], 0, 0)) + EncodeTable(phs[1..])
  }

  lemma {:induction false} TableAt(phs: seq<Phdr>, i: nat)
    requires i < |phs|
    ensures |Encode(PhdrNumbers(phs[i], 0, 0))| == 56
    ensures EncodeTable(phs)[56 * i..56 * i + 56] == Encode(PhdrNumbers(phs[i], 0, 0))
    decreases i
  {
    PhdrOffsets(phs[i], 0, 0);
    PhdrOffsets(phs[0], 0, 0);
    var head, s := Encode(PhdrNumbers(phs[0], 0, 0)), EncodeTable(phs);
    if i > 0 {
      TableAt(phs[1..], i - 1);
      assert s[56..] == EncodeTable(phs[1..]);
      assert s[56..][56 * (i - 1)..56 * (i - 1) + 56] == s[56 * i..56 * i + 56];
    }
  }

  // ---------------------------------------------------------------- the file header

  /** struct Elf64_Ehdr: e_ident, then the members in order. */
  datatype Ehdr = Ehdr(ident: seq<Byte>, eType: nat, machine: nat, version: nat, entry: nat, phoff: nat, shoff: nat,
                       flags: nat, ehsize: nat, phentsize: nat, phnum: nat, shentsize: nat, shnum: nat, shstrndx: nat)

  function EhdrNumbers(h: Ehdr): seq<Number> {
    [Number(h.eType, 2), Number(h.machine, 2), Number(h.version, 4), Number(h.entry, 8), Number(h.phoff, 8), Number(h.shoff, 8),
     Number(h.flags, 4), Number(h.ehsize, 2), Number(h.phentsize, 2), Number(h.phnum, 2), Number(h.shentsize, 2),
     Number(h.shnum, 2), Number(h.shstrndx, 2)]
  }

  predicate EhdrFits(h: Ehdr) {
    |h.ident| == 16 && h.machine < ByteLimit(2) && h.entry < ByteLimit(8) && h.phoff < ByteLimit(8) && h.phnum < ByteLimit(2)
  }

  lemma EhdrOffsets(h: Ehdr)
    ensures var ns := EhdrNumbers(h);
            Offset(ns, 1) == 2 && Offset(ns, 3) == 8 && Offset(ns, 4) == 16 && Offset(ns, 9) == 40 && Width(ns) == 48
  {
    var ns := EhdrNumbers(h);
    WidthIsOffset(ns);
    assert Offset(ns, 1) == 2 && Offset(ns, 3) == 8 && Offset(ns, 4) == 16;
    assert Offset(ns, 6) == 32 && Offset(ns, 8) == 38 && Offset(ns, 9) == 40;
    assert Offset(ns, 11) == 44 && Offset(ns, 13) == 48;
  }

  predicate StartsWith(elf: Image, h: Ehdr) {
    |elf| >= 64 && elf[..16] == h.ident && elf[16..64] == Encode(EhdrNumbers(h))
  }

  /** The loader reads back what it uses of a file header written by the format. */
  lemma EhdrRoundTrip(elf: Image, h: Ehdr)
    requires EhdrFits(h) && StartsWith(elf, h)
    ensures Field(elf, 18, 2) == h.machine && Field(elf, 24, 8) == h.entry && Field(elf, 32, 8) == h.phoff && Field(elf, 56, 2) == h.phnum
  {
    var ns := EhdrNumbers(h);
    EhdrOffsets(h);
    NumberWritten(elf, 16, ns, 1);
    NumberWritten(elf, 16, ns, 3);
    NumberWritten(elf, 16, ns, 4);
    NumberWritten(elf, 16, ns, 9);
  }

  /** A file header is accepted exactly if it is a 64-bit little-endian x86-64 one, and otherwise the
      first thing wrong with it decides the code. */
  lemma HeaderErrorExactly(elf: Image, h: Ehdr)
    requires EhdrFits(h) && StartsWith(elf, h)
    ensures HeaderError(elf) == 0x10 <==> !(h.ident[0] == 0x7F && h.ident[1] == 0x45 && h.ident[2] == 0x4C && h.ident[3] == 0x46)
    ensures HeaderError(elf) != 0x10 ==> (HeaderError(elf) == 0x11 <==> h.ident[4] != 2)
    ensures HeaderError(elf) !in {0x10, 0x11} ==> (HeaderError(elf) == 0x12 <==> h.ident[5] != 1)
    ensures HeaderError(elf) !in {0x10, 0x11, 0x12} ==> (HeaderError(elf) == 0x13 <==> h.machine != 62)
    ensures HeaderError(elf) in {0, 0x10, 0x11, 0x12, 0x13}
  {
    EhdrRoundTrip(elf, h);
    assert elf[..16][..4] == elf[..4] && elf[..16][4] == elf[4] && elf[..16][5] == elf[5];
    assert h.ident[..4] == [h.ident[0], h.ident[1], h.ident[2], h.ident[3]];
  }

  lemma SliceOfSlice(m: seq<Byte>, o: nat, n: nat, p: nat, w: nat)
    requires o + n <= |m| && p + w <= n
    ensures m[o..o + n][p..p + w] == m[o + p..o + p + w]
  {
    var a, b := m[o..o + n][p..p + w], m[o + p..o + p + w];
    assert |a| == w && |b| == w;
    forall k | 0 <= k < w ensures a[k] == b[k] {
      assert a[k] == m[o..o + n][p + k] && m[o..o + n][p + k] == m[o + (p + k)];
    }
  }

  lemma {:induction false} HeaderInTable(elf: Image, o: nat, phs: seq<Phdr>, i: nat)
    requires o + 56 * |phs| <= |elf| && elf[o..o + 56 * |phs|] == EncodeTable(phs)
    requires i < |phs| && PhdrFits(phs[i])
    ensures PhdrAt(elf, o + 56 * i) == phs[i]
  {
    var p := o + 56 * i;
    SliceOfSlice(elf, o, 56 * |phs|, 56 * i, 56);
    TableAt(phs, i);
    PhdrRoundTrip(elf, p, phs[i], 0, 0);
  }

  /** The loader finds the program headers of an image written by the format. */
  lemma {:induction false} ImageRoundTrip(elf: Image, h: Ehdr, phs: seq<Phdr>)
    requires EhdrFits(h) && StartsWith(elf, h) && h.phnum == |phs|
    requires h.phoff + 56 * |phs| <= |elf| && elf[h.phoff..h.phoff + 56 * |phs|] == EncodeTable(phs)
    requires forall i :: 0 <= i < |phs| ==> PhdrFits(phs[i])
    ensures TableInside(elf) && Phdrs(elf) == phs
  {
    EhdrRoundTrip(elf, h);
    forall i | 0 <= i < |phs| ensures Phdrs(elf)[i] == phs[i] { HeaderInTable(elf, h.phoff, phs, i); }
  }
}
