/** Virtual addresses: their four table indices, and the kernel's linear map of the first 2 MiB. */
module Addresses {
  import opened Words
  import opened Pool
  import opened PageTables
  import opened KernelSpace

  const TWO_21: int := 0x20_0000
  const TWO_30: int := 0x4000_0000
  const TWO_39: int := 0x80_0000_0000

  /** The four table indices of an address: `(va >> 39) & 0x1FF` and so on. */
  function PageOf(va: Word): Page {
    Page(va / TWO_39 % 512, va / TWO_30 % 512, va / TWO_21 % 512, va / PAGE_SIZE % 512)
  }

  /** The kernel's linear map. */
  function Linear(t: nat): Word { (t * PAGE_SIZE + KERNEL_BASE) % TWO_64 }

  lemma LinearAddress(t: nat)
    requires t < 512
    ensures PageOf(Linear(t)) == LinearPage(t)
    ensures PageOf(TEMP_PAGE) == WINDOW
  {
  }

  /** The page number, bits 12-47. */
  function PageNumber(va: Word): nat { va / PAGE_SIZE % 0x10_0000_0000 }

  lemma Digits(x: nat, x1: nat, x2: nat, x3: nat, x4: nat, d0: nat, d1: nat, d2: nat, d3: nat)
    requires x == 512 * x1 + d0 && x1 == 512 * x2 + d1 && x2 == 512 * x3 + d2 && x3 == 512 * x4 + d3
    requires d0 < 512 && d1 < 512 && d2 < 512 && d3 < 512
    ensures x == x4 * 0x10_0000_0000 + (d3 * 0x800_0000 + d2 * 0x4_0000 + d1 * 512 + d0)
    ensures d3 * 0x800_0000 + d2 * 0x4_0000 + d1 * 512 + d0 < 0x10_0000_0000
  {
  }

  lemma LowDigits(x: nat, q: nat, s: nat)
    requires x == q * 0x10_0000_0000 + s && s < 0x10_0000_0000
    ensures x % 0x10_0000_0000 == s
  {
  }

  lemma DigitsUnique(a3: Index, a2: Index, a1: Index, a0: Index, b3: Index, b2: Index, b1: Index, b0: Index)
    ensures a3 * 0x800_0000 + a2 * 0x4_0000 + a1 * 512 + a0 == b3 * 0x800_0000 + b2 * 0x4_0000 + b1 * 512 + b0
            <==> a3 == b3 && a2 == b2 && a1 == b1 && a0 == b0
  {
  }

  /** The indices are the page number's digits in base 512. */
  lemma PageNumberOfIndices(va: Word)
    ensures var p := PageOf(va);
            PageNumber(va) == p.i4 * 0x800_0000 + p.i3 * 0x4_0000 + p.i2 * 512 + p.i1
  {
    var x := va / PAGE_SIZE;
    var x1 := x / 512;
    var x2 := x1 / 512;
    var x3 := x2 / 512;
    Digits(x, x1, x2, x3, x3 / 512, x % 512, x1 % 512, x2 % 512, x3 % 512);
    assert x1 == va / TWO_21 && x2 == va / TWO_30 && x3 == va / TWO_39;
    LowDigits(x, x3 / 512, x3 % 512 * 0x800_0000 + x2 % 512 * 0x4_0000 + x1 % 512 * 512 + x % 512);
  }

  /** Two addresses are on the same page exactly when their bits 12-47 agree. */
  lemma SamePage(a: Word, b: Word)
    ensures PageOf(a) == PageOf(b) <==> PageNumber(a) == PageNumber(b)
  {
    var p, q := PageOf(a), PageOf(b);
    PageNumberOfIndices(a);
    PageNumberOfIndices(b);
    DigitsUnique(p.i4, p.i3, p.i2, p.i1, q.i4, q.i3, q.i2, q.i1);
  }
}
