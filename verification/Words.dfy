/** The 64-bit machine words of the kernel and the bit operations it applies to them.
    A word is an integer below 2^64, so `>>`, `&` with a low mask and `& PAGE_MASK` are
    exactly division and remainder by powers of two; `|` is defined bit by bit. */
module Words {

  const TWO_64: int := 0x1_0000_0000_0000_0000
  const TWO_52: int := 0x10_0000_0000_0000
  const TWO_40: int := 0x100_0000_0000
  const PAGE_SIZE: int := 0x1000

  type Word = x: int | 0 <= x < TWO_64
  type Byte = x: int | 0 <= x < 256

  datatype Option<+T> = None | Some(value: T)

  // ---------------------------------------------------------------- bitwise or

  /** C's `x | y` on non-negative integers. */
  function Or(x: nat, y: nat): nat
  {
    if x == 0 then y
    else if y == 0 then x
    else 2 * Or(x / 2, y / 2) + (if x % 2 == 1 || y % 2 == 1 then 1 else 0)
  }

  /** C's `a << k`, without truncation. */
  function Shift(a: nat, k: nat): nat {
    if k == 0 then a else 2 * Shift(a, k - 1)
  }

  lemma OrHalf(x: nat, y: nat)
    ensures Or(x, y) == 2 * Or(x / 2, y / 2) + (if x % 2 == 1 || y % 2 == 1 then 1 else 0)
  {
  }

  /** One more low bit. */
  lemma OrBit(x: nat, y: nat, z: nat, b: nat)
    requires Or(x, y) == z && b < 2
    ensures Or(2 * x, 2 * y + b) == 2 * z + b
  {
    OrHalf(2 * x, 2 * y + b);
    assert (2 * y + b) / 2 == y && (2 * y + b) % 2 == b;
  }

  /** Or with a multiple of 2^k leaves the low k bits alone and acts on the high bits. */
  lemma {:induction false} OrAbove(a: nat, b: nat, l: nat, k: nat)
    requires l < Shift(1, k)
    ensures Or(Shift(a, k), Shift(b, k) + l) == Shift(Or(a, b), k) + l
  {
    if k != 0 {
      OrAbove(a, b, l / 2, k - 1);
      OrBit(Shift(a, k - 1), Shift(b, k - 1) + l / 2, Shift(Or(a, b), k - 1) + l / 2, l % 2);
    }
  }

  lemma {:induction false} OrSymmetric(x: nat, y: nat)
    ensures Or(x, y) == Or(y, x)
  {
    if x != 0 && y != 0 { OrSymmetric(x / 2, y / 2); }
  }

  lemma {:induction false} ShiftIsProduct(a: nat, k: nat)
    ensures Shift(a, k) == a * Shift(1, k)
  {
    if k != 0 {
      ShiftIsProduct(a, k - 1);
      assert a * (2 * Shift(1, k - 1)) == 2 * (a * Shift(1, k - 1));
    }
  }

  lemma FieldShifts(a: nat)
    ensures Shift(a, 12) == a * PAGE_SIZE && Shift(a, 40) == a * TWO_40
  {
    ShiftIsProduct(a, 12);
    ShiftIsProduct(a, 40);
    assert Shift(1, 8) == 0x100 && Shift(1, 12) == PAGE_SIZE;
    assert Shift(1, 16) == 0x1_0000 && Shift(1, 20) == 0x10_0000;
    assert Shift(1, 24) == 0x100_0000 && Shift(1, 28) == 0x1000_0000;
    assert Shift(1, 32) == 0x1_0000_0000 && Shift(1, 36) == 0x10_0000_0000;
  }

  // ---------------------------------------------------------------- page-table entries

  /** Bit 0, the present bit (vmm.c tests `entry & 0x1`). */
  predicate Present(w: Word) {
    w % 2 == 1
  }

  /** The frame number in bits 12-51: `(w & PAGE_MASK) / PAGE_SIZE`. */
  function Target(w: Word): (f: nat)
    ensures f < TWO_40
  {
    w / PAGE_SIZE % TWO_40
  }

  predicate MapsTo(w: Word, f: nat) {
    Present(w) && Target(w) == f
  }

  /** Flag words have no bit inside PAGE_MASK. */
  predicate IsFlags(x: Word) {
    x % TWO_52 < PAGE_SIZE
  }

  /** Frame base addresses are aligned and below 2^52. */
  predicate IsFrameAddress(x: Word) {
    x % PAGE_SIZE == 0 && x < TWO_52
  }

  lemma FrameAddress(t: nat)
    requires t < TWO_40
    ensures t * PAGE_SIZE < TWO_64 && IsFrameAddress(t * PAGE_SIZE) && t * PAGE_SIZE / PAGE_SIZE == t
  {
  }

  lemma OrDisjoint(a: nat, g: nat, l: nat)
    requires a < TWO_40 && l < PAGE_SIZE
    ensures Or(a * PAGE_SIZE, g * TWO_52 + l) == a * PAGE_SIZE + (g * TWO_52 + l)
  {
    FieldShifts(1);
    FieldShifts(a);
    FieldShifts(g);
    FieldShifts(g * TWO_40);
    FieldShifts(g * TWO_40 + a);
    OrAbove(a, g * TWO_40, l, 12);
    OrSymmetric(a, g * TWO_40);
    OrAbove(g, 0, a, 40);
    FieldShifts(0);
  }

  /** `address | flags` is a word whose address field and flag bits are the two arguments. */
  lemma EntryFields(pa: Word, flags: Word)
    requires IsFrameAddress(pa) && IsFlags(flags)
    ensures Or(pa, flags) == pa + flags < TWO_64
    ensures Target(Or(pa, flags)) == pa / PAGE_SIZE
    ensures Present(Or(pa, flags)) == Present(flags)
  {
    var a, g, l := pa / PAGE_SIZE, flags / TWO_52, flags % TWO_52;
    OrDisjoint(a, g, l);
    SumFields(a, g, l);
  }

  lemma SumFields(a: nat, g: nat, l: nat)
    requires a < TWO_40 && l < PAGE_SIZE
    ensures (a * PAGE_SIZE + (g * TWO_52 + l)) / PAGE_SIZE % TWO_40 == a
    ensures (a * PAGE_SIZE + (g * TWO_52 + l)) % 2 == (g * TWO_52 + l) % 2
  {
    QuotientOf(g * TWO_40 + a, l);
    RemainderOf(g, a);
    ParityOf(a, g * TWO_52 + l);
  }

  lemma ParityOf(a: nat, x: nat)
    ensures (a * PAGE_SIZE + x) % 2 == x % 2
  {
  }

  lemma QuotientOf(q: nat, l: nat)
    requires l < PAGE_SIZE
    ensures (q * PAGE_SIZE + l) / PAGE_SIZE == q
  {
  }

  lemma RemainderOf(g: nat, a: nat)
    requires a < TWO_40
    ensures (g * TWO_40 + a) % TWO_40 == a
  {
  }

  /** Or-ing in the present bit sets it and touches nothing else. */
  lemma OrPresent(w: Word)
    ensures Or(w, 1) == (if Present(w) then w else w + 1) < TWO_64
    ensures MapsTo(Or(w, 1), Target(w))
  {
    OrHalf(w, 1);
    assert Or(w / 2, 0) == w / 2;
    assert w == 2 * (w / 2) + w % 2;
    if !Present(w) {
      assert (w + 1) / PAGE_SIZE == w / PAGE_SIZE by { assert w % PAGE_SIZE != PAGE_SIZE - 1; }
    }
  }

  /** The entry map_page links a new table with: the frame's address, the flags and the present bit. */
  lemma LinkWord(pa: Word, flags: Word)
    requires IsFrameAddress(pa) && IsFlags(flags)
    ensures Or(pa, flags) < TWO_64 && Or(Or(pa, flags), 1) < TWO_64
    ensures MapsTo(Or(Or(pa, flags), 1), pa / PAGE_SIZE) && Target(Or(Or(pa, flags), 1)) * PAGE_SIZE == pa
  {
    EntryFields(pa, flags);
    OrPresent(Or(pa, flags));
  }
}
