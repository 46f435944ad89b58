/** Words as little-endian bytes. */
module Bytes {
  import opened Words

  // ---------------------------------------------------------------- bytes in words

  /** Byte k of a little-endian word. */
  function GetByte(w: nat, k: nat): Byte {
    if k == 0 then w % 256 else GetByte(w / 256, k - 1)
  }

  function SetByte(w: nat, k: nat, b: Byte): nat {
    if k == 0 then w - w % 256 + b else SetByte(w / 256, k - 1, b) * 256 + w % 256
  }

  lemma {:induction false} GetSetByte(w: nat, k: nat, b: Byte, j: nat)
    ensures GetByte(SetByte(w, k, b), j) == if j == k then b else GetByte(w, j)
  {
    if k == 0 {
      assert (w - w % 256 + b) / 256 == w / 256;
    } else {
      assert SetByte(w, k, b) / 256 == SetByte(w / 256, k - 1, b);
      if j != 0 { GetSetByte(w / 256, k - 1, b, j - 1); }
    }
  }

  /** The first word that needs more than n bytes. */
  function ByteLimit(n: nat): nat { if n == 0 then 1 else 256 * ByteLimit(n - 1) }

  lemma BelowShifted(q: nat, r: Byte, limit: nat)
    ensures q < limit <==> 256 * q + r < 256 * limit
  {
  }

  lemma {:induction false} SetByteBound(w: nat, k: nat, b: Byte, n: nat)
    requires w < ByteLimit(n) && k < n
    ensures SetByte(w, k, b) < ByteLimit(n)
  {
    BelowShifted(w / 256, w % 256, ByteLimit(n - 1));
    if k == 0 {
      BelowShifted(w / 256, b, ByteLimit(n - 1));
    } else {
      SetByteBound(w / 256, k - 1, b, n - 1);
      BelowShifted(SetByte(w / 256, k - 1, b), w % 256, ByteLimit(n - 1));
    }
  }

  lemma WordLimit()
    ensures ByteLimit(8) == TWO_64
  {
    assert ByteLimit(4) == 0x1_0000_0000;
  }

  /** A word is determined by its bytes. */
  lemma {:induction false} SameBytes(w: nat, x: nat, n: nat)
    requires w < ByteLimit(n) && x < ByteLimit(n)
    requires forall j: nat :: j < n ==> GetByte(w, j) == GetByte(x, j)
    ensures w == x
  {
    if n != 0 {
      assert GetByte(w, 0) == GetByte(x, 0);
      forall j: nat | j < n - 1 ensures GetByte(w / 256, j) == GetByte(x / 256, j) {
        assert GetByte(w, j + 1) == GetByte(x, j + 1);
      }
      SameBytes(w / 256, x / 256, n - 1);
    }
  }

  /** The n-byte little-endian number at offset o. */
  function Field(m: seq<Byte>, o: nat, n: nat): nat
    requires o + n <= |m|
    decreases |m| - o
  {
    if n == 0 then 0 else m[o] + 256 * Field(m, o + 1, n - 1)
  }

  lemma {:induction false} FieldBound(m: seq<Byte>, o: nat, n: nat)
    requires o + n <= |m|
    ensures Field(m, o, n) < ByteLimit(n)
    decreases n
  {
    if n != 0 { FieldBound(m, o + 1, n - 1); }
  }

  /** A field that holds a word's bytes reads as the word. */
  lemma {:induction false} FieldOfBytes(m: seq<Byte>, o: nat, v: nat, n: nat)
    requires o + n <= |m| && v < ByteLimit(n)
    requires forall j: nat :: j < n ==> m[o + j] == GetByte(v, j)
    ensures Field(m, o, n) == v
    decreases n
  {
    if n != 0 {
      assert m[o + 0] == GetByte(v, 0);
      forall j: nat | j < n - 1 ensures m[o + 1 + j] == GetByte(v / 256, j) {
        assert m[o + (j + 1)] == GetByte(v, j + 1);
      }
      FieldOfBytes(m, o + 1, v / 256, n - 1);
    }
  }

  /** A field depends on its own bytes only. */
  lemma {:induction false} FieldFrame(m: seq<Byte>, m': seq<Byte>, o: nat, n: nat)
    requires o + n <= |m| && o + n <= |m'|
    requires forall x :: o <= x < o + n ==> m[x] == m'[x]
    ensures Field(m, o, n) == Field(m', o, n)
    decreases n
  {
    if n != 0 { FieldFrame(m, m', o + 1, n - 1); }
  }
}
