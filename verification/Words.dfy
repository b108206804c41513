/**
 The 32-bit register of the checksum engine, read as its bits.

 Bit `i` of a word is the coefficient of 2^i. The operators of C++ on `uint32_t` are the
 bit-vector operators of Dafny; they are named here so that proofs can use their laws
 (`HalfXor`, `OddXor`, `XorAssociative`, ...) without unfolding them.
 */
module Words {
  type Word = bv32

  type Bits = seq<bool>

  function XorBits(u: Bits, v: Bits): (d: Bits)
    requires |u| == |v|
    ensures |d| == |u|
  {
    seq(|u|, i requires 0 <= i < |u| => u[i] != v[i])
  }

  function Xor(a: Word, b: Word): Word { a ^ b }

  function And(a: Word, b: Word): Word { a & b }

  function Negate(a: Word): Word { -a }

  function Half(a: Word): Word { a >> 1 }

  predicate Odd(a: Word) { a & 1 == 1 }

  function Not(a: Word): Word { !a }

  /** Bit `i` of `r`: shift right `i` times, then test the low bit. */
  predicate Bit(r: Word, i: nat)
    decreases i
  {
    if i == 0 then Odd(r) else Bit(Half(r), i - 1)
  }

  /** The low bit as a word. */
  function Low(b: bool): Word { if b then 1 else 0 }

  // ---- Laws of the operators -----------------------------------------------------------

  lemma XorAssociative(a: Word, b: Word, c: Word)
    ensures Xor(a, Xor(b, c)) == Xor(Xor(a, b), c)
  {}

  lemma XorCommutative(a: Word, b: Word)
    ensures Xor(a, b) == Xor(b, a)
  {}

  lemma XorSelf(a: Word)
    ensures Xor(a, a) == 0
  {}

  lemma XorZero(a: Word)
    ensures Xor(a, 0) == a && Xor(0, a) == a
  {}

  lemma HalfXor(a: Word, b: Word)
    ensures Half(Xor(a, b)) == Xor(Half(a), Half(b))
  {}

  lemma OddXor(a: Word, b: Word)
    ensures Odd(Xor(a, b)) == (Odd(a) != Odd(b))
  {}

  lemma NotIsXor(a: Word)
    ensures Not(a) == Xor(a, 0xFFFF_FFFF)
  {}

  /** (a ^ b) ^ (c ^ d) == (a ^ c) ^ (b ^ d) */
  lemma XorInterchange(a: Word, b: Word, c: Word, d: Word)
    ensures Xor(Xor(a, b), Xor(c, d)) == Xor(Xor(a, c), Xor(b, d))
  {
    hide Xor;
    XorAssociative(Xor(a, b), c, d);
    XorAssociative(a, b, c);
    XorCommutative(b, c);
    XorAssociative(a, c, b);
    XorAssociative(Xor(a, c), b, d);
  }

  /** a ^ b == 0 exactly when a == b */
  lemma XorZeroIffEqual(a: Word, b: Word)
    ensures Xor(a, b) == 0 <==> a == b
  {
    hide Xor;
    XorSelf(a);
    XorAssociative(a, a, b);
    XorZero(a);
    XorZero(b);
  }

  lemma XorCancel(a: Word, b: Word, c: Word)
    ensures Xor(Xor(a, c), Xor(b, c)) == Xor(a, b)
  {
    hide Xor;
    XorInterchange(a, c, b, c);
    XorSelf(c);
    XorZero(Xor(a, b));
  }

  // ---- Bits ----------------------------------------------------------------------------

  lemma {:induction false} BitXor(a: Word, b: Word, i: nat)
    ensures Bit(Xor(a, b), i) == (Bit(a, i) != Bit(b, i))
    decreases i
  {
    hide Xor, Half, Odd;
    if i == 0 {
      OddXor(a, b);
    } else {
      HalfXor(a, b);
      BitXor(Half(a), Half(b), i - 1);
    }
  }

  lemma OddAfterHalves(r: Word)
    ensures Odd(r) == (r & 0x01 != 0) && Odd(Half(r)) == (r & 0x02 != 0)
  {}

  lemma FourHalves(r: Word)
    ensures Half(Half(r)) == r >> 2 && Half(Half(Half(Half(r)))) == r >> 4
  {}

  lemma MaskAfterShift(r: Word)
    ensures (r >> 2) & 0x01 != 0 <==> r & 0x04 != 0
    ensures (r >> 2) & 0x02 != 0 <==> r & 0x08 != 0
  {}

  lemma LowNibbleBits(r: Word)
    ensures Bit(r, 0) == (r & 0x01 != 0) && Bit(r, 1) == (r & 0x02 != 0)
    ensures Bit(r, 2) == (r & 0x04 != 0) && Bit(r, 3) == (r & 0x08 != 0)
  {
    OddAfterHalves(r);
    OddAfterHalves(r >> 2);
    FourHalves(r);
    MaskAfterShift(r);
    hide Half, Odd;
    var h1 := Half(r);
    var h2 := Half(h1);
    var h3 := Half(h2);
    assert Bit(r, 1) == Bit(h1, 0);
    assert Bit(r, 2) == Bit(h1, 1) == Bit(h2, 0);
    assert Bit(r, 3) == Bit(h1, 2) == Bit(h2, 1) == Bit(h3, 0);
  }

  function DropNibble(r: Word): Word { r >> 4 }

  lemma HighBits(r: Word, i: nat)
    requires 4 <= i
    ensures Bit(r, i) == Bit(DropNibble(r), i - 4)
  {
    FourHalves(r);
    assert Half(Half(Half(Half(r)))) == DropNibble(r);
    hide Half, Odd, DropNibble;
    var h1 := Half(r);
    var h2 := Half(h1);
    var h3 := Half(h2);
    assert Bit(r, i) == Bit(h1, i - 1) == Bit(h2, i - 2) == Bit(h3, i - 3) == Bit(Half(h3), i - 4);
  }

  lemma {:induction false} BitOfZero(i: nat)
    ensures !Bit(0, i)
    decreases i
  {
    if i != 0 {
      assert Half(0) == 0;
      BitOfZero(i - 1);
    }
  }

  lemma BitOfLow(b: bool, i: nat)
    ensures Bit(Low(b), i) == (i == 0 && b)
  {
    if i != 0 {
      assert Half(Low(b)) == 0;
      BitOfZero(i - 1);
    }
  }

  function DropNibbles(r: Word, n: nat): Word
    decreases n
  {
    if n == 0 then r else DropNibble(DropNibbles(r, n - 1))
  }

  lemma NoNinthNibble(r: Word)
    ensures DropNibble(DropNibble(DropNibble(DropNibble(
              DropNibble(DropNibble(DropNibble(DropNibble(r)))))))) == 0
  {}

  lemma DropAllNibbles(r: Word)
    ensures DropNibbles(r, 8) == 0
  {
    NoNinthNibble(r);
    hide DropNibble;
    var d2 := DropNibbles(r, 2);
    var d4 := DropNibbles(r, 4);
    var d6 := DropNibbles(r, 6);
    assert d4 == DropNibble(DropNibble(d2)) && d6 == DropNibble(DropNibble(d4));
    assert DropNibbles(r, 8) == DropNibble(DropNibble(d6));
  }

  lemma NibbleZero(r: Word)
    requires r & 0x01 == 0 && r & 0x02 == 0 && r & 0x04 == 0 && r & 0x08 == 0 && DropNibble(r) == 0
    ensures r == 0
  {}

  lemma {:induction false} NibbleChain(r: Word, n: nat, i: nat)
    requires 4 * n <= i
    ensures Bit(r, i) == Bit(DropNibbles(r, n), i - 4 * n)
    decreases n
  {
    hide Half, Odd, DropNibble;
    if n != 0 {
      NibbleChain(r, n - 1, i);
      HighBits(DropNibbles(r, n - 1), i - 4 * (n - 1));
    }
  }

  /** A word has 32 bits. */
  lemma BitsEndAt32(r: Word, i: nat)
    requires 32 <= i
    ensures !Bit(r, i)
  {
    NibbleChain(r, 8, i);
    DropAllNibbles(r);
    BitOfZero(i - 32);
  }

  /** A word whose bits are all clear is zero; the induction goes nibble by nibble from the top. */
  lemma {:induction false} ClearNibbles(r: Word, n: nat)
    requires n <= 8
    requires forall i: nat | i < 32 :: !Bit(r, i)
    ensures DropNibbles(r, n) == 0
    decreases 8 - n
  {
    if n == 8 {
      DropAllNibbles(r);
    } else {
      ClearNibbles(r, n + 1);
      var d := DropNibbles(r, n);
      NibbleChain(r, n, 4 * n);
      NibbleChain(r, n, 4 * n + 1);
      NibbleChain(r, n, 4 * n + 2);
      NibbleChain(r, n, 4 * n + 3);
      LowNibbleBits(d);
      NibbleZero(d);
    }
  }

  /** Words with the same 32 bits are equal. */
  lemma BitsDetermine(a: Word, b: Word)
    requires forall i: nat | i < 32 :: Bit(a, i) == Bit(b, i)
    ensures a == b
  {
    var c := Xor(a, b);
    hide Xor, Half, Odd;
    forall i: nat | i < 32 ensures !Bit(c, i) {
      BitXor(a, b, i);
    }
    ClearNibbles(c, 0);
    XorZeroIffEqual(a, b);
  }
}
