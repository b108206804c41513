/**
 The checksum is a polynomial remainder: section 8.1.1.6.2 of ITU-T V.42 (and section 8 of
 RFC 1952) define it by division over GF(2), with the first bits complemented, the low bit of
 each byte first, and the remainder complemented. `ChecksumIsRemainder` proves that the nested
 loops compute exactly that.
 */
module CrcPolynomial {
  import opened Machine
  import opened Words
  import opened Crc32
  import opened CrcAlgebra
  import opened Polynomials

  /** x^32 + x^26 + x^23 + x^22 + x^16 + x^12 + x^11 + x^10 + x^8 + x^7 + x^5 + x^4 + x^2 + x + 1 */
  const GENERATOR: Poly := {32, 26, 23, 22, 16, 12, 11, 10, 8, 7, 5, 4, 2, 1, 0}

  /** The polynomial of a bit sequence, highest coefficient first. */
  function MessagePoly(bits: Bits): Poly {
    set i | 0 <= i < |bits| && bits[i] :: |bits| - 1 - i
  }

  /** The coefficient of x^k in a register: bit 31 - k. */
  predicate Coefficient(r: Word, k: nat)
  {
    k < 32 && Bit(r, 31 - k)
  }

  /** The polynomial of a register. */
  function RegisterPoly(r: Word): Poly {
    set k: nat | k < 32 && Coefficient(r, k)
  }

  /** x^(n - 1) + ... + x + 1 */
  function AllBelow(n: nat): (p: Poly)
    ensures forall k: nat :: k in p <==> k < n
  {
    if n == 0 then {} else AllBelow(n - 1) + {n - 1}
  }

  /** `r` is the polynomial whose coefficients are the complemented binary digits of `v`, reflected. */
  ghost predicate ReflectedComplement(v: uint32, r: Poly)
  {
    DegreeBelow(r, 32) && forall i: nat | i < 32 :: Digit(v, i) <==> 31 - i !in r
  }

  /** The dividend: the message times x^32, with its first 32 bits complemented. */
  function Dividend(data: Bytes): Poly {
    Add(Shift(MessagePoly(BitsOf(data)), 32), Shift(AllBelow(32), 8 * |data|))
  }

  // ---- One step is multiplication by x modulo the generator ----------------------------

  lemma GeneratorLowBits(i: nat)
    requires i < 16
    ensures Bit(0xEDB8_8320, i) <==> i in {5, 8, 9, 15}
  {
    if 4 <= i { HighBits(0xEDB8_8320, i); }
    if 8 <= i { HighBits(0x0EDB_8832, i - 4); }
    if 12 <= i { HighBits(0x00ED_B883, i - 8); }
    LowNibbleBits(0xEDB8_8320);
    LowNibbleBits(0x0EDB_8832);
    LowNibbleBits(0x00ED_B883);
    LowNibbleBits(0x000E_DB88);
  }

  lemma GeneratorHighBits(i: nat)
    requires i < 16
    ensures Bit(0x0000_EDB8, i) <==> i in {3, 4, 5, 7, 8, 10, 11, 13, 14, 15}
  {
    if 4 <= i { HighBits(0x0000_EDB8, i); }
    if 8 <= i { HighBits(0x0000_0EDB, i - 4); }
    if 12 <= i { HighBits(0x0000_00ED, i - 8); }
    LowNibbleBits(0x0000_EDB8);
    LowNibbleBits(0x0000_0EDB);
    LowNibbleBits(0x0000_00ED);
    LowNibbleBits(0x0000_000E);
  }

  lemma UpperHalf(r: Word, s: Word, i: nat)
    requires 16 <= i && s == DropNibble(DropNibble(DropNibble(DropNibble(r))))
    ensures Bit(r, i) == Bit(s, i - 16)
  {
    hide Bit, DropNibble;
    var d1 := DropNibble(r);
    var d2 := DropNibble(d1);
    HighBits(r, i);
    HighBits(d1, i - 4);
    HighBits(d2, i - 8);
    HighBits(DropNibble(d2), i - 12);
  }

  lemma GeneratorBits(k: nat)
    requires k < 32
    ensures Bit(0xEDB8_8320, 31 - k) <==> k in GENERATOR
  {
    if k < 16 {
      UpperHalf(0xEDB8_8320, 0x0000_EDB8, 31 - k);
      GeneratorHighBits(15 - k);
    } else {
      GeneratorLowBits(31 - k);
    }
    hide Bit;
  }

  lemma RegisterPolyXor(a: Word, b: Word)
    ensures RegisterPoly(Xor(a, b)) == Add(RegisterPoly(a), RegisterPoly(b))
  {
    hide Xor, Bit;
    forall k: nat | k < 32
      ensures Coefficient(Xor(a, b), k) == (Coefficient(a, k) != Coefficient(b, k))
    {
      BitXor(a, b, 31 - k);
    }
  }

  lemma RegisterPolyStep(r: Word)
    ensures Add(RegisterPoly(Step(r)), if Odd(r) then GENERATOR else {}) == Shift(RegisterPoly(r), 1)
  {
    forall k: nat
      ensures k in Add(RegisterPoly(Step(r)), if Odd(r) then GENERATOR else {})
              <==> k in Shift(RegisterPoly(r), 1)
    {
      InShift(RegisterPoly(r), 1, k);
      if k < 32 {
        StepBit(r, k);
      } else if k == 32 {
        assert Bit(r, 0) == Odd(r);
      }
    }
  }

  lemma StepBit(r: Word, k: nat)
    requires k < 32
    ensures Bit(Step(r), 31 - k) == ((1 <= k && Bit(r, 32 - k)) != (Odd(r) && k in GENERATOR))
  {
    var g: Word := 0xEDB8_8320;
    hide Xor, Half, Odd;
    BitXor(Half(r), if Odd(r) then g else 0, 31 - k);
    GeneratorBits(k);
    BitOfZero(31 - k);
    assert Bit(r, 32 - k) == Bit(Half(r), 31 - k);
    if k == 0 {
      BitsEndAt32(r, 32);
    }
  }

  // ---- Reading a message is division ---------------------------------------------------

  lemma MessagePolySnoc(bits: Bits, b: bool)
    ensures MessagePoly(bits + [b]) == Add(Shift(MessagePoly(bits), 1), if b then {0} else {})
  {
    var more := bits + [b];
    forall k: nat
      ensures k in MessagePoly(more) <==> k in Add(Shift(MessagePoly(bits), 1), if b then {0} else {})
    {
      InMessagePoly(more, k);
      InShift(MessagePoly(bits), 1, k);
      if 1 <= k {
        InMessagePoly(bits, k - 1);
      }
    }
  }

  lemma InMessagePoly(bits: Bits, k: nat)
    ensures k in MessagePoly(bits) <==> k < |bits| && bits[|bits| - 1 - k]
  {
    if k < |bits| && bits[|bits| - 1 - k] {
      var i := |bits| - 1 - k;
      assert |bits| - 1 - i in MessagePoly(bits);
    }
  }

  lemma LowPoly(b: bool)
    ensures RegisterPoly(Low(b)) == if b then {31} else {}
  {
    hide Bit, Low;
    forall k: nat | k < 32 ensures Coefficient(Low(b), k) <==> (k == 31 && b) {
      BitOfLow(b, 31 - k);
    }
  }

  /** The quotient that reading `bits` from register `r` leaves behind, highest coefficient first. */
  function Quotient(r: Word, bits: Bits): seq<bool>
    decreases |bits|
  {
    if bits == [] then []
    else
      var n := |bits| - 1;
      Quotient(r, bits[..n]) + [Odd(Xor(FeedBits(r, bits[..n]), Low(bits[n])))]
  }

  /** message * x^32 + r * x^n == quotient * generator + register after the message */
  lemma {:induction false} ReadingDivides(r: Word, bits: Bits)
    ensures Add(Shift(MessagePoly(bits), 32), Shift(RegisterPoly(r), |bits|)) ==
            Add(Times(Quotient(r, bits), GENERATOR), RegisterPoly(FeedBits(r, bits)))
    decreases |bits|
  {
    hide MessagePoly, RegisterPoly, Shift, Add, Times, Step, Xor, Low, Odd, Quotient, FeedBits;
    if bits == [] {
      ReadingNothing(r);
    } else {
      var n := |bits| - 1;
      var front, b := bits[..n], bits[n];
      ReadingDivides(r, front);
      DividendSnoc(front, b, RegisterPoly(r));
      assert front + [b] == bits;
      QuotientSnoc(r, front, b);
      DivisionStep(Quotient(r, front), FeedBits(r, front), b);
    }
  }

  lemma ReadingNothing(r: Word)
    ensures Add(Shift(MessagePoly([]), 32), Shift(RegisterPoly(r), 0)) ==
            Add(Times(Quotient(r, []), GENERATOR), RegisterPoly(FeedBits(r, [])))
  {
    hide RegisterPoly, Step, Xor, Low, Odd;
    assert MessagePoly([]) == {};
    assert Shift({}, 32) == {};
    ShiftZero(RegisterPoly(r));
  }

  lemma QuotientSnoc(r: Word, front: Bits, b: bool)
    ensures var s := Xor(FeedBits(r, front), Low(b));
            Quotient(r, front + [b]) == Quotient(r, front) + [Odd(s)] && FeedBits(r, front + [b]) == Step(s)
  {
    hide Step, Xor, Low, Odd;
    assert (front + [b])[..|front|] == front;
  }

  /** Appending a bit multiplies the dividend by x and adds that bit at x^32. */
  lemma DividendSnoc(front: Bits, b: bool, p: Poly)
    ensures Add(Shift(MessagePoly(front + [b]), 32), Shift(p, |front| + 1)) ==
            Add(Shift(Add(Shift(MessagePoly(front), 32), Shift(p, |front|)), 1), if b then {32} else {})
  {
    var m := MessagePoly(front);
    var low: Poly := if b then {0} else {};
    var high: Poly := if b then {32} else {};
    MessagePolySnoc(front, b);
    ShiftAdd(Shift(m, 1), low, 32);
    ShiftShift(m, 1, 32);
    ShiftShift(m, 32, 1);
    ShiftShift(p, |front|, 1);
    ShiftAdd(Shift(m, 32), Shift(p, |front|), 1);
    assert Shift(low, 32) == high by {
      if b {
        assert Shift({0}, 32) == {32};
      }
    }
    hide MessagePoly, Shift;
    var u, v := Shift(m, 33), Shift(p, |front| + 1);
    AddAssociative(u, high, v);
    AddCommutative(high, v);
    AddAssociative(u, v, high);
  }

  /** One step of long division: bring down the next bit, subtract the generator if it fits. */
  lemma DivisionStep(q: seq<bool>, r: Word, b: bool)
    ensures var s := Xor(r, Low(b));
            Add(Shift(Add(Times(q, GENERATOR), RegisterPoly(r)), 1), if b then {32} else {}) ==
            Add(Times(q + [Odd(s)], GENERATOR), RegisterPoly(Step(s)))
  {
    var s := Xor(r, Low(b));
    var t := Times(q, GENERATOR);
    var rp := RegisterPoly(r);
    var low: Poly := if b then {31} else {};
    var high: Poly := if b then {32} else {};
    var g := if Odd(s) then GENERATOR else {};
    RegisterPolyXor(r, Low(b));
    LowPoly(b);
    RegisterPolyStep(s);
    ShiftAdd(rp, low, 1);
    assert Shift(low, 1) == high by {
      if b {
        assert Shift({31}, 1) == {32};
      }
    }
    ShiftAdd(t, rp, 1);
    assert (q + [Odd(s)])[..|q|] == q;
    assert Times(q + [Odd(s)], GENERATOR) == Add(Shift(t, 1), g);
    var st := RegisterPoly(Step(s));
    hide Times, RegisterPoly, Shift, Step, Xor, Low, Odd;
    AddAssociative(Shift(t, 1), Shift(rp, 1), high);
    AddCommutative(st, g);
    AddAssociative(Shift(t, 1), g, st);
  }

  lemma AllOnesPoly()
    ensures RegisterPoly(ALL_ONES) == AllBelow(32)
  {
    hide Bit;
    forall k: nat | k < 32 ensures Coefficient(ALL_ONES, k) {
      AllOnesBit(31 - k);
    }
  }

  lemma AllOnesBit(i: nat)
    requires i < 32
    ensures Bit(ALL_ONES, i)
  {
    if i < 16 {
      AllOnesLowBits(ALL_ONES, i);
    } else {
      UpperHalf(ALL_ONES, 0x0000_FFFF, i);
      AllOnesLowBits(0x0000_FFFF, i - 16);
    }
  }

  lemma AllOnesLowBits(r: Word, i: nat)
    requires i < 16 && (r == 0xFFFF_FFFF || r == 0x0000_FFFF)
    ensures Bit(r, i)
  {
    if r == 0xFFFF_FFFF {
      FourNibblesOfOnes(0xFFFF_FFFF, 0x0FFF_FFFF, 0x00FF_FFFF, 0x000F_FFFF, i);
    } else {
      FourNibblesOfOnes(0x0000_FFFF, 0x0000_0FFF, 0x0000_00FF, 0x0000_000F, i);
    }
  }

  lemma FourNibblesOfOnes(r: Word, s: Word, t: Word, u: Word, i: nat)
    requires i < 16 && s == DropNibble(r) && t == DropNibble(s) && u == DropNibble(t)
    requires r & 0xF == 0xF && s & 0xF == 0xF && t & 0xF == 0xF && u & 0xF == 0xF
    ensures Bit(r, i)
  {
    NibbleOfOnes(r, i);
    NibbleOfOnes(s, i - 4);
    NibbleOfOnes(t, i - 8);
    NibbleOfOnes(u, i - 12);
    hide Bit, DropNibble;
  }

  lemma NibbleOfOnes(r: Word, i: int)
    requires r & 0xF == 0xF
    ensures 0 <= i < 4 ==> Bit(r, i)
    ensures 4 <= i ==> Bit(r, i) == Bit(DropNibble(r), i - 4)
  {
    LowNibbleBits(r);
    NibbleMasks(r);
    hide Half, Odd, DropNibble;
    if 4 <= i {
      HighBits(r, i);
    }
  }

  lemma NibbleMasks(r: Word)
    requires r & 0xF == 0xF
    ensures r & 0x01 != 0 && r & 0x02 != 0 && r & 0x04 != 0 && r & 0x08 != 0
  {}

  lemma RegisterIsRemainder(data: Bytes)
    ensures IsRemainder(Dividend(data), GENERATOR, 32, RegisterPoly(Register(ALL_ONES, data)))
  {
    var r := Register(ALL_ONES, data);
    RegisterReadsBits(ALL_ONES, data);
    AllOnesPoly();
    ReadingDivides(ALL_ONES, BitsOf(data));
    assert DegreeBelow(RegisterPoly(r), 32);
    hide FeedBits, Register, RegisterPoly, Times, Shift, Add;
    assert Dividend(data) == Add(Times(Quotient(ALL_ONES, BitsOf(data)), GENERATOR), RegisterPoly(r));
  }

  lemma ChecksumDigit(data: Bytes, i: nat)
    requires i < 32
    ensures Digit(Checksum(data), i) <==> 31 - i !in RegisterPoly(Register(ALL_ONES, data))
  {
    var r := Register(ALL_ONES, data);
    NotIsXor(r);
    BitXor(r, ALL_ONES, i);
    AllOnesBit(i);
    DigitOfWord(Not(r), i);
    hide Xor, Not, Digit, Register, ToUInt32, Bit;
    assert 31 - i in RegisterPoly(r) <==> Coefficient(r, 31 - i);
  }

  lemma ChecksumReflects(data: Bytes)
    ensures ReflectedComplement(Checksum(data), RegisterPoly(Register(ALL_ONES, data)))
  {
    hide Register, Digit, Checksum;
    forall i: nat | i < 32
      ensures Digit(Checksum(data), i) <==> 31 - i !in RegisterPoly(Register(ALL_ONES, data))
    {
      ChecksumDigit(data, i);
    }
  }

  /**
   The checksum is the bit-reflected complement of the remainder of the dividend modulo the
   generator, and the division has no other remainder.
   */
  lemma ChecksumIsRemainder(data: Bytes, r: Poly)
    ensures IsRemainder(Dividend(data), GENERATOR, 32, r) <==> ReflectedComplement(Checksum(data), r)
  {
    hide Register, RegisterPoly, Digit, Checksum, Dividend, ReflectedComplement, IsRemainder;
    var s := RegisterPoly(Register(ALL_ONES, data));
    RegisterIsRemainder(data);
    ChecksumReflects(data);
    if IsRemainder(Dividend(data), GENERATOR, 32, r) {
      RemainderUnique(Dividend(data), GENERATOR, 32, r, s);
    }
    if ReflectedComplement(Checksum(data), r) {
      ReflectionUnique(Checksum(data), r, s);
    }
  }

  lemma ReflectionUnique(v: uint32, r: Poly, s: Poly)
    requires ReflectedComplement(v, r) && ReflectedComplement(v, s)
    ensures r == s
  {
    hide Digit;
    forall k: nat ensures k in r <==> k in s {
      if k < 32 {
        var i := 31 - k;
        assert Digit(v, i) <==> 31 - i !in r;
        assert Digit(v, i) <==> 31 - i !in s;
      }
    }
  }
}
