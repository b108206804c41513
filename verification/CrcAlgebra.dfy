/**
 The checksum as linear algebra over single bits.

 `FeedBits` reads a message one bit at a time. It is linear in register and message together,
 and `RegisterReadsBits` ties it to the byte-wise loops. From it follow the algebra of checksums
 (`ChecksumOfThree`, `ChecksumOfConcatenation`, `Residue`) and `SameChecksumIff`, which reduces
 the detection of an error to the error alone.
 */
module CrcAlgebra {
  import opened Machine
  import opened Words
  import opened Crc32

  // ---- One step ------------------------------------------------------------------------

  lemma StepXor(a: Word, b: Word)
    ensures Step(Xor(a, b)) == Xor(Step(a), Step(b))
  {
    HalfXor(a, b);
    OddXor(a, b);
    hide Xor, Half, Odd;
    var g: Word := 0xEDB8_8320;
    var ga := if Odd(a) then g else 0;
    var gb := if Odd(b) then g else 0;
    assert Xor(ga, gb) == if Odd(a) != Odd(b) then g else 0 by {
      XorSelf(g);
      XorZero(g);
      XorZero(0);
    }
    XorInterchange(Half(a), Half(b), ga, gb);
  }

  lemma StepOfZero()
    ensures Step(0) == 0
  {}

  /** Bit 31 of the generator constant is set, so no two registers step to the same one. */
  lemma StepInjective(a: Word, b: Word)
    requires Step(a) == Step(b)
    ensures a == b
  {}

  lemma {:induction false} StepsXor(a: Word, b: Word, n: nat)
    ensures Steps(Xor(a, b), n) == Xor(Steps(a, n), Steps(b, n))
    decreases n
  {
    hide Xor, Step;
    if n != 0 {
      StepsXor(a, b, n - 1);
      StepXor(Steps(a, n - 1), Steps(b, n - 1));
    }
  }

  lemma {:induction false} StepsOfZero(n: nat)
    ensures Steps(0, n) == 0
  {
    hide Step;
    if n != 0 {
      StepsOfZero(n - 1);
      StepOfZero();
    }
  }

  lemma {:induction false} StepsInjective(a: Word, b: Word, n: nat)
    requires Steps(a, n) == Steps(b, n)
    ensures a == b
    decreases n
  {
    hide Step;
    if n != 0 {
      StepInjective(Steps(a, n - 1), Steps(b, n - 1));
      StepsInjective(a, b, n - 1);
    }
  }

  lemma {:induction false} StepsAdd(r: Word, m: nat, n: nat)
    ensures Steps(Steps(r, m), n) == Steps(r, m + n)
    decreases n
  {
    hide Step;
    if n != 0 {
      StepsAdd(r, m, n - 1);
    }
  }

  // ---- Feeding bits --------------------------------------------------------------------

  function FeedBits(r: Word, bits: Bits): Word
    decreases |bits|
  {
    if bits == [] then r
    else Step(Xor(FeedBits(r, bits[..|bits| - 1]), Low(bits[|bits| - 1])))
  }

  function Zeros(n: nat): Bits {
    seq(n, _ => false)
  }

  lemma LowXor(a: bool, b: bool)
    ensures Low(a != b) == Xor(Low(a), Low(b))
  {}

  lemma {:induction false} FeedXor(r: Word, s: Word, u: Bits, v: Bits)
    requires |u| == |v|
    ensures FeedBits(Xor(r, s), XorBits(u, v)) == Xor(FeedBits(r, u), FeedBits(s, v))
    decreases |u|
  {
    hide Xor, Step, Low;
    var n := |u|;
    if n != 0 {
      var u', v' := u[..n - 1], v[..n - 1];
      FeedXor(r, s, u', v');
      assert XorBits(u, v)[..n - 1] == XorBits(u', v');
      var a, b := FeedBits(r, u'), FeedBits(s, v');
      LowXor(u[n - 1], v[n - 1]);
      XorInterchange(a, b, Low(u[n - 1]), Low(v[n - 1]));
      StepXor(Xor(a, Low(u[n - 1])), Xor(b, Low(v[n - 1])));
    }
  }

  lemma {:induction false} FeedConcat(r: Word, u: Bits, v: Bits)
    ensures FeedBits(r, u + v) == FeedBits(FeedBits(r, u), v)
    decreases |v|
  {
    hide Xor, Step, Low;
    if v == [] {
      assert u + v == u;
    } else {
      var v' := v[..|v| - 1];
      FeedConcat(r, u, v');
      assert (u + v)[..|u + v| - 1] == u + v';
    }
  }

  lemma {:induction false} FeedZeros(r: Word, n: nat)
    ensures FeedBits(r, Zeros(n)) == Steps(r, n)
    decreases n
  {
    hide Xor, Step;
    if n != 0 {
      FeedZeros(r, n - 1);
      assert Zeros(n)[..n - 1] == Zeros(n - 1);
      XorZero(Steps(r, n - 1));
    }
  }

  /** The `n` low bits of `w`, lowest first. */
  function LowBits(w: Word, n: nat): Bits {
    seq(n, i requires 0 <= i < n => Bit(w, i))
  }

  lemma EvenPart(w: Word)
    ensures Xor(Low(Odd(w)), Xor(w, Low(Odd(w)))) == w
    ensures Step(Xor(w, Low(Odd(w)))) == Half(w)
  {
    var l := Low(Odd(w));
    XorCommutative(l, Xor(w, l));
    XorAssociative(w, l, l);
    XorSelf(l);
    XorZero(w);
    HalfXor(w, l);
    OddXor(w, l);
    XorZero(Half(w));
    assert Half(l) == 0 && Odd(l) == Odd(w);
    hide Xor, Half, Odd, Low;
  }

  lemma AbsorbOne(r: Word, w: Word)
    ensures Step(Xor(r, w)) == Xor(Step(Xor(r, Low(Odd(w)))), Half(w))
  {
    hide Xor, Half, Odd, Low, Step;
    var l := Low(Odd(w));
    EvenPart(w);
    XorAssociative(r, l, Xor(w, l));
    StepXor(Xor(r, l), Xor(w, l));
  }

  lemma FeedLowBit(r: Word, w: Word, n: nat)
    requires 0 < n
    ensures FeedBits(r, LowBits(w, n)) == FeedBits(Step(Xor(r, Low(Odd(w)))), LowBits(Half(w), n - 1))
  {
    hide Xor, Half, Odd, Low, Step;
    var first, rest := [Bit(w, 0)], LowBits(Half(w), n - 1);
    assert first + rest == LowBits(w, n);
    FeedConcat(r, first, rest);
    assert first[..0] == [];
    assert FeedBits(r, first) == Step(Xor(FeedBits(r, []), Low(Bit(w, 0))));
  }

  lemma StepsFirst(r: Word, n: nat)
    requires 0 < n
    ensures Steps(r, n) == Steps(Step(r), n - 1)
  {
    hide Step;
    StepsAdd(r, 1, n - 1);
    assert Steps(r, 1) == Step(Steps(r, 0));
  }

  /** XOR-ing a word of `n` bits and stepping `n` times is feeding its bits one at a time. */
  lemma {:induction false} Absorb(r: Word, w: Word, n: nat)
    requires forall i: nat | n <= i :: !Bit(w, i)
    ensures Steps(Xor(r, w), n) == FeedBits(r, LowBits(w, n))
    decreases n
  {
    hide Xor, Half, Odd, Low, Step;
    if n == 0 {
      forall i: nat | i < 32 ensures Bit(w, i) == Bit(0, i) {
        BitOfZero(i);
      }
      BitsDetermine(w, 0);
      XorZero(r);
    } else {
      forall i: nat | n - 1 <= i ensures !Bit(Half(w), i) {
        assert Bit(w, i + 1) == Bit(Half(w), i);
      }
      StepsFirst(Xor(r, w), n);
      AbsorbOne(r, w);
      Absorb(Step(Xor(r, Low(Odd(w)))), Half(w), n - 1);
      FeedLowBit(r, w, n);
    }
  }

  // ---- Messages as bits ----------------------------------------------------------------

  /** The bits of a message in the order the loops read them. */
  function BitsOf(data: Bytes): (bits: Bits)
    ensures |bits| == 8 * |data|
  {
    seq(8 * |data|, i requires 0 <= i < 8 * |data| => Digit(data[i / 8], i % 8))
  }

  lemma AddByteReadsBits(r: Word, b: uint8)
    ensures AddByte(r, b) == FeedBits(r, BitsOf([b]))
  {
    hide Xor, Half, Odd, Step, Promote;
    TwoTo32();
    forall i: nat
      ensures Bit(Promote(b), i) == Digit(b, i)
      ensures 8 <= i ==> !Bit(Promote(b), i)
    {
      BitOfByte(b, i);
      if 8 <= i {
        DigitsEnd(b, 8, i);
      }
    }
    Absorb(r, Promote(b), 8);
    assert LowBits(Promote(b), 8) == BitsOf([b]);
  }

  lemma BitsOfConcat(a: Bytes, b: Bytes)
    ensures BitsOf(a + b) == BitsOf(a) + BitsOf(b)
  {
    forall i | 0 <= i < 8 * |a + b| ensures BitsOf(a + b)[i] == (BitsOf(a) + BitsOf(b))[i] {
      if 8 * |a| <= i {
        assert (i - 8 * |a|) / 8 == i / 8 - |a| && (i - 8 * |a|) % 8 == i % 8;
      }
    }
  }

  /** The nested loops read the message bit by bit. */
  lemma {:induction false} RegisterReadsBits(r: Word, data: Bytes)
    ensures Register(r, data) == FeedBits(r, BitsOf(data))
    decreases |data|
  {
    hide AddByte;
    if data != [] {
      var front, last := data[..|data| - 1], data[|data| - 1];
      RegisterReadsBits(r, front);
      AddByteReadsBits(Register(r, front), last);
      BitsOfConcat(front, [last]);
      assert front + [last] == data;
      FeedConcat(r, BitsOf(front), BitsOf([last]));
    }
  }

  // ---- Algebra of checksums ------------------------------------------------------------

  lemma NotXor(a: Word, b: Word)
    ensures Xor(Not(a), Not(b)) == Xor(a, b)
  {
    NotIsXor(a);
    NotIsXor(b);
    XorCancel(a, b, ALL_ONES);
    hide Xor, Not;
  }

  /** The XOR of two checksums is the register that the XOR of the two messages leaves. */
  lemma ChecksumDifference(a: Bytes, b: Bytes)
    requires |a| == |b|
    ensures Xor(ChecksumWord(a), ChecksumWord(b)) == FeedBits(0, XorBits(BitsOf(a), BitsOf(b)))
  {
    RegisterReadsBits(ALL_ONES, a);
    RegisterReadsBits(ALL_ONES, b);
    FeedXor(ALL_ONES, ALL_ONES, BitsOf(a), BitsOf(b));
    XorSelf(ALL_ONES);
    NotXor(Register(ALL_ONES, a), Register(ALL_ONES, b));
    hide Xor, Not;
  }

  /** Two messages of one length share a checksum exactly when their XOR leaves no register. */
  lemma SameChecksumIff(a: Bytes, b: Bytes)
    requires |a| == |b|
    ensures Checksum(a) == Checksum(b) <==> FeedBits(0, XorBits(BitsOf(a), BitsOf(b))) == 0
  {
    ToUInt32Injective(ChecksumWord(a), ChecksumWord(b));
    XorZeroIffEqual(ChecksumWord(a), ChecksumWord(b));
    ChecksumDifference(a, b);
    hide ChecksumWord, ToUInt32, Xor;
  }

  /** The exclusive or of two numbers, on their `n` low digits. */
  function XorNumbers(u: nat, v: nat, n: nat): (d: nat)
    ensures d < TwoTo(n)
    decreases n
  {
    if n == 0 then 0 else (if u % 2 != v % 2 then 1 else 0) + 2 * XorNumbers(u / 2, v / 2, n - 1)
  }

  lemma {:induction false} DigitOfXor(u: nat, v: nat, n: nat, i: nat)
    requires i < n
    ensures Digit(XorNumbers(u, v, n), i) == (Digit(u, i) != Digit(v, i))
    decreases n
  {
    if i != 0 {
      DigitOfXor(u / 2, v / 2, n - 1, i - 1);
      assert XorNumbers(u, v, n) / 2 == XorNumbers(u / 2, v / 2, n - 1);
    }
  }

  function XorBytes(a: Bytes, b: Bytes): (d: Bytes)
    requires |a| == |b|
    ensures |d| == |a|
  {
    TwoTo32();
    seq(|a|, i requires 0 <= i < |a| => XorNumbers(a[i], b[i], 8))
  }

  lemma BitsOfXor(a: Bytes, b: Bytes)
    requires |a| == |b|
    ensures BitsOf(XorBytes(a, b)) == XorBits(BitsOf(a), BitsOf(b))
  {
    hide Digit, XorNumbers;
    forall i: nat | i < 8 * |a| ensures BitsOf(XorBytes(a, b))[i] == XorBits(BitsOf(a), BitsOf(b))[i] {
      DigitOfXor(a[i / 8], b[i / 8], 8, i % 8);
    }
  }

  /** crc(a) ^ crc(b) ^ crc(c) == crc(a ^ b ^ c) for messages of one length. */
  lemma ChecksumOfThree(a: Bytes, b: Bytes, c: Bytes)
    requires |a| == |b| == |c|
    ensures ChecksumWord(XorBytes(XorBytes(a, b), c)) == Xor(Xor(ChecksumWord(a), ChecksumWord(b)), ChecksumWord(c))
  {
    var d := XorBytes(XorBytes(a, b), c);
    BitsOfXor(XorBytes(a, b), c);
    BitsOfXor(a, b);
    hide BitsOf, XorBytes;
    ChecksumDifference(a, b);
    ChecksumDifference(d, c);
    assert XorBits(BitsOf(d), BitsOf(c)) == XorBits(BitsOf(a), BitsOf(b));
    hide Xor, ChecksumWord;
    var e, f := ChecksumWord(d), ChecksumWord(c);
    assert Xor(e, f) == Xor(ChecksumWord(a), ChecksumWord(b));
    XorAssociative(e, f, f);
    XorSelf(f);
    XorZero(e);
  }

  /** crc(a ++ b) is crc(a) stepped over the bits of b, XOR crc(b). */
  lemma ChecksumOfConcatenation(a: Bytes, b: Bytes)
    ensures ChecksumWord(a + b) == Xor(Steps(ChecksumWord(a), 8 * |b|), ChecksumWord(b))
  {
    var n := 8 * |b|;
    var bits := BitsOf(b);
    var ra := Register(ALL_ONES, a);
    RegisterReadsBits(ALL_ONES, a + b);
    RegisterReadsBits(ALL_ONES, a);
    RegisterReadsBits(ALL_ONES, b);
    BitsOfConcat(a, b);
    FeedConcat(ALL_ONES, BitsOf(a), bits);
    NotIsXor(ra);
    NotIsXor(FeedBits(ra, bits));
    NotIsXor(FeedBits(ALL_ONES, bits));
    hide Xor, Not, Register, FeedBits, Steps, BitsOf, Zeros;
    FeedFromZero(ra, bits);
    FeedFromZero(ALL_ONES, bits);
    StepsXor(ra, ALL_ONES, n);
    var s, t, z := Steps(ra, n), Steps(ALL_ONES, n), FeedBits(0, bits);
    assert ChecksumWord(a + b) == Xor(Xor(s, z), ALL_ONES);
    assert ChecksumWord(b) == Xor(Xor(t, z), ALL_ONES);
    assert Steps(ChecksumWord(a), n) == Xor(s, t);
    var w := Xor(z, ALL_ONES);
    XorAssociative(s, z, ALL_ONES);
    XorAssociative(t, z, ALL_ONES);
    XorAssociative(s, t, Xor(t, w));
    XorAssociative(t, t, w);
    XorSelf(t);
    XorZero(w);
  }

  lemma FeedFromZero(r: Word, bits: Bits)
    ensures FeedBits(r, bits) == Xor(Steps(r, |bits|), FeedBits(0, bits))
  {
    FeedXor(r, 0, Zeros(|bits|), bits);
    FeedZeros(r, |bits|);
    XorZero(r);
    assert XorBits(Zeros(|bits|), bits) == bits;
    hide Xor;
  }

  // ---- The residue ---------------------------------------------------------------------

  lemma {:induction false} DigitModulo(v: nat, n: nat, i: nat)
    requires i < n
    ensures Digit(v % TwoTo(n), i) == Digit(v, i)
    decreases n
  {
    var p := TwoTo(n - 1);
    assert (v % (2 * p)) / 2 == (v / 2) % p && (v % (2 * p)) % 2 == v % 2 by {
      var q, r := v / (2 * p), v % (2 * p);
      assert v == 2 * (p * q) + r;
      assert v / 2 == p * q + r / 2;
      ModuloUnique(v / 2, p, q, r / 2);
    }
    if i != 0 {
      DigitModulo(v / 2, n - 1, i - 1);
    }
  }

  lemma DigitByteUp(v: nat, i: nat)
    requires 8 <= i
    ensures Digit(v, i) == Digit(v / 0x100, i - 8)
  {
    assert Digit(v, i) == Digit(v / 2 / 2, i - 2) == Digit(v / 2 / 2 / 2 / 2, i - 4);
    var w := v / 2 / 2 / 2 / 2;
    assert Digit(w, i - 4) == Digit(w / 2 / 2, i - 6) == Digit(w / 2 / 2 / 2 / 2, i - 8);
    assert w == v / 0x10;
  }

  lemma {:induction false} BitsOfToBytes(v: nat, width: nat, i: nat)
    requires i < 8 * width
    ensures BitsOf(ToBytes(v, width))[i] == Digit(v, i)
    decreases width
  {
    if i < 8 {
      TwoTo32();
      DigitModulo(v, 8, i);
    } else {
      DigitByteUp(v, i);
      BitsOfToBytes(v / 0x100, width - 1, i - 8);
      assert (i - 8) / 8 == i / 8 - 1 && (i - 8) % 8 == i % 8;
    }
  }

  lemma StepsOfAllOnes()
    ensures Steps(0xFFFF_FFFF, 32) == 0xDEBB_20E3
  {
    assert Steps(0xFFFF_FFFF, 4) == 0xB242_0DE3;
    assert Steps(0xB242_0DE3, 4) == 0x2DFD_1072;
    assert Steps(0x2DFD_1072, 4) == 0x39B1_F1CF;
    assert Steps(0x39B1_F1CF, 4) == 0xBE26_ED00;
    assert Steps(0xBE26_ED00, 4) == 0x0BE2_6ED0;
    assert Steps(0x0BE2_6ED0, 4) == 0x00BE_26ED;
    assert Steps(0x00BE_26ED, 4) == 0x86D8_30BA;
    assert Steps(0x86D8_30BA, 4) == 0xDEBB_20E3;
    StepsAdd(0xFFFF_FFFF, 4, 4);
    StepsAdd(0xFFFF_FFFF, 8, 4);
    StepsAdd(0xFFFF_FFFF, 12, 4);
    StepsAdd(0xFFFF_FFFF, 16, 4);
    StepsAdd(0xFFFF_FFFF, 20, 4);
    StepsAdd(0xFFFF_FFFF, 24, 4);
    StepsAdd(0xFFFF_FFFF, 28, 4);
  }

  lemma LowBitsOfChecksum(data: Bytes)
    ensures BitsOf(ToBytes(Checksum(data), 4)) == LowBits(ChecksumWord(data), 32)
  {
    hide ChecksumWord;
    var c := ChecksumWord(data);
    forall i: nat | i < 32 ensures BitsOf(ToBytes(Checksum(data), 4))[i] == Bit(c, i) {
      BitsOfToBytes(Checksum(data), 4, i);
      DigitOfWord(c, i);
    }
  }

  lemma XorWithNot(r: Word)
    ensures Xor(r, Not(r)) == 0xFFFF_FFFF
  {}

  lemma NotOfResidue()
    ensures Not(0xDEBB_20E3) == 0x2144_DF1C
  {}

  lemma AbsorbComplement(r: Word)
    ensures FeedBits(r, LowBits(Not(r), 32)) == 0xDEBB_20E3
  {
    XorWithNot(r);
    StepsOfAllOnes();
    hide Xor, Not;
    forall i: nat | 32 <= i ensures !Bit(Not(r), i) {
      BitsEndAt32(Not(r), i);
    }
    Absorb(r, Not(r), 32);
  }

  /** A message followed by its own checksum, written as `WriteUInt32` does, leaves a constant. */
  lemma Residue(data: Bytes)
    ensures ChecksumWord(data + ToBytes(Checksum(data), 4)) == 0x2144_DF1C
  {
    var r := Register(ALL_ONES, data);
    var tail := ToBytes(Checksum(data), 4);
    LowBitsOfChecksum(data);
    AbsorbComplement(r);
    RegisterReadsBits(ALL_ONES, data);
    RegisterReadsBits(ALL_ONES, data + tail);
    hide BitsOf, FeedBits, Register, LowBits, Not;
    BitsOfConcat(data, tail);
    FeedConcat(ALL_ONES, BitsOf(data), BitsOf(tail));
    assert Register(ALL_ONES, data + tail) == 0xDEBB_20E3;
    NotOfResidue();
  }

  // ---- A known value -------------------------------------------------------------------

  lemma ReadByte(r: Word, b: uint8, x: Word, half: Word, next: Word)
    requires Xor(r, Promote(b)) == x && Steps(x, 4) == half && Steps(half, 4) == next
    ensures AddByte(r, b) == next
  {
    StepsAdd(x, 4, 4);
    hide Xor, Promote;
  }

  lemma FirstDigits()
    ensures AddByte(0xFFFF_FFFF, 0x31) == 0x7C23_1048
    ensures AddByte(0x7C23_1048, 0x32) == 0xB0AC_BB32
    ensures AddByte(0xB0AC_BB32, 0x33) == 0x77B7_9C2D
  {
    ReadByte(0xFFFF_FFFF, 0x31, 0xFFFF_FFCE, 0xAFF5_1D84, 0x7C23_1048);
    ReadByte(0x7C23_1048, 0x32, 0x7C23_107A, 0xD114_92EF, 0xB0AC_BB32);
    ReadByte(0xB0AC_BB32, 0x33, 0xB0AC_BB01, 0x16BD_DBD4, 0x77B7_9C2D);
  }

  lemma MiddleDigits()
    ensures AddByte(0x77B7_9C2D, 0x34) == 0x641C_1F5C
    ensures AddByte(0x641C_1F5C, 0x35) == 0x340A_C5E3
    ensures AddByte(0x340A_C5E3, 0x36) == 0xF68D_2C9E
  {
    ReadByte(0x77B7_9C2D, 0x34, 0x77B7_9C19, 0xF774_EA85, 0x641C_1F5C);
    ReadByte(0x641C_1F5C, 0x35, 0x641C_1F69, 0xF64E_52B2, 0x340A_C5E3);
    ReadByte(0x340A_C5E3, 0x36, 0x340A_C5D5, 0x682B_FDA9, 0xF68D_2C9E);
  }

  lemma LastDigits()
    ensures AddByte(0xF68D_2C9E, 0x37) == 0xAFFC_9660
    ensures AddByte(0xAFFC_9660, 0x38) == 0x651F_2550
    ensures AddByte(0x651F_2550, 0x39) == 0x340B_C6D9
  {
    ReadByte(0xF68D_2C9E, 0x37, 0xF68D_2CA9, 0xFF67_418E, 0xAFFC_9660);
    ReadByte(0xAFFC_9660, 0x38, 0xAFFC_9658, 0xE747_4A45, 0x651F_2550);
    ReadByte(0x651F_2550, 0x39, 0x651F_2569, 0xF65E_6112, 0x340B_C6D9);
  }

  lemma RegisterSnoc(r: Word, data: Bytes, b: uint8)
    ensures Register(r, data + [b]) == AddByte(Register(r, data), b)
  {
    assert (data + [b])[..|data|] == data;
    hide AddByte;
  }

  /** The published check value: the nine bytes "123456789" have checksum 0xCBF43926. */
  lemma CheckValue()
    ensures ChecksumWord([0x31, 0x32, 0x33, 0x34, 0x35, 0x36, 0x37, 0x38, 0x39]) == 0xCBF4_3926
  {
    FirstDigits();
    MiddleDigits();
    LastDigits();
    hide AddByte, Register;
    RegisterOfNothing();
    RegisterSnoc(ALL_ONES, [], 0x31);
    assert [] + [0x31] == [0x31];
    RegisterSnoc(ALL_ONES, [0x31], 0x32);
    assert [0x31] + [0x32] == [0x31, 0x32];
    RegisterSnoc(ALL_ONES, [0x31, 0x32], 0x33);
    assert [0x31, 0x32] + [0x33] == [0x31, 0x32, 0x33];
    RegisterSnoc(ALL_ONES, [0x31, 0x32, 0x33], 0x34);
    assert [0x31, 0x32, 0x33] + [0x34] == [0x31, 0x32, 0x33, 0x34];
    RegisterSnoc(ALL_ONES, [0x31, 0x32, 0x33, 0x34], 0x35);
    assert [0x31, 0x32, 0x33, 0x34] + [0x35] == [0x31, 0x32, 0x33, 0x34, 0x35];
    RegisterSnoc(ALL_ONES, [0x31, 0x32, 0x33, 0x34, 0x35], 0x36);
    assert [0x31, 0x32, 0x33, 0x34, 0x35] + [0x36] == [0x31, 0x32, 0x33, 0x34, 0x35, 0x36];
    RegisterSnoc(ALL_ONES, [0x31, 0x32, 0x33, 0x34, 0x35, 0x36], 0x37);
    assert [0x31, 0x32, 0x33, 0x34, 0x35, 0x36] + [0x37] == [0x31, 0x32, 0x33, 0x34, 0x35, 0x36, 0x37];
    RegisterSnoc(ALL_ONES, [0x31, 0x32, 0x33, 0x34, 0x35, 0x36, 0x37], 0x38);
    assert [0x31, 0x32, 0x33, 0x34, 0x35, 0x36, 0x37] + [0x38] == [0x31, 0x32, 0x33, 0x34, 0x35, 0x36, 0x37, 0x38];
    RegisterSnoc(ALL_ONES, [0x31, 0x32, 0x33, 0x34, 0x35, 0x36, 0x37, 0x38], 0x39);
    assert [0x31, 0x32, 0x33, 0x34, 0x35, 0x36, 0x37, 0x38] + [0x39] ==
           [0x31, 0x32, 0x33, 0x34, 0x35, 0x36, 0x37, 0x38, 0x39];
  }

  lemma RegisterOfNothing()
    ensures Register(ALL_ONES, []) == ALL_ONES
  {}
}
