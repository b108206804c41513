/**
 `CalculateCRC32` (src/core/protocol.cpp): two nested loops over a 32-bit register.

 The loops are proved against `Checksum`; `CrcAlgebra.RegisterReadsBits` restates the register as
 one bit fed at a time. The bit order of a message is the one the loops use: bytes in order, and
 within a byte the least significant bit first.
 */
module Crc32 {
  import opened Machine
  import opened Words

  const ALL_ONES: Word := 0xFFFF_FFFF

  /** One iteration of the inner loop. */
  function Step(r: Word): Word {
    Xor(Half(r), if Odd(r) then 0xEDB8_8320 else 0)
  }

  function Steps(r: Word, n: nat): Word
    decreases n
  {
    if n == 0 then r else Step(Steps(r, n - 1))
  }

  /** Integer promotion of a byte. */
  function Promote(b: uint8): Word { b as Word }

  function AddByte(r: Word, b: uint8): Word {
    Steps(Xor(r, Promote(b)), 8)
  }

  /** The register after the bytes of `data`, starting from `r`. */
  function Register(r: Word, data: Bytes): Word
    decreases |data|
  {
    if data == [] then r
    else AddByte(Register(r, data[..|data| - 1]), data[|data| - 1])
  }

  function ChecksumWord(data: Bytes): Word {
    Not(Register(ALL_ONES, data))
  }

  /** The checksum as the number a message header carries. */
  function Checksum(data: Bytes): uint32 {
    ToUInt32(ChecksumWord(data))
  }

  method CalculateCRC32(data: Bytes) returns (checksum: uint32)
    ensures checksum == Checksum(data)
  {
    RegisterUnfold(data, 0);
    hide *;
    var crc: Word := 0xFFFF_FFFF;
    for i := 0 to |data|
      invariant crc == RegisterAt(data, i)
    {
      ghost var start := Xor(crc, Promote(data[i]));
      crc := Xor(crc, Promote(data[i]));
      StepsUnfold(start, 0);
      for j := 0 to 8
        invariant crc == Steps(start, j)
      {
        InnerIteration(crc, start, j);
        crc := Xor(Half(crc), And(0xEDB8_8320, Negate(And(crc, 1))));
      }
      RegisterUnfold(data, i + 1);
    }
    ChecksumAt(data);
    return ToUInt32(Not(crc));
  }

  /** The register when the outer loop is about to read byte `i`. */
  function RegisterAt(data: Bytes, i: nat): Word
    requires i <= |data|
  {
    Register(ALL_ONES, data[..i])
  }

  lemma RegisterUnfold(data: Bytes, i: nat)
    requires i <= |data|
    ensures i == 0 ==> RegisterAt(data, i) == 0xFFFF_FFFF
    ensures i != 0 ==> RegisterAt(data, i) == Steps(Xor(RegisterAt(data, i - 1), Promote(data[i - 1])), 8)
  {
    hide Xor, Promote, Steps;
    if i != 0 {
      assert data[..i][..i - 1] == data[..i - 1];
    }
  }

  lemma StepsUnfold(r: Word, n: nat)
    ensures n == 0 ==> Steps(r, n) == r
    ensures n != 0 ==> Steps(r, n) == Step(Steps(r, n - 1))
  {
    hide Step;
  }

  lemma ChecksumAt(data: Bytes)
    ensures ToUInt32(Not(RegisterAt(data, |data|))) == Checksum(data)
  {
    hide Register, ToUInt32;
    assert data[..|data|] == data;
  }

  lemma SourceStep(c: Word)
    ensures Xor(Half(c), And(0xEDB8_8320, Negate(And(c, 1)))) == Step(c)
  {}

  lemma InnerIteration(crc: Word, start: Word, j: nat)
    requires crc == Steps(start, j)
    ensures Xor(Half(crc), And(0xEDB8_8320, Negate(And(crc, 1)))) == Steps(start, j + 1)
  {
    SourceStep(crc);
    hide Step;
  }

  // ---- Words as numbers ----------------------------------------------------------------

  function TwoTo(n: nat): (p: nat)
    ensures 1 <= p
  {
    if n == 0 then 1 else 2 * TwoTo(n - 1)
  }

  lemma TwoTo32()
    ensures TwoTo(8) == 0x100 && TwoTo(32) == TWO_32
  {
    assert TwoTo(4) == 16;
    assert TwoTo(12) == 0x10 * TwoTo(8);
    assert TwoTo(16) == 0x10 * TwoTo(12);
    assert TwoTo(20) == 0x10 * TwoTo(16);
    assert TwoTo(24) == 0x10 * TwoTo(20);
    assert TwoTo(28) == 0x10 * TwoTo(24);
  }

  /** The number whose binary digits are the `n` low bits of `r`. */
  function LowValue(r: Word, n: nat): (v: nat)
    ensures v < TwoTo(n)
    decreases n
  {
    if n == 0 then 0 else (if Odd(r) then 1 else 0) + 2 * LowValue(Half(r), n - 1)
  }

  function ToUInt32(r: Word): uint32 {
    TwoTo32();
    LowValue(r, 32)
  }

  /** Binary digit `i` of `v`. */
  predicate Digit(v: nat, i: nat)
    decreases i
  {
    if i == 0 then v % 2 == 1 else Digit(v / 2, i - 1)
  }

  lemma {:induction false} DigitOfLowValue(r: Word, n: nat, i: nat)
    requires i < n
    ensures Digit(LowValue(r, n), i) == Bit(r, i)
    decreases n
  {
    hide Half, Odd;
    if i != 0 {
      DigitOfLowValue(Half(r), n - 1, i - 1);
      assert LowValue(r, n) / 2 == LowValue(Half(r), n - 1);
    }
  }

  lemma DigitOfWord(r: Word, i: nat)
    requires i < 32
    ensures Digit(ToUInt32(r), i) == Bit(r, i)
  {
    DigitOfLowValue(r, 32, i);
  }

  /** Distinct words are distinct numbers. */
  lemma ToUInt32Injective(a: Word, b: Word)
    ensures ToUInt32(a) == ToUInt32(b) <==> a == b
  {
    hide ToUInt32, Bit, Digit;
    if ToUInt32(a) == ToUInt32(b) {
      forall i: nat | i < 32 ensures Bit(a, i) == Bit(b, i) {
        DigitOfWord(a, i);
        DigitOfWord(b, i);
      }
      BitsDetermine(a, b);
    }
  }

  // ---- Bytes as words ------------------------------------------------------------------

  lemma LowerConversionHalf(b: int)
    requires 0 <= b < 0x80
    ensures (b as bv32) >> 1 == (b / 2) as bv32
  {}

  lemma UpperConversionHalf(b: int)
    requires 0x80 <= b < 0x100
    ensures (b as bv32) >> 1 == (b / 2) as bv32
  {}

  lemma ByteHalf(b: uint8)
    ensures Half(Promote(b)) == Promote(b / 2)
  {
    if b < 0x80 {
      LowerConversionHalf(b);
    } else {
      UpperConversionHalf(b);
    }
  }

  lemma ByteOdd(b: uint8)
    ensures Odd(Promote(b)) == (b % 2 == 1)
  {}

  lemma {:induction false} BitOfByte(b: uint8, i: nat)
    ensures Bit(Promote(b), i) == Digit(b, i)
    decreases i
  {
    ByteHalf(b);
    ByteOdd(b);
    hide Half, Odd, Promote;
    if i != 0 {
      BitOfByte(b / 2, i - 1);
    }
  }

  lemma {:induction false} DigitsEnd(v: nat, n: nat, i: nat)
    requires v < TwoTo(n) && n <= i
    ensures !Digit(v, i)
    decreases i
  {
    if i != 0 {
      DigitsEnd(v / 2, if n == 0 then 0 else n - 1, i - 1);
    }
  }

  lemma {:induction false} LowValueOfZero(n: nat)
    ensures LowValue(0, n) == 0
  {
    if n != 0 {
      assert Half(0) == 0;
      LowValueOfZero(n - 1);
    }
  }

  lemma ComplementOfAllOnes()
    ensures Not(ALL_ONES) == 0
  {}

  /** The checksum of nothing is 0. */
  lemma ChecksumOfEmpty()
    ensures Checksum([]) == 0
  {
    ComplementOfAllOnes();
    LowValueOfZero(32);
    hide Not, LowValue;
  }
}
