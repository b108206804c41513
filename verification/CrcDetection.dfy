/**
 Which errors the checksum detects.

 For messages of one length, an error is the XOR of the bits sent and received. `BurstDetected`:
 any nonzero error inside 32 consecutive bits changes the checksum. `TwoBitsUndetectedIff`: flipping
 two bits leaves it alone exactly when their distance is a multiple of 2^32 - 1, so never in a message
 the server accepts (`TwoBitsDetected`).
 */
module CrcDetection {
  import opened Machine
  import opened Words
  import opened Crc32
  import opened CrcAlgebra
  import opened Primes
  import opened PrimitiveOrder

  // ---- Bursts --------------------------------------------------------------------------

  lemma TopBitOfGenerator()
    ensures Bit(0xEDB8_8320, 31)
  {
    HighBits(0xEDB8_8320, 31);
    HighBits(0x0EDB_8832, 27);
    HighBits(0x00ED_B883, 23);
    HighBits(0x000E_DB88, 19);
    HighBits(0x0000_EDB8, 15);
    HighBits(0x0000_0EDB, 11);
    HighBits(0x0000_00ED, 7);
    LowNibbleBits(0x0000_000E);
  }

  /** A register whose top bit is clear came from an even one. */
  lemma TopBitAfterStep(t: Word)
    ensures Bit(Step(t), 31) == Odd(t)
  {
    var g: Word := 0xEDB8_8320;
    BitXor(Half(t), if Odd(t) then g else 0, 31);
    BitsEndAt32(t, 32);
    TopBitOfGenerator();
    BitOfZero(31);
    assert Bit(t, 32) == Bit(Half(t), 31);
    hide Xor, Half, Odd;
  }

  lemma EvenStep(t: Word)
    requires !Odd(t)
    ensures Step(t) == Half(t)
  {
    XorZero(Half(t));
    hide Xor, Half, Odd;
  }

  /** Undo one fed bit: when the top bit is clear afterwards, the register just shifted. */
  lemma UndoBit(p: Word, b: bool, i: nat)
    requires !Bit(Step(Xor(p, Low(b))), 31)
    ensures Bit(p, i) == if i == 0 then b else Bit(Step(Xor(p, Low(b))), i - 1)
  {
    hide Xor, Half, Odd, Low, Step;
    var t := Xor(p, Low(b));
    TopBitAfterStep(t);
    EvenStep(t);
    BitXor(p, Low(b), i);
    BitOfLow(b, i);
    if i == 0 {
      assert Bit(t, 0) == Odd(t);
    } else {
      assert Bit(t, i) == Bit(Half(t), i - 1);
    }
  }

  /** If at most 32 bits leave no register, the register before the last j of them holds those j bits. */
  lemma {:induction false} RunBackwards(w: Bits, j: nat, i: nat)
    requires FeedBits(0, w) == 0 && j <= |w| && j <= 32
    ensures Bit(FeedBits(0, w[..|w| - j]), i) == (i < j && w[|w| - j + i])
    decreases j
  {
    hide Xor, Low, Step, Bit;
    var n := |w| - j;
    if j == 0 {
      assert w[..n] == w;
      BitOfZero(i);
    } else {
      var v := w[..n + 1];
      assert v[..n] == w[..n];
      RunBackwards(w, j - 1, 31);
      if i != 0 {
        RunBackwards(w, j - 1, i - 1);
      }
      UndoBit(FeedBits(0, v[..n]), v[n], i);
    }
  }

  lemma ShortErrorLeavesRegister(w: Bits, k: nat)
    requires |w| <= 32 && k < |w| && w[k]
    ensures FeedBits(0, w) != 0
  {
    if FeedBits(0, w) == 0 {
      RunBackwards(w, |w|, k);
      assert w[..0] == [];
      BitOfZero(k);
    }
  }

  /** Clear bits around an error do not hide it. */
  lemma PaddedError(before: nat, w: Bits, after: nat)
    ensures FeedBits(0, Zeros(before) + w + Zeros(after)) == 0 <==> FeedBits(0, w) == 0
  {
    FeedConcat(0, Zeros(before) + w, Zeros(after));
    FeedConcat(0, Zeros(before), w);
    FeedZeros(0, before);
    StepsOfZero(before);
    FeedZeros(FeedBits(0, w), after);
    StepsOfZero(after);
    hide FeedBits, Steps;
    if Steps(FeedBits(0, w), after) == 0 {
      StepsInjective(FeedBits(0, w), 0, after);
    }
  }

  lemma {:induction false} DigitsDetermine(u: nat, v: nat, n: nat)
    requires u < TwoTo(n) && v < TwoTo(n)
    requires forall i: nat | i < n :: Digit(u, i) == Digit(v, i)
    ensures u == v
    decreases n
  {
    if n != 0 {
      assert Digit(u, 0) == Digit(v, 0);
      forall i: nat | i < n - 1 ensures Digit(u / 2, i) == Digit(v / 2, i) {
        assert Digit(u, i + 1) == Digit(v, i + 1);
      }
      DigitsDetermine(u / 2, v / 2, n - 1);
    }
  }

  /** Distinct messages of one length differ in some bit. */
  lemma DifferentBit(a: Bytes, b: Bytes) returns (k: nat)
    requires |a| == |b| && a != b
    ensures k < 8 * |a| && BitsOf(a)[k] != BitsOf(b)[k]
  {
    var m :| 0 <= m < |a| && a[m] != b[m];
    TwoTo32();
    if forall i: nat | i < 8 :: Digit(a[m], i) == Digit(b[m], i) {
      DigitsDetermine(a[m], b[m], 8);
    }
    var i: nat :| i < 8 && Digit(a[m], i) != Digit(b[m], i);
    k := 8 * m + i;
    assert k / 8 == m && k % 8 == i;
  }

  /** Every difference between `a` and `b` lies in the 32 bits from bit `start` on. */
  ghost predicate BurstAt(a: Bytes, b: Bytes, start: nat)
  {
    |a| == |b| &&
    forall k: nat | k < 8 * |a| && BitsOf(a)[k] != BitsOf(b)[k] :: start <= k < start + 32
  }

  lemma BurstLeavesRegister(d: Bits, start: nat, k: nat)
    requires k < |d| && d[k]
    requires forall i: nat | i < |d| && d[i] :: start <= i < start + 32
    ensures FeedBits(0, d) != 0
  {
    hide FeedBits;
    assert start <= k < start + 32;
    var end := if start + 32 <= |d| then start + 32 else |d|;
    var w := d[start..end];
    assert w[k - start] == d[k];
    assert d == Zeros(start) + w + Zeros(|d| - end);
    ShortErrorLeavesRegister(w, k - start);
    PaddedError(start, w, |d| - end);
  }

  /** An error confined to 32 consecutive bits changes the checksum. */
  lemma BurstDetected(a: Bytes, b: Bytes, start: nat)
    requires BurstAt(a, b, start) && a != b
    ensures Checksum(a) != Checksum(b)
  {
    hide FeedBits, Checksum, BitsOf;
    var d := XorBits(BitsOf(a), BitsOf(b));
    var k := DifferentBit(a, b);
    forall i: nat | i < |d| && d[i] ensures start <= i < start + 32 {
      assert BitsOf(a)[i] != BitsOf(b)[i];
    }
    BurstLeavesRegister(d, start, k);
    SameChecksumIff(a, b);
  }

  // ---- Two flipped bits ----------------------------------------------------------------

  /** Exactly bits `i` and `j` differ. */
  ghost predicate TwoBitsDiffer(a: Bytes, b: Bytes, i: nat, j: nat)
  {
    |a| == |b| && i < j < 8 * |a| &&
    forall k: nat | k < 8 * |a| :: BitsOf(a)[k] != BitsOf(b)[k] <==> k == i || k == j
  }

  lemma FeedPair(n: nat)
    ensures FeedBits(0, [true] + Zeros(n) + [true]) == Step(Xor(Steps(1, n + 1), 1))
  {
    var w := [true] + Zeros(n) + [true];
    assert w[..n + 1] == [true] + Zeros(n);
    FeedConcat(0, [true], Zeros(n));
    assert [true][..0] == [];
    XorZero(1);
    assert FeedBits(0, [true]) == Step(Xor(FeedBits(0, []), Low(true)));
    FeedZeros(Step(1), n);
    StepsFirst(1, n + 1);
    hide Xor, Step;
  }

  /** Steps(1, n) == 1 exactly when n is a multiple of the period. */
  lemma PeriodOfLowBit(n: nat)
    ensures Steps(1, n) == 1 <==> n % PERIOD == 0
  {
    StepsToOne();
    StepsAdd(ONE, 31, n);
    StepsAdd(ONE, n, 31);
    OrderOfX(n);
    hide Step;
    if Steps(Steps(ONE, n), 31) == Steps(ONE, 31) {
      StepsInjective(Steps(ONE, n), ONE, 31);
    }
  }

  lemma PairLeavesRegister(n: nat)
    ensures FeedBits(0, [true] + Zeros(n) + [true]) == 0 <==> (n + 1) % PERIOD == 0
  {
    FeedPair(n);
    PeriodOfLowBit(n + 1);
    StepOfZero();
    XorZeroIffEqual(Steps(1, n + 1), 1);
    hide FeedBits, Steps, Xor, Step;
    if Step(Xor(Steps(1, n + 1), 1)) == 0 {
      StepInjective(Xor(Steps(1, n + 1), 1), 0);
    }
  }

  /** Two flipped bits go unnoticed exactly when their distance is a multiple of 2^32 - 1. */
  lemma TwoBitsUndetectedIff(a: Bytes, b: Bytes, i: nat, j: nat)
    requires TwoBitsDiffer(a, b, i, j)
    ensures Checksum(a) == Checksum(b) <==> (j - i) % PERIOD == 0
  {
    hide FeedBits, Checksum, ChecksumWord, BitsOf;
    var d := XorBits(BitsOf(a), BitsOf(b));
    var w := [true] + Zeros(j - i - 1) + [true];
    var after := |d| - j - 1;
    assert d == Zeros(i) + w + Zeros(after);
    PairLeavesRegister(j - i - 1);
    PaddedError(i, w, after);
    SameChecksumIff(a, b);
  }

  /** No message of fewer than 2^29 bytes, hence none the server reads, can hide two flipped bits. */
  lemma TwoBitsDetected(a: Bytes, b: Bytes, i: nat, j: nat)
    requires TwoBitsDiffer(a, b, i, j) && |a| < 0x2000_0000
    ensures Checksum(a) != Checksum(b)
  {
    hide TwoBitsDiffer, Checksum, BitsOf;
    DistinctPositions(a, b, i, j);
    TwoBitsUndetectedIff(a, b, i, j);
    SmallRemainder(j - i, PERIOD);
  }

  lemma DistinctPositions(a: Bytes, b: Bytes, i: nat, j: nat)
    requires TwoBitsDiffer(a, b, i, j)
    ensures |a| == |b| && i < j < 8 * |a|
  {}

  lemma SmallRemainder(d: nat, n: nat)
    requires 0 < d < n
    ensures d % n != 0
  {}
}
