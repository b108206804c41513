/**
 The period of the checksum register: stepping multiplies by x modulo the generator, and x has
 order exactly 2^32 - 1.

 A register holds the coefficient of x^(31 - i) in bit i, so the register of the polynomial 1 is
 `ONE`, with bit 31 set, and `Power(n)` is the register of x^n. `Multiply` multiplies two registers modulo
 the generator by Horner's rule; with it, the powers of x that the proof needs are certified by
 repeated squaring of concrete words.
 */
module PrimitiveOrder {
  import opened Words
  import opened Crc32
  import opened CrcAlgebra
  import opened Primes

  const ONE: Word := 0x8000_0000

  function Power(n: nat): Word { Steps(ONE, n) }

  /** One round of Horner's rule, in plain operators so that concrete words evaluate quickly. */
  function Horner(acc: Word, a: Word, b: Word): Word {
    PlainStep(acc) ^ (if a & 1 == 1 then b else 0)
  }

  function PlainStep(acc: Word): (r: Word)
    ensures r == Step(acc)
  {
    (acc >> 1) ^ (if acc & 1 == 1 then 0xEDB8_8320 else 0)
  }

  lemma PlainXor(a: Word, b: Word)
    ensures Xor(a, b) == a ^ b
  {}

  lemma HornerIsStep(acc: Word, a: Word, b: Word)
    ensures Horner(acc, a, b) == Xor(Step(acc), if Odd(a) then b else 0)
  {
    hide Step, PlainStep, Xor;
    PlainXor(Step(acc), if Odd(a) then b else 0);
  }

  function HornerNibble(acc: Word, a: Word, b: Word): Word {
    Horner(Horner(Horner(Horner(acc, a, b), a >> 1, b), a >> 2, b), a >> 3, b)
  }

  function HornerHalf(acc: Word, a: Word, b: Word): Word {
    HornerNibble(HornerNibble(HornerNibble(HornerNibble(acc, a, b), a >> 4, b), a >> 8, b), a >> 12, b)
  }

  /** The product of two registers modulo the generator; bit 0 of `a` is its highest coefficient. */
  function Multiply(a: Word, b: Word): Word {
    HornerHalf(HornerHalf(0, a, b), a >> 16, b)
  }

  // ---- Multiplication ------------------------------------------------------------------

  /** Multiplying the right factor by x multiplies the product by x. */
  lemma HornerStep(acc: Word, a: Word, b: Word)
    ensures Horner(Step(acc), a, Step(b)) == Step(Horner(acc, a, b))
  {
    HornerIsStep(acc, a, b);
    HornerIsStep(Step(acc), a, Step(b));
    hide Horner, Xor, Step, Odd;
    var c := if Odd(a) then b else 0;
    StepXor(Step(acc), c);
    StepOfZero();
    assert Step(c) == if Odd(a) then Step(b) else 0;
  }

  lemma HornerNibbleStep(acc: Word, a: Word, b: Word)
    ensures HornerNibble(Step(acc), a, Step(b)) == Step(HornerNibble(acc, a, b))
  {
    var h1 := Horner(acc, a, b);
    var h2 := Horner(h1, a >> 1, b);
    var h3 := Horner(h2, a >> 2, b);
    HornerStep(acc, a, b);
    HornerStep(h1, a >> 1, b);
    HornerStep(h2, a >> 2, b);
    HornerStep(h3, a >> 3, b);
    hide Horner, Step;
  }

  lemma HornerHalfStep(acc: Word, a: Word, b: Word)
    ensures HornerHalf(Step(acc), a, Step(b)) == Step(HornerHalf(acc, a, b))
  {
    var h1 := HornerNibble(acc, a, b);
    var h2 := HornerNibble(h1, a >> 4, b);
    var h3 := HornerNibble(h2, a >> 8, b);
    HornerNibbleStep(acc, a, b);
    HornerNibbleStep(h1, a >> 4, b);
    HornerNibbleStep(h2, a >> 8, b);
    HornerNibbleStep(h3, a >> 12, b);
    hide HornerNibble, Step;
  }

  lemma MultiplyStep(a: Word, b: Word)
    ensures Multiply(a, Step(b)) == Step(Multiply(a, b))
  {
    StepOfZero();
    HornerHalfStep(0, a, b);
    HornerHalfStep(HornerHalf(0, a, b), a >> 16, b);
    hide HornerHalf, Step;
  }

  lemma {:induction false} MultiplySteps(a: Word, b: Word, n: nat)
    ensures Multiply(a, Steps(b, n)) == Steps(Multiply(a, b), n)
    decreases n
  {
    hide Multiply, Step;
    if n != 0 {
      MultiplySteps(a, b, n - 1);
      MultiplyStep(a, Steps(b, n - 1));
    }
  }

  // A word times Step(1) is the word read as a message, so a word times 1 is the word.

  lemma FeedOne(acc: Word, b: bool)
    ensures Step(Xor(acc, Low(b))) == Xor(Step(acc), if b then Step(1) else 0)
  {
    StepXor(acc, Low(b));
    StepOfZero();
    hide Xor, Step;
  }

  lemma ThreeHalves(a: Word)
    ensures Half(a) == a >> 1 && Half(Half(Half(a))) == a >> 3
  {}

  lemma ShiftedBits(a: Word)
    ensures Odd(a >> 1) == Bit(a, 1) && Odd(a >> 2) == Bit(a, 2) && Odd(a >> 3) == Bit(a, 3)
  {
    ThreeHalves(a);
    FourHalves(a);
    hide Half, Odd;
    assert Bit(a, 1) == Bit(Half(a), 0);
    assert Bit(a, 2) == Bit(Half(a), 1) == Bit(Half(Half(a)), 0);
    assert Bit(a, 3) == Bit(Half(a), 2) == Bit(Half(Half(a)), 1);
  }

  lemma RoundFeeds(acc: Word, a: Word, bits: Bits)
    requires FeedBits(0, bits) == acc
    ensures Horner(acc, a, Step(1)) == FeedBits(0, bits + [Odd(a)])
  {
    HornerIsStep(acc, a, Step(1));
    FeedOne(acc, Odd(a));
    hide Horner, Step, Xor, Odd;
    assert (bits + [Odd(a)])[..|bits|] == bits;
  }

  lemma PairFeeds(acc: Word, a: Word, c: Word, bits: Bits)
    requires FeedBits(0, bits) == acc
    ensures Horner(Horner(acc, a, Step(1)), c, Step(1)) == FeedBits(0, bits + [Odd(a), Odd(c)])
  {
    RoundFeeds(acc, a, bits);
    RoundFeeds(Horner(acc, a, Step(1)), c, bits + [Odd(a)]);
    hide Horner, Step, Odd, FeedBits;
    assert bits + [Odd(a)] + [Odd(c)] == bits + [Odd(a), Odd(c)];
  }

  lemma FourBits(a: Word)
    ensures LowBits(a, 4) == [Odd(a), Odd(a >> 1)] + [Odd(a >> 2), Odd(a >> 3)]
  {
    ShiftedBits(a);
    assert Bit(a, 0) == Odd(a);
    hide Odd, Bit;
  }

  lemma NibbleFeeds(acc: Word, a: Word, bits: Bits)
    requires FeedBits(0, bits) == acc
    ensures HornerNibble(acc, a, Step(1)) == FeedBits(0, bits + LowBits(a, 4))
  {
    var u, v := [Odd(a), Odd(a >> 1)], [Odd(a >> 2), Odd(a >> 3)];
    FourBits(a);
    PairFeeds(acc, a, a >> 1, bits);
    PairFeeds(Horner(Horner(acc, a, Step(1)), a >> 1, Step(1)), a >> 2, a >> 3, bits + u);
    hide Horner, Step, Odd, FeedBits, LowBits;
    assert bits + u + v == bits + LowBits(a, 4);
  }

  lemma NibbleOfBits(a: Word, n: nat)
    requires 4 <= n
    ensures LowBits(a, n) == LowBits(a, 4) + LowBits(DropNibble(a), n - 4)
  {
    hide Bit, DropNibble;
    forall i: nat | 4 <= i < n ensures Bit(a, i) == Bit(DropNibble(a), i - 4) {
      HighBits(a, i);
    }
  }

  lemma NibbleShifts(a: Word)
    ensures a >> 4 == DropNibble(a) && a >> 8 == DropNibble(DropNibble(a))
  {}

  lemma MoreNibbleShifts(a: Word)
    ensures a >> 12 == (a >> 8) >> 4 && a >> 16 == (a >> 8) >> 8
  {}

  lemma ByteFeeds(acc: Word, a: Word, c: Word, bits: Bits)
    requires FeedBits(0, bits) == acc
    ensures HornerNibble(HornerNibble(acc, a, Step(1)), c, Step(1)) ==
            FeedBits(0, bits + (LowBits(a, 4) + LowBits(c, 4)))
  {
    NibbleFeeds(acc, a, bits);
    NibbleFeeds(HornerNibble(acc, a, Step(1)), c, bits + LowBits(a, 4));
    hide HornerNibble, Step, FeedBits, LowBits;
    assert bits + LowBits(a, 4) + LowBits(c, 4) == bits + (LowBits(a, 4) + LowBits(c, 4));
  }

  lemma WordFeeds(acc: Word, a: Word, b: Word, c: Word, d: Word, bits: Bits)
    requires FeedBits(0, bits) == acc
    ensures var g := Step(1);
            HornerNibble(HornerNibble(HornerNibble(HornerNibble(acc, a, g), b, g), c, g), d, g) ==
            FeedBits(0, bits + (LowBits(a, 4) + LowBits(b, 4) + LowBits(c, 4) + LowBits(d, 4)))
  {
    hide HornerNibble, Step, FeedBits, LowBits;
    var g := Step(1);
    var u, v := LowBits(a, 4) + LowBits(b, 4), LowBits(c, 4) + LowBits(d, 4);
    ByteFeeds(acc, a, b, bits);
    ByteFeeds(HornerNibble(HornerNibble(acc, a, g), b, g), c, d, bits + u);
    assert bits + u + v == bits + (LowBits(a, 4) + LowBits(b, 4) + LowBits(c, 4) + LowBits(d, 4));
  }

  lemma HalfFeeds(acc: Word, a: Word, bits: Bits)
    requires FeedBits(0, bits) == acc
    ensures HornerHalf(acc, a, Step(1)) == FeedBits(0, bits + LowBits(a, 16))
  {
    hide HornerNibble, Step, FeedBits, LowBits;
    SixteenBits(a);
    WordFeeds(acc, a, a >> 4, a >> 8, a >> 12, bits);
  }

  lemma SixteenBits(a: Word)
    ensures LowBits(a, 16) == LowBits(a, 4) + LowBits(a >> 4, 4) + LowBits(a >> 8, 4) + LowBits(a >> 12, 4)
  {
    NibbleShifts(a);
    NibbleShifts(a >> 8);
    MoreNibbleShifts(a);
    hide Bit, DropNibble;
    NibbleOfBits(a, 16);
    NibbleOfBits(a >> 4, 12);
    NibbleOfBits(a >> 8, 8);
  }

  lemma HighSixteenBits(a: Word)
    ensures LowBits(a, 32) == LowBits(a, 16) + LowBits(a >> 16, 16)
  {
    NibbleShifts(a);
    NibbleShifts(a >> 8);
    MoreNibbleShifts(a);
    var d1 := DropNibble(a);
    var d2 := DropNibble(d1);
    var d3 := DropNibble(d2);
    assert a >> 16 == DropNibble(d3);
    hide Bit, DropNibble;
    forall i: nat | 16 <= i < 32 ensures Bit(a, i) == Bit(DropNibble(d3), i - 16) {
      HighBits(a, i);
      HighBits(d1, i - 4);
      HighBits(d2, i - 8);
      HighBits(d3, i - 12);
    }
  }

  /** A word times Step(1) is the register after reading the word as a message. */
  lemma MultiplyReadsWord(a: Word)
    ensures Multiply(a, Step(1)) == FeedBits(0, LowBits(a, 32))
  {
    assert FeedBits(0, []) == 0;
    hide Bit, Step, Xor, HornerHalf, FeedBits, LowBits;
    HalfFeeds(0, a, []);
    HalfFeeds(HornerHalf(0, a, Step(1)), a >> 16, [] + LowBits(a, 16));
    HighSixteenBits(a);
    assert [] + LowBits(a, 16) + LowBits(a >> 16, 16) == LowBits(a, 32);
  }

  /** Multiplying by 1 changes nothing: stepping both sides 32 times reads the word as a message. */
  lemma MultiplyOne(a: Word)
    ensures Multiply(a, ONE) == a
  {
    XorZero(a);
    hide Bit, Step, Xor, Multiply, FeedBits, LowBits, Steps;
    forall i: nat | 32 <= i ensures !Bit(a, i) {
      BitsEndAt32(a, i);
    }
    Absorb(0, a, 32);
    MultiplyReadsWord(a);
    StepsToOne();
    MultiplySteps(a, ONE, 32);
    StepsInjective(Multiply(a, ONE), a, 32);
  }

  /** The register 1 is x^31. */
  lemma StepsToOne()
    ensures Steps(ONE, 31) == 1 && Steps(ONE, 32) == Step(1)
  {
    assert Steps(ONE, 4) == 0x0800_0000;
    assert Steps(0x0800_0000, 4) == 0x0080_0000;
    assert Steps(0x0080_0000, 4) == 0x0008_0000;
    assert Steps(0x0008_0000, 4) == 0x0000_8000;
    assert Steps(0x0000_8000, 4) == 0x0000_0800;
    assert Steps(0x0000_0800, 4) == 0x0000_0080;
    assert Steps(0x0000_0080, 4) == 0x0000_0008;
    assert Steps(0x0000_0008, 3) == 0x0000_0001;
    StepsAdd(ONE, 4, 4);
    StepsAdd(ONE, 8, 4);
    StepsAdd(ONE, 12, 4);
    StepsAdd(ONE, 16, 4);
    StepsAdd(ONE, 20, 4);
    StepsAdd(ONE, 24, 4);
    StepsAdd(ONE, 28, 3);
  }

  /** x^m * x^n == x^(m + n) modulo the generator. */
  lemma PowerSum(m: nat, n: nat)
    ensures Multiply(Power(m), Power(n)) == Power(m + n)
  {
    hide Multiply, Steps;
    MultiplySteps(Power(m), ONE, n);
    MultiplyOne(Power(m));
    StepsAdd(ONE, m, n);
  }

  /** One certified product: the eight intermediate registers of Horner's rule are given. */
  lemma Product(m: nat, n: nat, e: Word, f: Word,
                c1: Word, c2: Word, c3: Word, c4: Word, c5: Word, c6: Word, c7: Word, g: Word)
    requires Power(m) == e && Power(n) == f
    requires HornerNibble(0, e, f) == c1 && HornerNibble(c1, e >> 4, f) == c2
    requires HornerNibble(c2, e >> 8, f) == c3 && HornerNibble(c3, e >> 12, f) == c4
    requires HornerNibble(c4, e >> 16, f) == c5 && HornerNibble(c5, (e >> 16) >> 4, f) == c6
    requires HornerNibble(c6, (e >> 16) >> 8, f) == c7 && HornerNibble(c7, (e >> 16) >> 12, f) == g
    ensures Power(m + n) == g
  {
    hide HornerNibble, Power;
    PowerSum(m, n);
  }

  // ---- Certified powers ----------------------------------------------------------------

  lemma FirstPower()
    ensures Power(1) == 0x4000_0000
  {}

  lemma PowersTo4()
    ensures Power(16) == 0x0000_8000
  {
    FirstPower();
    hide Power;
    Product(1, 1, 0x4000_0000, 0x4000_0000,
            0x0000_0000, 0x0000_0000, 0x0000_0000, 0x0000_0000,
            0x0000_0000, 0x0000_0000, 0x0000_0000, 0x2000_0000);
    Product(2, 2, 0x2000_0000, 0x2000_0000,
            0x0000_0000, 0x0000_0000, 0x0000_0000, 0x0000_0000,
            0x0000_0000, 0x0000_0000, 0x0000_0000, 0x0800_0000);
    Product(4, 4, 0x0800_0000, 0x0800_0000,
            0x0000_0000, 0x0000_0000, 0x0000_0000, 0x0000_0000,
            0x0000_0000, 0x0000_0000, 0x0800_0000, 0x0080_0000);
    Product(8, 8, 0x0080_0000, 0x0080_0000,
            0x0000_0000, 0x0000_0000, 0x0000_0000, 0x0000_0000,
            0x0000_0000, 0x0080_0000, 0x0008_0000, 0x0000_8000);
  }

  lemma PowersTo8()
    ensures Power(256) == 0xED62_7DAE
  {
    PowersTo4();
    hide Power;
    Product(16, 16, 0x0000_8000, 0x0000_8000,
            0x0000_0000, 0x0000_0000, 0x0000_0000, 0x0000_8000,
            0x0000_0800, 0x0000_0080, 0x0000_0008, 0xEDB8_8320);
    Product(32, 32, 0xEDB8_8320, 0xEDB8_8320,
            0x0000_0000, 0x3B6E_20C8, 0xC8D7_5180, 0xE135_F638,
            0x0E13_5F63, 0xED59_B6D6, 0xC5B4_28E1, 0xB1E6_B092);
    Product(64, 64, 0xB1E6_B092, 0xB1E6_B092,
            0xC1C1_2F04, 0xABC6_7470, 0x0ABC_6747, 0x4069_BF5C,
            0x0650_2E08, 0xC509_461F, 0xD10D_F1FF, 0xA06A_2517);
    Product(128, 128, 0xA06A_2517, 0xA06A_2517,
            0xBAF4_7C84, 0xC974_A082, 0x3E73_5DB1, 0xAD2E_6E4A,
            0xCF10_2BEE, 0xA208_3A98, 0xE798_0089, 0xED62_7DAE);
  }

  lemma PowersTo12()
    ensures Power(4096) == 0x8E7E_A170
  {
    PowersTo8();
    hide Power;
    Product(256, 256, 0xED62_7DAE, 0xED62_7DAE,
            0x4D33_5F32, 0x043F_74DE, 0xBD52_DB49, 0xDD43_1169,
            0x2B3B_BE19, 0x52ED_0A39, 0xE83A_8D9B, 0x88D1_4467);
    Product(512, 512, 0x88D1_4467, 0x88D1_4467,
            0xA190_784E, 0xBA93_5746, 0xEFCB_753F, 0x1A91_645C,
            0x2BDD_1E01, 0x8F1B_6E04, 0xF6FC_B317, 0xD7BB_FE6A);
    Product(1024, 1024, 0xD7BB_FE6A, 0xD7BB_FE6A,
            0x0FED_82D0, 0xB375_5BA2, 0x5469_0897, 0x5D58_A20D,
            0xE0C0_E479, 0x9DC5_218E, 0x7676_0DB2, 0xEC44_7F11);
    Product(2048, 2048, 0xEC44_7F11, 0xEC44_7F11,
            0x26E6_AF2A, 0xF25E_6630, 0x13D0_D4A4, 0x8750_010C,
            0x088B_7E08, 0x76AA_8868, 0x9D0C_E81F, 0x8E7E_A170);
  }

  lemma PowersTo16()
    ensures Power(0x10000) == 0x8385_2D0F
  {
    PowersTo12();
    hide Power;
    Product(4096, 4096, 0x8E7E_A170, 0x8E7E_A170,
            0x0000_0000, 0x756F_2CCA, 0xC04F_850A, 0x7733_5294,
            0x9B71_2D2D, 0xFA0B_ECCC, 0x7E1A_25E8, 0x6427_800E);
    Product(8192, 8192, 0x6427_800E, 0x6427_800E,
            0xA285_232A, 0xDCFE_F1DA, 0xDB19_4CF5, 0x02FD_4535,
            0x3A06_1432, 0xCC7F_22A8, 0xD36C_B10D, 0x4D47_BAE0);
    Product(16384, 16384, 0x4D47_BAE0, 0x4D47_BAE0,
            0x0000_0000, 0x78B5_8928, 0xB425_8FEA, 0x8A2A_5812,
            0x0F96_41DD, 0xA089_6BB9, 0x984B_9533, 0x09FE_548F);
    Product(32768, 32768, 0x09FE_548F, 0x09FE_548F,
            0xD897_8292, 0x3F19_0C6E, 0x4ABC_DBD9, 0xBCD6_DF77,
            0x226A_B6B0, 0xDAB1_29F9, 0x556F_FDBD, 0x8385_2D0F);
  }

  lemma PowersTo20()
    ensures Power(0x100000) == 0x9FEC_022A
  {
    PowersTo16();
    hide Power;
    Product(0x10000, 0x10000, 0x8385_2D0F, 0x8385_2D0F,
            0x2400_F682, 0x392E_2FA0, 0x9C17_9D8B, 0x7925_43A7,
            0x4B97_7778, 0x6A84_D958, 0xE0EF_009F, 0x3036_2F1A);
    Product(0x20000, 0x20000, 0x3036_2F1A, 0x3036_2F1A,
            0xD183_27FC, 0xE6A6_74BC, 0x2C4C_11F9, 0x137E_5ABD,
            0x7E4A_2814, 0xE057_6F84, 0x78D9_3768, 0x7B5A_9CC3);
    Product(0x40000, 0x40000, 0x7B5A_9CC3, 0x7B5A_9CC3,
            0xC76B_5740, 0xA739_E4F6, 0xEC8E_AE95, 0x5C20_151E,
            0x5B20_1A6A, 0x41A8_5DCF, 0x0596_BC43, 0x31FE_C169);
    Product(0x80000, 0x80000, 0x31FE_C169, 0x31FE_C169,
            0x0CAF_398C, 0x144A_2376, 0x71A7_3B8A, 0x1575_F2AD,
            0x399E_5EC9, 0x70DD_5D7A, 0xEC8A_8EDA, 0x9FEC_022A);
  }

  lemma PowersTo24()
    ensures Power(0x1000000) == 0xBAD9_0E37
  {
    PowersTo20();
    hide Power;
    Product(0x100000, 0x100000, 0x9FEC_022A, 0x9FEC_022A,
            0x55AF_8180, 0xCF19_7BB2, 0xFDDC_34D9, 0xFFD2_5009,
            0x2FE8_B57B, 0xD3C6_B84E, 0xD24E_C8BC, 0x6C8D_EDC4);
    Product(0x200000, 0x200000, 0x6C8D_EDC4, 0x6C8D_EDC4,
            0x3646_F6E2, 0x62C1_5480, 0xBCCE_30F6, 0x0796_E200,
            0xBA9B_4B9E, 0xC72E_BB05, 0x3DD2_A162, 0x15D6_874D);
    Product(0x400000, 0x400000, 0x15D6_874D, 0x15D6_874D,
            0x26E9_34CA, 0x33EB_F022, 0x78C6_CC0E, 0xB250_09F5,
            0xF4B4_71AE, 0x89A8_91A8, 0xD61D_B9BD, 0x5FDE_7A4E);
    Product(0x800000, 0x800000, 0x5FDE_7A4E, 0x5FDE_7A4E,
            0x8A7E_5ADA, 0xF19E_7B62, 0x91E6_A083, 0x6AF8_77C9,
            0x7CDE_4EE2, 0xDC0D_8EB6, 0x5A93_EE90, 0xBAD9_0E37);
  }

  lemma PowersTo28()
    ensures Power(0x10000000) == 0x429A_969E
  {
    PowersTo24();
    hide Power;
    Product(0x1000000, 0x1000000, 0xBAD9_0E37, 0xBAD9_0E37,
            0xB257_46B8, 0xE41E_B5C8, 0x5C26_E34D, 0x8311_BCE0,
            0x05B9_D647, 0xED02_25EA, 0xD70D_0EBC, 0x2E4E_5EEF);
    Product(0x2000000, 0x2000000, 0x2E4E_5EEF, 0x2E4E_5EEF,
            0xE1E5_8E16, 0x078A_9E0A, 0x9288_ADBB, 0x9D15_BCA5,
            0x269C_AD8D, 0x7E25_B45B, 0x88A5_4F7A, 0x4EAB_A214);
    Product(0x4000000, 0x4000000, 0x4EAB_A214, 0x4EAB_A214,
            0x2755_D10A, 0x30CE_099A, 0xC670_ABF4, 0x27BA_01BE,
            0x1B1D_FF90, 0x5CB0_9568, 0x9227_11ED, 0xA8A4_72C0);
    Product(0x8000000, 0x8000000, 0xA8A4_72C0, 0xA8A4_72C0,
            0x0000_0000, 0xFCF6_4BA0, 0x25E6_780A, 0xBFE7_6FE0,
            0x5FAC_4F9E, 0x277D_48F1, 0xB764_B62B, 0x429A_969E);
  }

  lemma PowersTo32()
    ensures Power(0x100000000) == 0x4000_0000
  {
    PowersTo28();
    hide Power;
    Product(0x10000000, 0x10000000, 0x429A_969E, 0x429A_969E,
            0x9EC9_FB56, 0x95F3_F810, 0xD50C_5249, 0x2CF2_509D,
            0x3B98_47C4, 0xA4C8_C311, 0xEAE5_BAD2, 0x148D_302A);
    Product(0x20000000, 0x20000000, 0x148D_302A, 0x148D_302A,
            0xFC16_FF00, 0xE75A_A0DA, 0xD8A3_09E5, 0xFA37_49D5,
            0x0E4E_6AC3, 0x32B0_E62A, 0xDFBB_359F, 0xC40B_A6D0);
    Product(0x40000000, 0x40000000, 0xC40B_A6D0, 0xC40B_A6D0,
            0x0000_0000, 0xBE8F_0162, 0x6381_EA02, 0xC85F_710C,
            0x7A69_0E1E, 0xA7AC_7299, 0x9870_8705, 0xC4E2_2C3C);
    Product(0x80000000, 0x80000000, 0xC4E2_2C3C, 0xC4E2_2C3C,
            0xA693_3A22, 0xF51B_5EC2, 0x92AC_AF06, 0x75A0_20A7,
            0x6667_F839, 0x61C2_5DEA, 0xB2BB_9028, 0x4000_0000);
  }

  /** Stepping by a period changes nothing. */
  lemma PowerShift(n: nat, k: nat)
    requires Power(n) == ONE
    ensures Power(n + k) == Power(k)
  {
    hide Steps;
    StepsAdd(ONE, n, k);
  }

  lemma NotPeriod65537()
    ensures Power(0xFFFF) != ONE
  {
    PowersTo16();
    FirstPower();
    hide Power;
    if Power(0xFFFF) == ONE {
      PowerShift(0xFFFF, 1);
    }
  }

  lemma PowersFor257()
    ensures Power(0x1_0001) == 0xAC7A_15A7 && Power(0x0100_0100) == 0x4630_D51A
  {
    PowersTo8();
    PowersTo16();
    PowersTo24();
    FirstPower();
    hide Power;
    Product(0x1_0000, 1, 0x8385_2D0F, 0x4000_0000,
            0x7800_0000, 0x0780_0000, 0x6878_0000, 0x1687_8000,
            0x2968_7800, 0x4296_8780, 0x1C29_6878, 0xAC7A_15A7);
    Product(0x100_0000, 0x100, 0xBAD9_0E37, 0xED62_7DAE,
            0x2699_AF99, 0xA24E_98F3, 0x61CE_8611, 0x1BAB_F805,
            0x017B_1EDF, 0xA0B1_8D8D, 0xB75A_ABE9, 0x4630_D51A);
  }

  lemma NotPeriod257()
    ensures Power(0x00FF_00FF) != ONE
  {
    PowersFor257();
    hide Power;
    if Power(0x00FF_00FF) == ONE {
      PowerShift(0x00FF_00FF, 0x1_0001);
    }
  }

  lemma PowersFor17()
    ensures Power(0x0101_0101) == 0x316B_5BA1 && Power(0x1010_1010) == 0x0C28_3CA0
  {
    PowersFor257();
    hide Power;
    Product(0x0100_0100, 0x1_0001, 0x4630_D51A, 0xAC7A_15A7,
            0x1C00_527E, 0x144F_4793, 0x299D_EDEA, 0x7635_41AE,
            0xA769_B662, 0x34E7_5CBB, 0xC3D0_086D, 0x316B_5BA1);
    Product(0x0101_0101, 0x0101_0101, 0x316B_5BA1, 0x316B_5BA1,
            0x3D43_4BBC, 0xD35D_3AD2, 0x40F5_7400, 0xCC41_320C,
            0xE10E_56F5, 0xEAF0_0D13, 0x1535_7BC1, 0x5B21_9B1C);
    Product(0x0202_0202, 0x0202_0202, 0x5B21_9B1C, 0x5B21_9B1C,
            0x76B1_5692, 0xDAD9_85E2, 0x9DF6_F50E, 0x1428_A677,
            0xB79B_4B18, 0xF009_5156, 0xE987_B9D5, 0xAEBF_57A4);
    Product(0x0404_0404, 0x0404_0404, 0xAEBF_57A4, 0xAEBF_57A4,
            0x575F_ABD2, 0xBB0B_5838, 0x6297_214C, 0x327D_72A2,
            0x1269_B7A9, 0x8C56_E3A7, 0x8A8F_3699, 0x7DB7_E260);
    Product(0x0808_0808, 0x0808_0808, 0x7DB7_E260, 0x7DB7_E260,
            0x0000_0000, 0x21B6_09A8, 0xF0CE_1B22, 0x6863_2AB2,
            0x13E8_E787, 0x3C57_19F0, 0x4F1F_9E83, 0x0C28_3CA0);
  }

  lemma NotPeriod17()
    ensures Power(0x0F0F_0F0F) != ONE
  {
    PowersFor17();
    hide Power;
    if Power(0x0F0F_0F0F) == ONE {
      PowerShift(0x0F0F_0F0F, 0x0101_0101);
    }
  }

  lemma PowersFor5()
    ensures Power(0x1111_1111) == 0x3D43_6701 && Power(0x4444_4444) == 0xBD43_6701
  {
    PowersFor17();
    hide Power;
    Product(0x1010_1010, 0x0101_0101, 0x0C28_3CA0, 0x316B_5BA1,
            0x0000_0000, 0x4BED_CCD9, 0x30D7_3AD8, 0xA970_2C49,
            0xCBF3_CA21, 0x6B8E_BBBE, 0x62D4_7C92, 0x3D43_6701);
    Product(0x1111_1111, 0x1111_1111, 0x3D43_6701, 0x3D43_6701,
            0x3CC6_4C28, 0xEE74_E7E2, 0x83DA_8A6E, 0x22A2_E22E,
            0xE76A_1822, 0xC601_B1EA, 0x282A_A37F, 0xFA75_8C53);
    Product(0x2222_2222, 0x2222_2222, 0xFA75_8C53, 0xFA75_8C53,
            0xF705_7176, 0x80BC_A394, 0x1420_42F3, 0xDDEE_B8D0,
            0xCFA0_7E56, 0x26CF_52C2, 0x668E_F813, 0xBD43_6701);
  }

  lemma NotPeriod5()
    ensures Power(0x3333_3333) != ONE
  {
    PowersFor5();
    hide Power;
    if Power(0x3333_3333) == ONE {
      PowerShift(0x3333_3333, 0x1111_1111);
    }
  }

  lemma NotPeriod3()
    ensures Power(0x5555_5555) != ONE
  {
    PowersFor5();
    hide Power;
    Product(0x4444_4444, 0x1111_1111, 0xBD43_6701, 0x3D43_6701,
            0x3CC6_4C28, 0xEE74_E7E2, 0x83DA_8A6E, 0x22A2_E22E,
            0xE76A_1822, 0xC601_B1EA, 0x282A_A37F, 0xC736_EB52);
  }

  // ---- The order of x ------------------------------------------------------------------

  lemma StepOfOne()
    ensures Step(ONE) == 0x4000_0000
  {}

  lemma PowerOfPeriod()
    ensures Power(PERIOD) == ONE
  {
    PowersTo32();
    StepsUnfold(ONE, 0);
    StepsUnfold(ONE, PERIOD + 1);
    StepOfOne();
    hide Step, Steps;
    StepInjective(Power(PERIOD), ONE);
  }

  lemma {:induction false} PowerOfMultiple(n: nat, k: nat)
    requires Power(n) == ONE
    ensures Power(k * n) == ONE
    decreases k
  {
    hide Steps;
    if k == 0 {
      StepsUnfold(ONE, 0);
    } else {
      PowerOfMultiple(n, k - 1);
      PowerShift(n, (k - 1) * n);
      assert k * n == n + (k - 1) * n;
    }
  }

  lemma {:induction false} PowerOfGcd(a: nat, b: nat)
    requires Power(a) == ONE && Power(b) == ONE
    ensures Power(Gcd(a, b)) == ONE
    decreases b
  {
    hide Steps;
    if b != 0 {
      PowerOfMultiple(b, a / b);
      PowerShift((a / b) * b, a % b);
      PowerOfGcd(b, a % b);
    }
  }

  /** A period that divides 2^32 - 1 is 2^32 - 1. */
  lemma NoProperPeriod(g: nat)
    requires Divides(g, PERIOD) && Power(g) == ONE
    ensures g == PERIOD
  {
    hide Power;
    var m := PERIOD / g;
    assert PERIOD == g * m;
    if m != 1 {
      DividesMeans(m, PERIOD, g);
      FactorOfPeriod(m);
      NotPeriod3();
      NotPeriod5();
      NotPeriod17();
      NotPeriod257();
      NotPeriod65537();
      if Divides(3, m) {
        Cofactor(g, m, 3, 0x5555_5555);
      } else if Divides(5, m) {
        Cofactor(g, m, 5, 0x3333_3333);
      } else if Divides(17, m) {
        Cofactor(g, m, 17, 0x0F0F_0F0F);
      } else if Divides(257, m) {
        Cofactor(g, m, 257, 0x00FF_00FF);
      } else {
        Cofactor(g, m, 65537, 0xFFFF);
      }
    }
  }

  lemma Cofactor(g: nat, m: nat, p: nat, n: nat)
    requires PERIOD == g * m && Divides(p, m) && PERIOD == p * n
    requires Power(g) == ONE
    ensures Power(n) == ONE
  {
    hide Power;
    var k := m / p;
    assert m == p * k;
    assert p * (k * g) == p * n by {
      assert g * (p * k) == p * (k * g);
    }
    assert k * g == n;
    PowerOfMultiple(g, k);
  }

  /** x has order 2^32 - 1 modulo the generator: the register repeats after no fewer steps. */
  lemma OrderOfX(n: nat)
    ensures Power(n) == ONE <==> n % PERIOD == 0
  {
    hide Power;
    PowerOfPeriod();
    if n % PERIOD == 0 {
      PowerOfMultiple(PERIOD, n / PERIOD);
    }
    if Power(n) == ONE {
      PowerOfGcd(n, PERIOD);
      GcdDivides(n, PERIOD);
      NoProperPeriod(Gcd(n, PERIOD));
    }
  }
}
