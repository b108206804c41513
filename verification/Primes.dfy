/**
 The elementary number theory behind the period of the checksum register: greatest common
 divisors, and the factors of 2^32 - 1.
 */
module Primes {
  predicate Divides(d: nat, n: int)
  {
    d != 0 && n % d == 0
  }

  function Gcd(a: nat, b: nat): nat
    decreases b
  {
    if b == 0 then a else Gcd(b, a % b)
  }

  lemma DividesMeans(d: nat, n: int, k: int)
    requires d != 0 && n == d * k
    ensures Divides(d, n)
  {
    var r := n % d;
    var q := n / d;
    assert n == d * q + r;
    assert d * (k - q) == r;
    MultipleBelow(d, k - q, r);
  }

  lemma MultipleBelow(d: nat, k: int, r: nat)
    requires d * k == r && r < d
    ensures r == 0
  {
    if 1 <= k {
      assert d * k == d + d * (k - 1);
    }
    if k <= -1 {
      assert d * k == d * (k + 1) - d;
    }
  }

  lemma DividesLinear(d: nat, a: int, b: int, u: int, v: int)
    requires Divides(d, a) && Divides(d, b)
    ensures Divides(d, u * a + v * b)
  {
    var x, y := a / d, b / d;
    assert a == d * x && b == d * y;
    assert u * a == d * (u * x) by {
      assert u * (d * x) == d * (u * x);
    }
    assert v * b == d * (v * y) by {
      assert v * (d * y) == d * (v * y);
    }
    DividesMeans(d, u * a + v * b, u * x + v * y);
  }

  lemma {:induction false} GcdDivides(a: nat, b: nat)
    requires a != 0 || b != 0
    ensures Gcd(a, b) != 0 && Divides(Gcd(a, b), a) && Divides(Gcd(a, b), b)
    decreases b
  {
    if b == 0 {
      DividesMeans(a, b, 0);
      DividesMeans(a, a, 1);
    } else {
      GcdDivides(b, a % b);
      var g := Gcd(a, b);
      assert a == (a / b) * b + 1 * (a % b);
      DividesLinear(g, b, a % b, a / b, 1);
    }
  }

  /** The coefficients of Bezout's identity. */
  function Bezout(a: nat, b: nat): (int, int)
    decreases b
  {
    if b == 0 then (1, 0)
    else
      var (u, v) := Bezout(b, a % b);
      (v, u - (a / b) * v)
  }

  lemma {:induction false} BezoutIdentity(a: nat, b: nat)
    ensures var (u, v) := Bezout(a, b); u * a + v * b == Gcd(a, b)
    decreases b
  {
    if b != 0 {
      BezoutIdentity(b, a % b);
      var (u, v) := Bezout(b, a % b);
      var q := a / b;
      BezoutStep(a, b, q, a % b, u, v);
    }
  }

  lemma BezoutStep(a: int, b: int, q: int, r: int, u: int, v: int)
    requires a == q * b + r
    ensures v * a + (u - q * v) * b == u * b + v * r
  {
    assert v * (q * b) == (q * v) * b;
    assert v * a == v * (q * b) + v * r;
    assert (u - q * v) * b == u * b - (q * v) * b;
  }

  predicate Prime(p: nat)
  {
    2 <= p && forall d: nat | 2 <= d < p :: !Divides(d, p)
  }

  /** Euclid: a prime that does not divide m can be cancelled. */
  lemma CancelPrime(m: nat, p: nat, k: nat)
    requires Prime(p) && m != 0 && !Divides(p, m) && Divides(m, p * k)
    ensures Divides(m, k)
  {
    var g := Gcd(m, p);
    GcdDivides(m, p);
    DivisorAtMost(g, p);
    assert g == 1;
    BezoutIdentity(m, p);
    var (u, v) := Bezout(m, p);
    assert k == (u * k) * m + v * (p * k) by {
      assert (u * m + v * p) * k == k;
      assert (u * m) * k == (u * k) * m;
      assert (v * p) * k == v * (p * k);
      assert (u * m + v * p) * k == (u * m) * k + (v * p) * k;
    }
    DividesMeans(m, m, 1);
    DividesLinear(m, m, p * k, u * k, v);
  }

  lemma DivisorAtMost(d: nat, n: nat)
    requires Divides(d, n) && n != 0
    ensures d <= n
  {}

  /** No number from 2 to k divides p. */
  predicate Trial(p: nat, k: nat)
  {
    k < 2 || (p % k != 0 && Trial(p, k - 1))
  }

  lemma {:induction false} TrialMeans(p: nat, k: nat, d: nat)
    requires Trial(p, k) && 2 <= d <= k
    ensures !Divides(d, p)
    decreases k
  {
    if d < k {
      TrialMeans(p, k - 1, d);
    }
  }

  /** Trial division up to the square root suffices. */
  lemma PrimeByTrial(p: nat, k: nat)
    requires 2 <= p && 1 <= k && Trial(p, k) && p < (k + 1) * (k + 1)
    ensures Prime(p)
  {
    forall d: nat | 2 <= d < p ensures !Divides(d, p) {
      if d <= k {
        TrialMeans(p, k, d);
      } else {
        LargeDivisor(p, k, d);
      }
    }
  }

  lemma LargeDivisor(p: nat, k: nat, d: nat)
    requires Trial(p, k) && k < d < p && p < (k + 1) * (k + 1)
    ensures !Divides(d, p)
  {
    if Divides(d, p) {
      var e := p / d;
      assert p == d * e;
      SmallCofactor(d, e, p, k);
      hide Trial, Divides;
      DividesMeans(e, p, d);
      TrialMeans(p, k, e);
    }
  }

  lemma SmallCofactor(d: nat, e: int, p: nat, k: nat)
    requires k < d < p && d * e == p && p < (k + 1) * (k + 1)
    ensures 2 <= e <= k
  {
    ProductBounds(d, e, k);
  }

  lemma ProductBounds(d: nat, e: int, k: nat)
    requires k < d
    ensures k < e ==> (k + 1) * (k + 1) <= d * e
    ensures e <= 1 ==> d * e <= d
  {
    if k < e {
      assert (k + 1) * (k + 1) <= (k + 1) * e;
      assert (k + 1) * e <= d * e;
    }
    if e <= 1 {
      assert d * (1 - e) >= 0;
    }
  }

  lemma FermatPrimes()
    ensures Prime(3) && Prime(5) && Prime(17) && Prime(257) && Prime(65537)
  {
    PrimeByTrial(3, 1);
    PrimeByTrial(5, 2);
    PrimeByTrial(17, 4);
    PrimeByTrial(257, 16);
    TrialTo256();
    PrimeByTrial(65537, 256);
  }

  lemma TrialTo64()
    ensures Trial(65537, 64)
  {
    assert Trial(65537, 8);
    assert Trial(65537, 16);
    assert Trial(65537, 24);
    assert Trial(65537, 32);
    assert Trial(65537, 40);
    assert Trial(65537, 48);
    assert Trial(65537, 56);
  }

  lemma TrialTo128()
    ensures Trial(65537, 128)
  {
    TrialTo64();
    assert Trial(65537, 72);
    assert Trial(65537, 80);
    assert Trial(65537, 88);
    assert Trial(65537, 96);
    assert Trial(65537, 104);
    assert Trial(65537, 112);
    assert Trial(65537, 120);
  }

  lemma TrialTo192()
    ensures Trial(65537, 192)
  {
    TrialTo128();
    assert Trial(65537, 136);
    assert Trial(65537, 144);
    assert Trial(65537, 152);
    assert Trial(65537, 160);
    assert Trial(65537, 168);
    assert Trial(65537, 176);
    assert Trial(65537, 184);
  }

  lemma TrialTo256()
    ensures Trial(65537, 256)
  {
    TrialTo192();
    assert Trial(65537, 200);
    assert Trial(65537, 208);
    assert Trial(65537, 216);
    assert Trial(65537, 224);
    assert Trial(65537, 232);
    assert Trial(65537, 240);
    assert Trial(65537, 248);
  }

  const PERIOD: nat := 0xFFFF_FFFF

  /** 2^32 - 1 = 3 * 5 * 17 * 257 * 65537: a divisor other than 1 has one of these factors. */
  lemma FactorOfPeriod(m: nat)
    requires Divides(m, PERIOD) && m != 1
    ensures Divides(3, m) || Divides(5, m) || Divides(17, m) || Divides(257, m) || Divides(65537, m)
  {
    FermatPrimes();
    if !Divides(3, m) && !Divides(5, m) && !Divides(17, m) && !Divides(257, m) && !Divides(65537, m) {
      CancelPrime(m, 3, 0x5555_5555);
      CancelPrime(m, 5, 0x1111_1111);
      CancelPrime(m, 17, 0x0101_0101);
      CancelPrime(m, 257, 0x1_0001);
      CancelPrime(m, 65537, 1);
      DivisorAtMost(m, 1);
    }
  }
}
