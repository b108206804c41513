/**
 Polynomials over GF(2), as the set of exponents whose coefficient is 1.

 Addition is symmetric difference. A quotient is written as its coefficient sequence, highest
 coefficient first, and multiplied out by Horner's rule.
 */
module Polynomials {
  import opened Words

  type Poly = set<nat>

  function Add(p: Poly, q: Poly): Poly { (p - q) + (q - p) }

  /** p * x^n */
  function Shift(p: Poly, n: nat): Poly {
    set k | k in p :: k + n
  }

  /** The polynomial with coefficients `coefficients` (highest first), times p. */
  function Times(coefficients: Bits, p: Poly): Poly
    decreases |coefficients|
  {
    if coefficients == [] then {}
    else
      var n := |coefficients| - 1;
      Add(Shift(Times(coefficients[..n], p), 1), if coefficients[n] then p else {})
  }

  ghost predicate DegreeBelow(p: Poly, n: nat)
  {
    forall k | k in p :: k < n
  }

  /** r is the remainder of p modulo g, a polynomial of degree n. */
  ghost predicate IsRemainder(p: Poly, g: Poly, n: nat, r: Poly)
  {
    DegreeBelow(r, n) && exists q: Bits :: p == Add(Times(q, g), r)
  }

  ghost predicate HasDegree(g: Poly, n: nat)
  {
    n in g && DegreeBelow(g, n + 1)
  }

  // ---- Arithmetic ----------------------------------------------------------------------

  lemma AddCommutative(p: Poly, q: Poly)
    ensures Add(p, q) == Add(q, p)
  {}

  lemma AddAssociative(p: Poly, q: Poly, r: Poly)
    ensures Add(Add(p, q), r) == Add(p, Add(q, r))
  {}

  lemma AddSelf(p: Poly)
    ensures Add(p, p) == {} && Add(p, {}) == p && Add({}, p) == p
  {}

  lemma AddInterchange(p: Poly, q: Poly, r: Poly, s: Poly)
    ensures Add(Add(p, q), Add(r, s)) == Add(Add(p, r), Add(q, s))
  {}

  lemma ShiftAdd(p: Poly, q: Poly, n: nat)
    ensures Shift(Add(p, q), n) == Add(Shift(p, n), Shift(q, n))
  {
    forall k: nat
      ensures k in Shift(Add(p, q), n) <==> k in Add(Shift(p, n), Shift(q, n))
    {
      InShift(Add(p, q), n, k);
      InShift(p, n, k);
      InShift(q, n, k);
    }
  }

  lemma InShift(p: Poly, n: nat, k: nat)
    ensures k in Shift(p, n) <==> n <= k && k - n in p
  {
    if n <= k && k - n in p {
      assert (k - n) + n in Shift(p, n);
    }
  }

  lemma ShiftShift(p: Poly, m: nat, n: nat)
    ensures Shift(Shift(p, m), n) == Shift(p, m + n)
  {
    forall k: nat
      ensures k in Shift(Shift(p, m), n) <==> k in Shift(p, m + n)
    {
      InShift(Shift(p, m), n, k);
      if n <= k {
        InShift(p, m, k - n);
      }
      InShift(p, m + n, k);
    }
  }

  lemma ShiftZero(p: Poly)
    ensures Shift(p, 0) == p
  {}

  // ---- Multiples -----------------------------------------------------------------------

  /** The highest term of a multiple of g, by Horner's rule. */
  lemma {:induction false} DegreeOfTimes(q: Bits, g: Poly, n: nat)
    requires HasDegree(g, n) && q != []
    ensures DegreeBelow(Times(q, g), n + |q|)
    ensures n + |q| - 1 in Times(q, g) <==> q[0]
    decreases |q|
  {
    var m := |q| - 1;
    var top := n + m;
    var front := Times(q[..m], g);
    if m == 0 {
      assert q[..0] == [];
      assert front == {};
    } else {
      DegreeOfTimes(q[..m], g, n);
    }
    forall k: nat | k in Times(q, g) ensures k < n + |q| {
      InShift(front, 1, k);
    }
    InShift(front, 1, top);
  }

  lemma {:induction false} LeadingZero(q: Bits, g: Poly)
    requires q != [] && !q[0]
    ensures Times(q, g) == Times(q[1..], g)
    decreases |q|
  {
    var m := |q| - 1;
    if m == 0 {
      assert q[..0] == [];
      assert Shift({}, 1) == {};
    } else {
      LeadingZero(q[..m], g);
      assert q[..m][1..] == q[1..][..m - 1];
    }
  }

  /** Only the zero multiple of g has degree below that of g. */
  lemma {:induction false} SmallMultipleIsZero(q: Bits, g: Poly, n: nat)
    requires HasDegree(g, n) && DegreeBelow(Times(q, g), n)
    ensures Times(q, g) == {}
    decreases |q|
  {
    if q != [] {
      DegreeOfTimes(q, g, n);
      LeadingZero(q, g);
      SmallMultipleIsZero(q[1..], g, n);
    }
  }

  function PadTo(q: Bits, n: nat): (padded: Bits)
    requires |q| <= n
    ensures |padded| == n
    decreases n - |q|
  {
    if |q| == n then q else PadTo([false] + q, n)
  }

  lemma {:induction false} TimesOfPadded(q: Bits, n: nat, g: Poly)
    requires |q| <= n
    ensures Times(PadTo(q, n), g) == Times(q, g)
    decreases n - |q|
  {
    if |q| < n {
      LeadingZero([false] + q, g);
      assert ([false] + q)[1..] == q;
      TimesOfPadded([false] + q, n, g);
    }
  }

  lemma {:induction false} TimesAdd(q: Bits, s: Bits, g: Poly)
    requires |q| == |s|
    ensures Add(Times(q, g), Times(s, g)) == Times(XorBits(q, s), g)
    decreases |q|
  {
    if q != [] {
      var m := |q| - 1;
      var q', s' := q[..m], s[..m];
      TimesAdd(q', s', g);
      assert XorBits(q, s)[..m] == XorBits(q', s');
      var gq := if q[m] then g else {};
      var gs := if s[m] then g else {};
      ShiftAdd(Times(q', g), Times(s', g), 1);
      AddInterchange(Shift(Times(q', g), 1), gq, Shift(Times(s', g), 1), gs);
      AddSelf(g);
      AddSelf({});
      assert Add(gq, gs) == if q[m] != s[m] then g else {};
    }
  }

  /** Remainders are unique. */
  lemma RemainderUnique(p: Poly, g: Poly, n: nat, r: Poly, s: Poly)
    requires HasDegree(g, n) && IsRemainder(p, g, n, r) && IsRemainder(p, g, n, s)
    ensures r == s
  {
    var q :| p == Add(Times(q, g), r);
    var t :| p == Add(Times(t, g), s);
    var m := if |q| < |t| then |t| else |q|;
    var q', t' := PadTo(q, m), PadTo(t, m);
    TimesOfPadded(q, m, g);
    TimesOfPadded(t, m, g);
    TimesAdd(q', t', g);
    var d := Times(XorBits(q', t'), g);
    assert d == Add(r, s) by {
      DifferenceOfEqualSums(Times(q', g), r, Times(t', g), s);
    }
    SmallMultipleIsZero(XorBits(q', t'), g, n);
    ZeroSum(r, s);
  }

  lemma DifferenceOfEqualSums(a: Poly, r: Poly, b: Poly, s: Poly)
    requires Add(a, r) == Add(b, s)
    ensures Add(a, b) == Add(r, s)
  {
    AddInterchange(a, r, b, s);
    AddSelf(Add(a, r));
    ZeroSum(Add(a, b), Add(r, s));
  }

  lemma ZeroSum(p: Poly, q: Poly)
    requires Add(p, q) == {}
    ensures p == q
  {
    assert p - q <= Add(p, q) && q - p <= Add(p, q);
  }
}
