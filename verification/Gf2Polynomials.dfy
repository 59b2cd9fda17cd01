/** Polynomials over GF(2): a polynomial is the set of the exponents whose coefficient is 1. */
module Gf2Polynomials {

  type Poly = set<nat>

  function Plus(a: Poly, b: Poly): (r: Poly)
    ensures forall e: nat :: e in r <==> (e in a) != (e in b)
  {
    (a - b) + (b - a)
  }

  /** Multiplication by x to the power `n`. */
  function Shift(a: Poly, n: nat): (r: Poly)
    ensures forall e: nat :: e in r <==> e >= n && e - n in a
  {
    var r := set e | e in a :: e + n;
    forall e: nat | e >= n && e - n in a
      ensures e in r
    {
      var low: nat := e - n;
      assert low + n in r;
    }
    r
  }

  /** The product of the polynomial with coefficients `q`, constant term first, and `g`. */
  function Times(q: seq<bool>, g: Poly): Poly {
    if |q| == 0 then {} else Plus(if q[0] then g else {}, Shift(Times(q[1..], g), 1))
  }

  /** The polynomial whose coefficients, highest power first, are `bits`. */
  function OfBits(bits: seq<bool>): (r: Poly)
    ensures forall e: nat :: e in r <==> e < |bits| && bits[|bits| - 1 - e]
  {
    if |bits| == 0 then {}
    else (if bits[0] then {|bits| - 1} else {}) + OfBits(bits[1..])
  }

  ghost predicate DegreeBelow(r: Poly, n: nat) {
    forall e: nat :: e in r ==> e < n
  }

  /** `r` is what division of `d` by the monic `g` of degree `n` leaves. */
  ghost predicate IsRemainder(r: Poly, d: Poly, g: Poly, n: nat) {
    DegreeBelow(r, n) && exists q: seq<bool> :: d == Plus(Times(q, g), r)
  }

  ghost predicate HasDegree(g: Poly, n: nat) {
    n in g && DegreeBelow(g, n + 1)
  }

  /** A product is either zero or has at least the degree of its factor. */
  lemma {:induction false} ProductDegree(q: seq<bool>, g: Poly, n: nat)
    requires HasDegree(g, n)
    ensures Times(q, g) == {} || exists d :: d >= n && HasDegree(Times(q, g), d)
  {
    if |q| > 0 {
      var tail := Times(q[1..], g);
      ProductDegree(q[1..], g, n);
      if tail == {} {
        assert Times(q, g) == if q[0] then g else {};
      } else {
        var d :| d >= n && HasDegree(tail, d);
        assert HasDegree(Times(q, g), d + 1);
      }
    }
  }

  lemma ShiftPlus(a: Poly, b: Poly, n: nat)
    ensures Shift(Plus(a, b), n) == Plus(Shift(a, n), Shift(b, n))
  {
  }

  lemma PlusInterchange(a: Poly, b: Poly, c: Poly, d: Poly)
    ensures Plus(Plus(a, b), Plus(c, d)) == Plus(Plus(a, c), Plus(b, d))
  {
  }

  function PlusBits(p: seq<bool>, q: seq<bool>): (r: seq<bool>) {
    if |p| == 0 then q else if |q| == 0 then p else [p[0] != q[0]] + PlusBits(p[1..], q[1..])
  }

  lemma {:induction false} TimesDistributes(p: seq<bool>, q: seq<bool>, g: Poly)
    ensures Times(PlusBits(p, q), g) == Plus(Times(p, g), Times(q, g))
  {
    if |p| == 0 || |q| == 0 {
    } else {
      var a, b := if p[0] then g else {}, if q[0] then g else {};
      var s, t := Times(p[1..], g), Times(q[1..], g);
      TimesDistributes(p[1..], q[1..], g);
      ShiftPlus(s, t, 1);
      PlusInterchange(a, Shift(s, 1), b, Shift(t, 1));
      assert PlusBits(p, q)[1..] == PlusBits(p[1..], q[1..]);
      assert Plus(a, b) == if p[0] != q[0] then g else {};
    }
  }

  lemma PlusTransposes(p: Poly, r: Poly, q: Poly, s: Poly)
    requires Plus(p, r) == Plus(q, s)
    ensures Plus(p, q) == Plus(r, s)
  {
    forall e: nat
      ensures e in Plus(p, q) <==> e in Plus(r, s)
    {
      assert e in Plus(p, r) <==> e in Plus(q, s);
    }
  }

  lemma PlusEmpty(r: Poly, s: Poly)
    requires Plus(r, s) == {}
    ensures r == s
  {
    forall e: nat
      ensures e in r <==> e in s
    {
      assert e !in Plus(r, s);
    }
  }

  /** Division with remainder has one answer. */
  lemma RemainderUnique(r: Poly, s: Poly, d: Poly, g: Poly, n: nat)
    requires HasDegree(g, n) && IsRemainder(r, d, g, n) && IsRemainder(s, d, g, n)
    ensures r == s
  {
    hide Times, HasDegree;
    var p :| d == Plus(Times(p, g), r);
    var q :| d == Plus(Times(q, g), s);
    TimesDistributes(p, q, g);
    PlusTransposes(Times(p, g), r, Times(q, g), s);
    var m := Plus(r, s);
    ProductDegree(PlusBits(p, q), g, n);
    assert DegreeBelow(m, n);
    if m != {} {
      var e :| e >= n && HasDegree(m, e);
      LeadingTerm(m, e);
    }
    PlusEmpty(r, s);
  }

  lemma LeadingTerm(m: Poly, e: nat)
    requires HasDegree(m, e)
    ensures e in m
  {
  }
}
