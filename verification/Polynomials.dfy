/** Polynomials over the field with two elements, their division, and words read as polynomials. */
module Polynomials {
  import opened LinearMaps

  /** The powers of x with coefficient one. */
  type Poly = set<nat>

  function Add(a: Poly, b: Poly): (s: Poly)
    ensures forall e :: e in s <==> (e in a) != (e in b)
  {
    (a - b) + (b - a)
  }

  /** x * a. */
  function Up(a: Poly): (u: Poly)
    ensures forall e :: e in u <==> e > 0 && e - 1 in a
  {
    set e | e in a :: e + 1
  }

  /** x^k * a. */
  function UpBy(a: Poly, k: nat): Poly {
    if k == 0 then a else Up(UpBy(a, k - 1))
  }

  function Term(present: bool, a: Poly): Poly {
    if present then a else {}
  }

  lemma AddPairs(a: Poly, b: Poly, c: Poly, d: Poly)
    ensures Add(Add(a, b), Add(c, d)) == Add(Add(a, c), Add(b, d))
  {
  }

  lemma UpAdds(a: Poly, b: Poly)
    ensures Up(Add(a, b)) == Add(Up(a), Up(b))
  {
  }

  lemma TermsAdd(p: bool, q: bool, g: Poly)
    ensures Term(p != q, g) == Add(Term(p, g), Term(q, g))
  {
  }

  // ----- Division -----

  /** q * g, by Horner's rule; q[k] is the coefficient of x^k. */
  function Product(q: seq<bool>, g: Poly): Poly {
    if |q| == 0 then {} else Add(Up(Product(q[1..], g)), Term(q[0], g))
  }

  predicate HasDegree(g: Poly, n: nat) {
    n in g && forall e :: e in g ==> e <= n
  }

  predicate Below(r: Poly, n: nat) {
    forall e :: e in r ==> e < n
  }

  /** r is a remainder of m modulo g. */
  ghost predicate IsRemainder(m: Poly, g: Poly, n: nat, r: Poly) {
    HasDegree(g, n) && Below(r, n) && exists q :: Add(m, r) == Product(q, g)
  }

  function Sum(p: seq<bool>, q: seq<bool>): seq<bool> {
    if |p| == 0 then q else if |q| == 0 then p else [p[0] != q[0]] + Sum(p[1..], q[1..])
  }

  lemma {:induction false} ProductOfSum(p: seq<bool>, q: seq<bool>, g: Poly)
    ensures Product(Sum(p, q), g) == Add(Product(p, g), Product(q, g))
  {
    if |p| > 0 && |q| > 0 {
      var a, b := Product(p[1..], g), Product(q[1..], g);
      ProductOfSum(p[1..], q[1..], g);
      assert Sum(p, q)[1..] == Sum(p[1..], q[1..]);
      UpAdds(a, b);
      TermsAdd(p[0], q[0], g);
      AddPairs(Up(a), Term(p[0], g), Up(b), Term(q[0], g));
    }
  }

  lemma FirstTerm(rest: Poly, g: Poly, n: nat, present: bool)
    requires HasDegree(g, n)
    ensures rest == {} && !present ==> Add(Up(rest), Term(present, g)) == {}
    ensures rest == {} && present ==> n in Add(Up(rest), Term(present, g))
    ensures Below(Add(Up(rest), Term(present, g)), n) ==> Below(rest, n)
  {
    forall e | e in rest && e >= n ensures e + 1 in Add(Up(rest), Term(present, g)) {
    }
  }

  /** A multiple of g is zero or has at least the degree of g. */
  lemma {:induction false} ProductDegree(q: seq<bool>, g: Poly, n: nat)
    requires HasDegree(g, n) && Below(Product(q, g), n)
    ensures Product(q, g) == {}
  {
    if |q| > 0 {
      var rest := Product(q[1..], g);
      FirstTerm(rest, g, n, q[0]);
      ProductDegree(q[1..], g, n);
    }
  }

  lemma Cancel(m: Poly, r: Poly, s: Poly, n: nat)
    requires Below(r, n) && Below(s, n)
    ensures Below(Add(Add(m, r), Add(m, s)), n)
    ensures Add(Add(m, r), Add(m, s)) == {} ==> r == s
  {
    assert Add(Add(m, r), Add(m, s)) == Add(r, s);
    assert Add(r, s) == {} ==> forall e :: e in r <==> e in s;
  }

  /** There is one remainder. */
  lemma OneRemainder(m: Poly, g: Poly, n: nat, r: Poly, s: Poly)
    requires IsRemainder(m, g, n, r) && IsRemainder(m, g, n, s)
    ensures r == s
  {
    var p :| Add(m, r) == Product(p, g);
    var q :| Add(m, s) == Product(q, g);
    ProductOfSum(p, q, g);
    Cancel(m, r, s, n);
    ProductDegree(Sum(p, q), g, n);
  }

  // ----- Words -----

  /** n bits of a word as a polynomial; the lowest bit is the coefficient of x^(n - 1). */
  function Coeffs<W>(low: W -> bool, half: W -> W, c: W, n: nat): (p: Poly)
    ensures Below(p, n)
    decreases n
  {
    if n == 0 then {} else Term(low(c), {n - 1}) + Coeffs(low, half, half(c), n - 1)
  }

  ghost predicate XorsAt<W>(low: W -> bool, half: W -> W, xor: (W, W) -> W, a: W, b: W) {
    low(xor(a, b)) == (low(a) != low(b)) && half(xor(a, b)) == xor(half(a), half(b))
  }

  lemma TopTerms(a: bool, b: bool, n: nat, p: Poly, q: Poly)
    requires Below(p, n) && Below(q, n)
    ensures Term(a != b, {n}) + Add(p, q) == Add(Term(a, {n}) + p, Term(b, {n}) + q)
  {
  }

  lemma {:induction false} CoeffsXor<W(!new)>(low: W -> bool, half: W -> W, xor: (W, W) -> W, a: W, b: W, n: nat)
    requires forall x, y :: XorsAt(low, half, xor, x, y)
    ensures Coeffs(low, half, xor(a, b), n) == Add(Coeffs(low, half, a, n), Coeffs(low, half, b, n))
    decreases n
  {
    assert XorsAt(low, half, xor, a, b);
    if n > 0 {
      CoeffsXor(low, half, xor, half(a), half(b), n - 1);
      TopTerms(low(a), low(b), n - 1, Coeffs(low, half, half(a), n - 1), Coeffs(low, half, half(b), n - 1));
    }
  }

  lemma UpTop(a: bool, n: nat, p: Poly, last: Poly)
    requires last <= {0}
    ensures Term(a, {n + 1}) + (Up(p) + last) == Up(Term(a, {n}) + p) + last
  {
  }

  /** One bit more is one power up, with that bit in front of x^0. */
  lemma {:induction false} CoeffsUp<W>(low: W -> bool, half: W -> W, c: W, n: nat)
    ensures Coeffs(low, half, c, n + 1) == Up(Coeffs(low, half, c, n)) + Term(low(Iterate(half, c, n)), {0})
    decreases n
  {
    if n > 0 {
      CoeffsUp(low, half, half(c), n - 1);
      UpTop(low(c), n - 1, Coeffs(low, half, half(c), n - 1), Term(low(Iterate(half, c, n)), {0}));
    }
  }

  lemma FourTimes<T>(f: T -> T, c: T, n: nat)
    ensures Iterate(f, c, n + 4) == Iterate(f, f(f(f(f(c)))), n)
  {
    assert Iterate(f, c, n + 4) == Iterate(f, f(c), n + 3) == Iterate(f, f(f(c)), n + 2);
    assert Iterate(f, f(f(c)), n + 2) == Iterate(f, f(f(f(c))), n + 1);
  }

  lemma {:induction false} ByFours<T(!new)>(f: T -> T, g: T -> T, c: T, k: nat)
    requires forall x :: g(x) == f(f(f(f(x))))
    ensures Iterate(f, c, 4 * k) == Iterate(g, c, k)
    decreases k
  {
    if k > 0 {
      FourTimes(f, c, 4 * (k - 1));
      ByFours(f, g, g(c), k - 1);
    }
  }

  /** Four terms, the highest first. */
  function Four(b3: bool, b2: bool, b1: bool, b0: bool, n: nat): Poly {
    Term(b3, {n + 3}) + Term(b2, {n + 2}) + Term(b1, {n + 1}) + Term(b0, {n})
  }

  /** Four bits of a word, given the words shifted by one to four. */
  lemma FourBits<W>(low: W -> bool, half: W -> W, n: nat, c: W, c1: W, c2: W, c3: W, c4: W)
    requires c1 == half(c) && c2 == half(c1) && c3 == half(c2) && c4 == half(c3)
    ensures Coeffs(low, half, c, n + 4) == Four(low(c), low(c1), low(c2), low(c3), n) + Coeffs(low, half, c4, n)
  {
    assert Coeffs(low, half, c, n + 4) == Term(low(c), {n + 3}) + Coeffs(low, half, c1, n + 3);
    assert Coeffs(low, half, c1, n + 3) == Term(low(c1), {n + 2}) + Coeffs(low, half, c2, n + 2);
    assert Coeffs(low, half, c2, n + 2) == Term(low(c2), {n + 1}) + Coeffs(low, half, c3, n + 1);
    assert Coeffs(low, half, c3, n + 1) == Term(low(c3), {n}) + Coeffs(low, half, c4, n);
  }

  /** A word without bits is zero. */
  lemma {:induction false} NoCoeffs<W(!new)>(low: W -> bool, half: W -> W, zero: W, c: W, n: nat)
    requires forall x :: half(x) == zero && !low(x) ==> x == zero
    requires Coeffs(low, half, c, n) == {} && Iterate(half, c, n) == zero
    ensures c == zero
    decreases n
  {
    if n > 0 {
      assert !low(c) by {
        assert low(c) ==> n - 1 in Coeffs(low, half, c, n);
      }
      NoCoeffs(low, half, zero, half(c), n - 1);
    }
  }
}
