/** A polynomial of degree d has at most d roots modulo a prime. */
module Polynomials {
  import opened Modular
  import opened Primes

  /** The value at x of the polynomial with these coefficients, the constant one first. */
  function Eval(c: seq<int>, x: int): int {
    if c == [] then 0 else c[0] + x * Eval(c[1..], x)
  }

  /** The quotient by x − a. */
  function Quotient(c: seq<int>, a: int): (q: seq<int>)
    ensures |q| == if c == [] then 0 else |c| - 1
  {
    if |c| <= 1 then [] else [Eval(c[1..], a)] + Quotient(c[1..], a)
  }

  lemma {:induction false} QuotientExact(c: seq<int>, a: int, x: int)
    ensures Eval(c, x) - Eval(c, a) == (x - a) * Eval(Quotient(c, a), x)
  {
    if |c| == 1 {
      assert Eval(c[1..], x) == 0 && Eval(c[1..], a) == 0;
      assert Eval(c, x) == c[0] + x * 0 && Eval(c, a) == c[0] + a * 0;
    } else if |c| > 1 {
      var d, q := c[1..], Quotient(c[1..], a);
      QuotientExact(d, a, x);
      assert Quotient(c, a)[1..] == q;
      QuotientStep(x, a, Eval(d, x), Eval(d, a), Eval(q, x));
    }
  }

  lemma QuotientStep(x: int, a: int, dx: int, da: int, q: int)
    requires dx - da == (x - a) * q
    ensures x * dx - a * da == (x - a) * (da + x * q)
  {
    assert x * dx - a * da == x * (dx - da) + (x - a) * da;
    assert x * ((x - a) * q) == (x - a) * (x * q);
    assert (x - a) * (da + x * q) == (x - a) * da + (x - a) * (x * q);
  }

  lemma {:induction false} QuotientLeads(c: seq<int>, a: int)
    requires |c| >= 2
    ensures Quotient(c, a)[|c| - 2] == c[|c| - 1]
  {
    var d := c[1..];
    if |c| == 2 {
      assert Eval(d, a) == d[0] + a * Eval(d[1..], a) && d[1..] == [];
      assert Quotient(c, a) == [Eval(d, a)] + Quotient(d, a);
    } else {
      QuotientLeads(d, a);
      assert Quotient(c, a)[|c| - 2] == Quotient(d, a)[|d| - 2];
    }
  }

  ghost predicate Roots(c: seq<int>, roots: seq<int>, p: int)
    requires p > 0
  {
    forall i :: 0 <= i < |roots| ==> Cong(Eval(c, roots[i]), 0, p)
  }

  ghost predicate Incongruent(xs: seq<int>, p: int)
    requires p > 0
  {
    forall i, j :: 0 <= i < j < |xs| ==> !Cong(xs[j], xs[i], p)
  }

  /** A polynomial with leading coefficient 1 has fewer incongruent roots than coefficients. */
  lemma {:induction false} RootsAreFew(c: seq<int>, roots: seq<int>, p: int)
    requires IsPrime(p) && c != [] && c[|c| - 1] == 1
    requires Roots(c, roots, p) && Incongruent(roots, p)
    ensures |roots| < |c|
    decreases |c|
  {
    if roots != [] {
      var a, others := roots[0], roots[1..];
      assert Cong(Eval(c, a), 0, p);
      if |c| == 1 {
        assert Eval(c[1..], a) == 0;
        assert Eval(c, a) == 1 + a * 0;
        SmallRemainder(1, p);
        assert false;
      } else {
        forall i | 0 <= i < |others| ensures Cong(Eval(Quotient(c, a), others[i]), 0, p) {
          assert others[i] == roots[i + 1];
          OtherRoot(c, a, others[i], p);
        }
        QuotientLeads(c, a);
        OthersIncongruent(roots, p);
        RootsAreFew(Quotient(c, a), others, p);
      }
    }
  }

  lemma OthersIncongruent(xs: seq<int>, p: int)
    requires p > 0 && Incongruent(xs, p) && xs != []
    ensures Incongruent(xs[1..], p)
  {
    assert forall i :: 0 <= i < |xs| - 1 ==> xs[1..][i] == xs[i + 1];
  }

  /** Another root is a root of the quotient. */
  lemma OtherRoot(c: seq<int>, a: int, x: int, p: int)
    requires IsPrime(p) && Cong(Eval(c, a), 0, p) && Cong(Eval(c, x), 0, p) && !Cong(x, a, p)
    ensures Cong(Eval(Quotient(c, a), x), 0, p)
  {
    var q := Eval(Quotient(c, a), x);
    QuotientExact(c, a, x);
    CongSub(Eval(c, x), 0, Eval(c, a), 0, p);
    PrimeDividesProduct(x - a, q, p);
  }

  // -------------------------------------------------------------- the roots of unity

  /** The polynomial xᵉ. */
  function Monomial(e: nat): (c: seq<int>)
    ensures |c| == e + 1 && c[e] == 1
  {
    if e == 0 then [1] else [0] + Monomial(e - 1)
  }

  lemma {:induction false} MonomialValue(e: nat, x: int)
    ensures Eval(Monomial(e), x) == Pow(x, e)
  {
    var c := Monomial(e);
    if e == 0 {
      assert Eval(c[1..], x) == 0;
      assert Eval(c, x) == 1 + x * 0;
    } else {
      MonomialValue(e - 1, x);
      assert c[1..] == Monomial(e - 1);
    }
  }

  /** Modulo a prime there are at most q incongruent solutions of x^q ≡ 1. */
  lemma RootsOfUnityAreFew(q: nat, roots: seq<int>, p: int)
    requires IsPrime(p) && q > 0 && Incongruent(roots, p)
    requires forall i :: 0 <= i < |roots| ==> Cong(Pow(roots[i], q), 1, p)
    ensures |roots| <= q
  {
    var c := [-1] + Monomial(q - 1);
    forall i | 0 <= i < |roots| ensures Cong(Eval(c, roots[i]), 0, p) {
      var x := roots[i];
      MonomialValue(q - 1, x);
      assert c[1..] == Monomial(q - 1);
      assert Cong(Pow(x, q), 1, p);
      assert Eval(c, x) == Pow(x, q) - 1;
    }
    RootsAreFew(c, roots, p);
  }
}
