/** A curve small enough to compute with, on which everything assumed of a curve is proved. */
module SmallCurve {
  import opened Modular
  import opened Primes
  import opened Curves
  import Ecdsa

  /** y² = x³ + x + 1 over the field of three elements; its base point has order two. */
  const SMALL := Params(3, 1, 1, (1, 0), 2)

  const A := Affine(0, 1)
  const B := Affine(1, 0)
  const C := Affine(0, 2)

  lemma SmallPrimes()
    ensures IsPrime(2) && IsPrime(3)
  {
    assert 3 % 2 != 0;
  }

  /** Infinity, A, B and C are all its points. */
  lemma OnlyPoints(pt: Point)
    requires IsPrime(3) && OnCurve(pt, SMALL)
    ensures pt == Infinity || pt == A || pt == B || pt == C
  {
    match pt {
      case Infinity =>
      case Affine(x, y) => OnlyCoordinates(x, y);
    }
  }

  lemma OnlyCoordinates(x: nat, y: nat)
    requires IsPrime(3) && OnCurve(Affine(x, y), SMALL)
    ensures (x == 0 && (y == 1 || y == 2)) || (x == 1 && y == 0)
  {
    Values(x, y);
    RootsOnly(x, y, y * y, Cubic(x, SMALL));
  }

  lemma Values(x: nat, y: nat)
    requires x < 3 && y < 3
    ensures y * y == if y == 0 then 0 else if y == 1 then 1 else 4
    ensures Cubic(x, SMALL) == if x == 0 then 1 else if x == 1 then 3 else 11
  {
    assert x == 0 || x == 1 || x == 2;
    assert y == 0 || y == 1 || y == 2;
  }

  lemma RootsOnly(x: nat, y: nat, square: int, cubic: int)
    requires x < 3 && y < 3 && Cong(square, cubic, 3)
    requires square == if y == 0 then 0 else if y == 1 then 1 else 4
    requires cubic == if x == 0 then 1 else if x == 1 then 3 else 11
    ensures (x == 0 && (y == 1 || y == 2)) || (x == 1 && y == 0)
  {
  }

  /** A quotient is the one number whose product with the denominator is right. */
  lemma QuotientIs(num: int, den: int, p: int, s: nat)
    requires IsPrime(p) && den % p != 0 && s < p && Cong(den * s, num, p)
    ensures Quotient(num, den, p) == s
  {
    var q := Quotient(num, den, p);
    assert q * den == den * q;
    CongSym(den * s, num, p);
    CongTrans(den * q, num, den * s, p);
    CancelFactor(den, q, s, p);
    SmallCongIsEqual(q, s, p);
  }

  lemma Doubles()
    requires IsPrime(3)
    ensures Plus(A, A, SMALL) == B && Plus(B, B, SMALL) == Infinity && Plus(C, C, SMALL) == B
  {
    QuotientIs(1, 2, 3, 2);
    assert Reflect(2, 0, 1, 0, 3) == B;
    QuotientIs(1, 4, 3, 1);
    assert Reflect(1, 0, 2, 0, 3) == B;
  }

  lemma Sums()
    requires IsPrime(3)
    ensures Plus(A, B, SMALL) == C && Plus(C, B, SMALL) == A && Plus(A, C, SMALL) == Infinity
  {
    QuotientIs(-1, 1, 3, 2);
    assert Reflect(2, 0, 1, 1, 3) == C;
    QuotientIs(-2, 1, 3, 1);
    assert Reflect(1, 0, 2, 1, 3) == A;
  }

  /** Three points in a row add to the same either way, given what they add to. */
  lemma Associates(l: Point, r: Point, t: Point, lr: Point, rt: Point, c: Params)
    requires Field(c) && ReducedPoint(l, c) && ReducedPoint(r, c) && ReducedPoint(t, c)
    requires Plus(l, r, c) == lr && Plus(r, t, c) == rt && Plus(lr, t, c) == Plus(l, rt, c)
    ensures AssociativeAt(l, r, t, c)
  {
  }


  /** The sum of two points, as a table. */
  function Table(l: Point, r: Point): Point {
    if l == Infinity then r
    else if r == Infinity then l
    else if l == A then (if r == A then B else if r == B then C else Infinity)
    else if l == B then (if r == A then C else if r == B then Infinity else A)
    else (if r == A then Infinity else if r == B then A else B)
  }

  predicate InTable(pt: Point) {
    pt == Infinity || pt == A || pt == B || pt == C
  }

  lemma PlusIsTable(l: Point, r: Point)
    requires IsPrime(3) && InTable(l) && InTable(r)
    ensures ReducedPoint(l, SMALL) && ReducedPoint(r, SMALL) && InTable(Table(l, r))
    ensures Plus(l, r, SMALL) == Table(l, r)
  {
    if l == Infinity || r == Infinity {
    } else if l == r {
      Doubles();
    } else {
      Sums();
      PlusCommutes(l, r, SMALL);
    }
  }

  lemma TableAssociates(l: Point, r: Point, t: Point)
    requires InTable(l) && InTable(r) && InTable(t)
    ensures Table(Table(l, r), t) == Table(l, Table(r, t))
  {
  }

  lemma SmallAssociates(l: Point, r: Point, t: Point)
    requires IsPrime(3) && InTable(l) && InTable(r) && InTable(t)
    ensures AssociativeAt(l, r, t, SMALL)
  {
    PlusIsTable(l, r);
    PlusIsTable(r, t);
    PlusIsTable(Table(l, r), t);
    PlusIsTable(l, Table(r, t));
    TableAssociates(l, r, t);
    Associates(l, r, t, Table(l, r), Table(r, t), SMALL);
  }

  /** So the hypotheses of the ECDSA theorems are consistent: this curve meets every one of them. */
  lemma HypothesesHold()
    ensures Ecdsa.CurveFacts(SMALL)
  {
    SmallPrimes();
    forall l, r, t ensures AssociativeAt(l, r, t, SMALL) {
      if OnCurve(l, SMALL) && OnCurve(r, SMALL) && OnCurve(t, SMALL) {
        OnlyPoints(l);
        OnlyPoints(r);
        OnlyPoints(t);
        SmallAssociates(l, r, t);
      }
    }
    Doubles();
    var g := Ecdsa.Generator(SMALL);
    assert Cubic(1, SMALL) == 3;
    assert Multiple(1, g, SMALL) == Plus(Multiple(0, g, SMALL), g, SMALL);
    assert Multiple(2, g, SMALL) == Plus(Multiple(1, g, SMALL), g, SMALL);
  }
}
