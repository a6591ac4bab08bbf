/** Inverses modulo a prime, Euclid's lemma and Fermat's little theorem. */
module Primes {
  import opened Modular

  ghost predicate IsPrime(p: int) {
    p >= 2 && forall d :: 2 <= d < p ==> p % d != 0
  }

  /** Every nonzero residue of a prime has an inverse: divide p by a and descend. */
  lemma {:induction false} InverseExists(a: int, p: int) returns (b: int)
    requires IsPrime(p) && 0 < a < p
    ensures Cong(a * b, 1, p)
    decreases a
  {
    if a == 1 {
      b := 1;
      assert a * b - 1 == 0;
    } else {
      var q, r := DivideByPrime(a, p);
      var s := InverseExists(r, p);
      b := DescentStep(a, p, q, r, s);
    }
  }

  lemma DivideByPrime(a: int, p: int) returns (q: int, r: int)
    requires IsPrime(p) && 1 < a < p
    ensures p == a * q + r && 0 < r < a
  {
    q, r := p / a, p % a;
  }

  /** From an inverse of r, where p = aq + r, one of a. */
  lemma DescentStep(a: int, p: int, q: int, r: int, s: int) returns (b: int)
    requires p > 0 && p == a * q + r && Cong(r * s, 1, p)
    ensures Cong(a * b, 1, p)
  {
    b := -q * s;
    var k := CongElim(r * s, 1, p);
    DescentProduct(a, p, q, r, s, k);
    CongIntro(a * b, 1, k - s, p);
  }

  lemma DescentProduct(a: int, p: int, q: int, r: int, s: int, k: int)
    requires p == a * q + r && r * s == 1 + k * p
    ensures a * (-q * s) == 1 + (k - s) * p
  {
    assert (a * q + r) * s == a * q * s + r * s;
    assert a * (-q * s) == -(a * q * s);
    assert (k - s) * p == k * p - p * s;
  }

  lemma {:induction false} CancelFactor(a: int, x: int, y: int, p: int)
    requires IsPrime(p) && a % p != 0 && Cong(a * x, a * y, p)
    ensures Cong(x, y, p)
  {
    var b := InverseExists(a % p, p);
    CongMod(a, p);
    CongMul(a, a % p, b, b, p);
    CongTrans(a * b, a % p * b, 1, p);
    CongMul(a * x, a * y, b, b, p);
    SwapFactors(a, x, b);
    SwapFactors(a, y, b);
    CancelUnit(a * b, x, y, p);
  }

  lemma SwapFactors(a: int, x: int, b: int)
    ensures a * x * b == a * b * x
  {
  }

  lemma CancelUnit(u: int, x: int, y: int, p: int)
    requires p > 0 && Cong(u, 1, p) && Cong(u * x, u * y, p)
    ensures Cong(x, y, p)
  {
    CongMul(u, 1, x, x, p);
    CongMul(u, 1, y, y, p);
    CongSym(u * x, 1 * x, p);
    CongTrans(x, u * x, u * y, p);
    CongTrans(x, u * y, y, p);
  }

  /** Euclid's lemma. */
  lemma {:induction false} PrimeDividesProduct(a: int, b: int, p: int)
    requires IsPrime(p) && (a * b) % p == 0
    ensures a % p == 0 || b % p == 0
  {
    if a % p != 0 {
      assert a * 0 == 0;
      CancelFactor(a, b, 0, p);
    }
  }

  lemma {:induction false} PrimeDividesPower(a: int, e: nat, p: int)
    requires IsPrime(p) && a % p != 0
    ensures Pow(a, e) % p != 0
  {
    if e > 0 {
      PrimeDividesPower(a, e - 1, p);
      if Pow(a, e) % p == 0 {
        PrimeDividesProduct(a, Pow(a, e - 1), p);
      }
    }
  }

  /** Two different primes that divide a number divide it together. */
  lemma CoprimeDivisors(x: int, p: int, q: int)
    requires IsPrime(p) && IsPrime(q) && p != q
    requires x % p == 0 && x % q == 0
    ensures x % (p * q) == 0
  {
    var k := x / p;
    PrimeNotMultiple(p, q);
    PrimeDividesProduct(p, k, q);
    NestedMultiple(p, q, k / q);
    assert x == p * k && k == q * (k / q);
  }

  lemma PrimeNotMultiple(p: int, q: int)
    requires IsPrime(p) && IsPrime(q) && p != q
    ensures p % q != 0
  {
    if p < q { SmallRemainder(p, q); }
  }

  lemma NestedMultiple(p: int, q: int, l: int)
    requires p > 0 && q > 0
    ensures p * q > 0 && (p * (q * l)) % (p * q) == 0
  {
    assert p * (q * l) == l * (p * q);
    MultipleIsZero(l, p * q);
  }

  // ------------------------------------------------- Fermat's little theorem

  function Choose(n: nat, k: nat): nat {
    if k == 0 then 1 else if n == 0 then 0 else Choose(n - 1, k - 1) + Choose(n - 1, k)
  }

  /** The sum of the binomial terms C(n, i)·a^i for i < k. */
  function BinomialSum(n: nat, a: nat, k: nat): int {
    if k == 0 then 0 else BinomialSum(n, a, k - 1) + Choose(n, k - 1) * Pow(a, k - 1)
  }

  lemma {:induction false} ChooseBeyond(n: nat, k: nat)
    requires k > n
    ensures Choose(n, k) == 0
  {
    if n > 0 {
      ChooseBeyond(n - 1, k - 1);
      ChooseBeyond(n - 1, k);
    }
  }

  lemma {:induction false} ChooseAll(n: nat)
    ensures Choose(n, n) == 1
  {
    if n > 0 {
      ChooseAll(n - 1);
      ChooseBeyond(n - 1, n);
    }
  }

  lemma {:induction false} BinomialPascal(n: nat, a: nat, k: nat)
    ensures BinomialSum(n + 1, a, k + 1) == BinomialSum(n, a, k + 1) + a * BinomialSum(n, a, k)
  {
    if k > 0 {
      BinomialPascal(n, a, k - 1);
      PascalTerm(a, Pow(a, k - 1), Choose(n, k - 1), Choose(n, k), BinomialSum(n, a, k - 1));
    }
  }

  lemma PascalTerm(a: int, x: int, c: int, d: int, s: int)
    ensures (c + d) * (a * x) + a * s == d * (a * x) + a * (s + c * x)
  {
    assert (c + d) * (a * x) == d * (a * x) + c * (a * x);
    assert c * (a * x) == a * (c * x);
  }

  lemma {:induction false} BinomialTheorem(n: nat, a: nat)
    ensures Pow(a + 1, n) == BinomialSum(n, a, n + 1)
  {
    if n == 0 {
      assert BinomialSum(0, a, 1) == BinomialSum(0, a, 0) + Choose(0, 0) * Pow(a, 0);
    } else {
      BinomialTheorem(n - 1, a);
      BinomialPascal(n - 1, a, n);
      ChooseBeyond(n - 1, n);
      var s := BinomialSum(n - 1, a, n);
      assert BinomialSum(n - 1, a, n + 1) == s;
      assert (a + 1) * s == s + a * s;
    }
  }

  lemma {:induction false} ChooseAbsorbs(n: nat, k: nat)
    requires n >= 1 && k >= 1
    ensures k * Choose(n, k) == n * Choose(n - 1, k - 1)
  {
    if n == 1 {
      if k >= 2 {
        ChooseBeyond(0, k - 1);
        ChooseBeyond(1, k);
      }
    } else {
      ChooseAbsorbs(n - 1, k);
      if k >= 2 {
        ChooseAbsorbs(n - 1, k - 1);
        var u, v, w := Choose(n - 2, k - 2), Choose(n - 2, k - 1), Choose(n - 1, k - 1);
        AbsorbStep(n, k, u, v, w, Choose(n - 1, k));
      }
    }
  }

  lemma AbsorbStep(n: int, k: int, u: int, v: int, w: int, z: int)
    requires (k - 1) * w == (n - 1) * u && k * z == (n - 1) * v && w == u + v
    ensures k * (w + z) == n * w
  {
    assert k * (w + z) == (k - 1) * w + w + k * z;
    assert (n - 1) * u + (n - 1) * v == (n - 1) * (u + v);
    assert n * w == (n - 1) * w + w;
  }

  lemma PrimeDividesChoose(p: nat, k: nat)
    requires IsPrime(p) && 1 <= k < p
    ensures Choose(p, k) % p == 0
  {
    ChooseAbsorbs(p, k);
    PrimeDividesCofactor(k, Choose(p, k), Choose(p - 1, k - 1), p);
  }

  lemma PrimeDividesCofactor(k: nat, x: int, y: int, p: nat)
    requires IsPrime(p) && 1 <= k < p && k * x == p * y
    ensures x % p == 0
  {
    MultipleIsZero(y, p);
    assert k * x == y * p;
    PrimeDividesProduct(k, x, p);
    SmallRemainder(k, p);
  }

  lemma {:induction false} MiddleTermsVanish(p: nat, a: nat, k: nat)
    requires IsPrime(p) && 1 <= k <= p
    ensures Cong(BinomialSum(p, a, k), 1, p)
  {
    if k == 1 {
      assert BinomialSum(p, a, 1) == BinomialSum(p, a, 0) + Choose(p, 0) * Pow(a, 0);
    } else {
      MiddleTermsVanish(p, a, k - 1);
      PrimeDividesChoose(p, k - 1);
      var c, x := Choose(p, k - 1), Pow(a, k - 1);
      CongMul(c, 0, x, x, p);
      CongAdd(BinomialSum(p, a, k - 1), 1, c * x, 0, p);
    }
  }

  lemma {:induction false} FrobeniusFixes(a: nat, p: nat)
    requires IsPrime(p)
    ensures Cong(Pow(a, p), a, p)
  {
    if a > 0 {
      var b: nat := a - 1;
      FrobeniusFixes(b, p);
      FrobeniusStep(b, p, BinomialSum(p, b, p), Pow(b, p));
    } else {
      assert Pow(0, p) == 0 * Pow(0, p - 1);
    }
  }

  lemma FrobeniusStep(b: nat, p: nat, middle: int, power: int)
    requires IsPrime(p) && middle == BinomialSum(p, b, p) && power == Pow(b, p) && Cong(power, b, p)
    ensures Cong(Pow(b + 1, p), b + 1, p)
  {
    BinomialTheorem(p, b);
    MiddleTermsVanish(p, b, p);
    ChooseAll(p);
    assert BinomialSum(p, b, p + 1) == middle + 1 * power;
    CongAdd(middle, 1, power, b, p);
  }

  /** Fermat's little theorem: a^(p−1) ≡ 1 when p does not divide a. */
  lemma FermatLittle(a: nat, p: nat)
    requires IsPrime(p) && a % p != 0
    ensures Cong(Pow(a, p - 1), 1, p)
  {
    FrobeniusFixes(a, p);
    assert a * 1 == a;
    CancelFactor(a, Pow(a, p - 1), 1, p);
  }

  /** modpow(p − 2) inverts: this is how the source divides. */
  lemma FermatInverse(a: nat, p: nat)
    requires IsPrime(p) && a % p != 0
    ensures Cong(a * ModPow(a, p - 2, p), 1, p)
  {
    FermatLittle(a, p);
    CongMod(Pow(a, p - 2), p);
    CongMul(a, a, ModPow(a, p - 2, p), Pow(a, p - 2), p);
    CongTrans(a * ModPow(a, p - 2, p), Pow(a, p - 1), 1, p);
  }
}
