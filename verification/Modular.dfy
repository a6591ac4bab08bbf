/** Congruence modulo a positive number, and powers. */
module Modular {

  /** `a` and `b` leave the same remainder modulo `m`. */
  ghost predicate Cong(a: int, b: int, m: int)
    requires m > 0
  {
    (a - b) % m == 0
  }

  lemma MultipleSize(k: int, m: int)
    requires m > 0
    ensures k >= 1 ==> k * m >= m
    ensures k <= -1 ==> k * m <= -m
  {
  }

  lemma MulOrder(x: nat, y: nat, b: nat)
    ensures x <= y ==> x * b <= y * b
  {
  }

  lemma MultipleIsZero(k: int, m: int)
    requires m > 0
    ensures (k * m) % m == 0
  {
    var q := (k * m) / m;
    assert (k - q) * m == (k * m) % m;
    MultipleSize(k - q, m);
  }

  lemma CongIntro(a: int, b: int, k: int, m: int)
    requires m > 0 && a == b + k * m
    ensures Cong(a, b, m)
  {
    MultipleIsZero(k, m);
  }

  lemma CongElim(a: int, b: int, m: int) returns (k: int)
    requires m > 0 && Cong(a, b, m)
    ensures a == b + k * m
  {
    k := (a - b) / m;
  }

  lemma CongSym(a: int, b: int, m: int)
    requires m > 0 && Cong(a, b, m)
    ensures Cong(b, a, m)
  {
    var k := CongElim(a, b, m);
    CongIntro(b, a, -k, m);
  }

  lemma CongTrans(a: int, b: int, c: int, m: int)
    requires m > 0 && Cong(a, b, m) && Cong(b, c, m)
    ensures Cong(a, c, m)
  {
    var k := CongElim(a, b, m);
    var l := CongElim(b, c, m);
    assert a == c + (k + l) * m;
    CongIntro(a, c, k + l, m);
  }

  lemma CongAdd(a: int, b: int, c: int, d: int, m: int)
    requires m > 0 && Cong(a, b, m) && Cong(c, d, m)
    ensures Cong(a + c, b + d, m)
  {
    var k := CongElim(a, b, m);
    var l := CongElim(c, d, m);
    assert a + c == b + d + (k + l) * m;
    CongIntro(a + c, b + d, k + l, m);
  }

  lemma CongSub(a: int, b: int, c: int, d: int, m: int)
    requires m > 0 && Cong(a, b, m) && Cong(c, d, m)
    ensures Cong(a - c, b - d, m)
  {
    var k := CongElim(a, b, m);
    var l := CongElim(c, d, m);
    assert a - c == b - d + (k - l) * m;
    CongIntro(a - c, b - d, k - l, m);
  }

  lemma CongMul(a: int, b: int, c: int, d: int, m: int)
    requires m > 0 && Cong(a, b, m) && Cong(c, d, m)
    ensures Cong(a * c, b * d, m)
  {
    var k := CongElim(a, b, m);
    var l := CongElim(c, d, m);
    var j := k * d + l * b + k * l * m;
    assert a * c == b * d + j * m;
    CongIntro(a * c, b * d, j, m);
  }

  /** A number is congruent to its remainder. */
  lemma CongMod(a: int, m: int)
    requires m > 0
    ensures Cong(a % m, a, m)
    ensures Cong(a, a % m, m)
  {
    CongIntro(a % m, a, -(a / m), m);
    CongIntro(a, a % m, a / m, m);
  }

  /** Congruent numbers have one remainder, and conversely. */
  lemma CongIffSameRemainder(a: int, b: int, m: int)
    requires m > 0
    ensures Cong(a, b, m) <==> a % m == b % m
  {
    if Cong(a, b, m) {
      CongMod(a, m);
      CongMod(b, m);
      CongTrans(a % m, a, b, m);
      CongTrans(a % m, b, b % m, m);
      var k := CongElim(a % m, b % m, m);
      MultipleSize(k, m);
    }
    if a % m == b % m {
      assert a - b == (a / m - b / m) * m;
      CongIntro(a, b, a / m - b / m, m);
    }
  }

  lemma SmallRemainder(a: int, m: int)
    requires 0 <= a < m
    ensures a % m == a
  {
  }

  lemma SmallCongIsEqual(a: int, b: int, m: int)
    requires 0 <= a < m && 0 <= b < m && Cong(a, b, m)
    ensures a == b
  {
    CongIffSameRemainder(a, b, m);
  }

  lemma ModMul(a: int, b: int, m: int)
    requires m > 0
    ensures (a % m * b) % m == (a * b) % m
    ensures (a * (b % m)) % m == (a * b) % m
    ensures (a % m * (b % m)) % m == (a * b) % m
  {
    CongMod(a, m);
    CongMod(b, m);
    CongMul(a % m, a, b, b, m);
    CongMul(a, a, b % m, b, m);
    CongMul(a % m, a, b % m, b, m);
    CongIffSameRemainder(a % m * b, a * b, m);
    CongIffSameRemainder(a * (b % m), a * b, m);
    CongIffSameRemainder(a % m * (b % m), a * b, m);
  }

  lemma QuotientUnique(u: nat, m: nat, q: int, r: nat)
    requires m > 0 && u == q * m + r && r < m
    ensures u / m == q && u % m == r
  {
    CongIntro(u, r, q, m);
    CongIffSameRemainder(u, r, m);
    SmallRemainder(r, m);
    MultipleSize(u / m - q, m);
    assert (u / m - q) * m == (u / m) * m - q * m;
  }

  /** A product of naturals is one. */
  function Product(a: nat, b: nat): nat {
    a * b
  }

  // ------------------------------------------------------------------ powers

  function Pow(b: int, e: nat): int {
    if e == 0 then 1 else b * Pow(b, e - 1)
  }

  /** num-bigint's `modpow`. */
  function ModPow(b: nat, e: nat, m: nat): (r: nat)
    requires m > 0
    ensures r < m
  {
    Pow(b, e) % m
  }

  lemma {:induction false} PowAdd(b: int, e: nat, f: nat)
    ensures Pow(b, e + f) == Pow(b, e) * Pow(b, f)
  {
    if e > 0 {
      PowAdd(b, e - 1, f);
    }
  }

  lemma {:induction false} PowMul(b: int, e: nat, f: nat)
    ensures Pow(b, e * f) == Pow(Pow(b, e), f)
  {
    if f == 0 {
      assert e * f == 0;
    } else {
      PowMul(b, e, f - 1);
      assert e * f == e + e * (f - 1);
      PowAdd(b, e, e * (f - 1));
    }
  }

  lemma {:induction false} PowOfProduct(a: int, b: int, e: nat)
    ensures Pow(a * b, e) == Pow(a, e) * Pow(b, e)
  {
    if e > 0 {
      PowOfProduct(a, b, e - 1);
      Regroup(a, b, Pow(a, e - 1), Pow(b, e - 1));
    }
  }

  lemma Regroup(a: int, b: int, x: int, y: int)
    ensures (a * b) * (x * y) == (a * x) * (b * y)
  {
    assert (a * b) * (x * y) == a * (b * (x * y));
    assert b * (x * y) == x * (b * y);
    assert a * (x * (b * y)) == (a * x) * (b * y);
  }

  lemma {:induction false} PowOne(e: nat)
    ensures Pow(1, e) == 1
  {
    if e > 0 { PowOne(e - 1); }
  }

  lemma {:induction false} PowPositive(b: int, e: nat)
    requires b > 0
    ensures Pow(b, e) > 0
  {
    if e > 0 { PowPositive(b, e - 1); }
  }

  lemma {:induction false} CongPow(a: int, b: int, e: nat, m: int)
    requires m > 0 && Cong(a, b, m)
    ensures Cong(Pow(a, e), Pow(b, e), m)
  {
    if e > 0 {
      CongPow(a, b, e - 1, m);
      CongMul(a, b, Pow(a, e - 1), Pow(b, e - 1), m);
    }
  }

  /** Exponents combine through a reduction: (b^e mod m)^f mod m is b^(e·f) mod m. */
  lemma ModPowMul(b: nat, e: nat, f: nat, m: nat)
    requires m > 0
    ensures ModPow(ModPow(b, e, m), f, m) == ModPow(b, e * f, m)
  {
    PowMul(b, e, f);
    CongMod(Pow(b, e), m);
    CongPow(Pow(b, e) % m, Pow(b, e), f, m);
    CongIffSameRemainder(Pow(Pow(b, e) % m, f), Pow(Pow(b, e), f), m);
  }
}
