/**
 Short Weierstrass curves y² = x³ + ax + b over a prime field: the affine
 chord-and-tangent law as the reference, and the Jacobian arithmetic of the
 big-integer ECDSA verifier, which refines it.
 */
module Curves {
  import opened Modular
  import opened Primes
  import opened Wrappers

  datatype Params = Params(p: nat, a: nat, b: nat, g: (nat, nat), n: nat)

  datatype Point = Infinity | Affine(x: nat, y: nat)

  /** What the proofs need of the field: p is a prime other than 2. */
  ghost predicate Field(c: Params) {
    IsPrime(c.p) && c.p > 2
  }

  ghost predicate ReducedPoint(pt: Point, c: Params) {
    pt.Affine? ==> pt.x < c.p && pt.y < c.p
  }

  /** x³ + ax + b. */
  function Cubic(x: int, c: Params): int {
    x * x * x + c.a * x + c.b
  }

  ghost predicate OnCurve(pt: Point, c: Params)
    requires Field(c)
  {
    ReducedPoint(pt, c) &&
    (pt.Affine? ==> Cong(pt.y * pt.y, Cubic(pt.x, c), c.p))
  }

  // ----------------------------------------------------- the affine reference

  ghost function Inverse(v: int, p: int): (w: nat)
    requires IsPrime(p) && v % p != 0
    ensures w < p && Cong(v * w, 1, p)
  {
    ReducedInverse(v, p);
    var w :| 0 <= w < p && Cong(v * w, 1, p);
    w
  }

  lemma ReducedInverse(v: int, p: int)
    requires IsPrime(p) && v % p != 0
    ensures exists w :: 0 <= w < p && Cong(v * w, 1, p)
  {
    var b := InverseExists(v % p, p);
    CongMod(v, p);
    CongMod(b, p);
    CongMul(v, v % p, b % p, b, p);
    CongTrans(v * (b % p), v % p * b, 1, p);
  }

  /** num / den in the field. */
  ghost function Quotient(num: int, den: int, p: int): (s: nat)
    requires IsPrime(p) && den % p != 0
    ensures s < p && Cong(s * den, num, p)
  {
    var w := Inverse(den, p);
    var s := num * w % p;
    CongMod(num * w, p);
    CongMul(s, num * w, den, den, p);
    CongMul(num, num, den * w, 1, p);
    assert num * w * den == num * (den * w) && num * 1 == num;
    CongTrans(s * den, num * w * den, num, p);
    s
  }

  /** The third intersection of the line of slope `s` through (x1, y1), reflected. */
  ghost function Reflect(s: int, x1: int, y1: int, x2: int, p: int): Point
    requires p > 0
  {
    var x3 := (s * s - x1 - x2) % p;
    Affine(x3, (s * (x1 - x3) - y1) % p)
  }

  /** Chord-and-tangent addition. */
  ghost function Plus(l: Point, r: Point, c: Params): (sum: Point)
    requires Field(c) && ReducedPoint(l, c) && ReducedPoint(r, c)
    ensures ReducedPoint(sum, c)
  {
    if l.Infinity? then r
    else if r.Infinity? then l
    else if l.x != r.x then
      DifferenceNonzero(r.x, l.x, c.p);
      Reflect(Quotient(r.y - l.y, r.x - l.x, c.p), l.x, l.y, r.x, c.p)
    else if l.y == r.y && l.y != 0 then
      TwiceNonzero(l.y, c.p);
      Reflect(Quotient(3 * l.x * l.x + c.a, 2 * l.y, c.p), l.x, l.y, l.x, c.p)
    else Infinity
  }

  lemma DifferenceNonzero(u: int, v: int, p: int)
    requires 0 <= u < p && 0 <= v < p && u != v
    ensures (u - v) % p != 0
  {
    if (u - v) % p == 0 { SmallCongIsEqual(u, v, p); }
  }

  lemma TwiceNonzero(y: int, p: int)
    requires IsPrime(p) && p > 2 && 0 < y < p
    ensures (2 * y) % p != 0
  {
    if (2 * y) % p == 0 {
      PrimeDividesProduct(2, y, p);
      SmallRemainder(2, p);
      SmallRemainder(y, p);
    }
  }

  // --------------------------------------------- Jacobian coordinates (the code)

  /** A point by scaled coordinates, at infinity when the scale Z vanishes. */
  datatype Jacobian = Jacobian(x: nat, y: nat, z: nat)

  const INFINITY := Jacobian(1, 1, 0)

  function FromAffine(pt: (nat, nat)): Jacobian {
    Jacobian(pt.0, pt.1, 1)
  }

  function Sub(a: nat, b: nat, p: nat): (r: nat)
    requires p > 0
    ensures r < p
  {
    (a + p - b % p) % p
  }

  function Double(j: Jacobian, c: Params): Jacobian
    requires c.p > 0
  {
    var p := c.p;
    if j.z == 0 || j.y == 0 then INFINITY
    else
      var yy := j.y * j.y % p;
      var zz := j.z * j.z % p;
      var s := 4 * j.x * yy % p;
      var m := (3 * j.x * j.x + c.a * zz % p * zz) % p;
      var x3 := Sub(m * m % p, 2 * s % p, p);
      var y3 := Sub(m * Sub(s, x3, p) % p, 8 * yy * yy % p, p);
      Jacobian(x3, y3, 2 * j.y * j.z % p)
  }

  function Add(j: Jacobian, k: Jacobian, c: Params): Jacobian
    requires c.p > 0
  {
    var p := c.p;
    if j.z == 0 then k
    else if k.z == 0 then j
    else
      var z1z1 := j.z * j.z % p;
      var z2z2 := k.z * k.z % p;
      var u1 := j.x * z2z2 % p;
      var u2 := k.x * z1z1 % p;
      var s1 := j.y * k.z % p * z2z2 % p;
      var s2 := k.y * j.z % p * z1z1 % p;
      if u1 == u2 then
        if s1 == s2 then Double(j, c) else INFINITY
      else
        var h := Sub(u2, u1, p);
        var r := Sub(s2, s1, p);
        var hh := h * h % p;
        var hhh := hh * h % p;
        var v := u1 * hh % p;
        var x3 := Sub(Sub(r * r % p, hhh, p), 2 * v % p, p);
        var y3 := Sub(r * Sub(v, x3, p) % p, s1 * hhh % p, p);
        Jacobian(x3, y3, h * j.z % p * k.z % p)
  }

  /** Back to the abscissa where there is one; division is a power by Fermat. */
  function ToAffineX(j: Jacobian, c: Params): Option<nat>
    requires c.p >= 2
  {
    if j.z == 0 then None
    else
      var zz := j.z * j.z % c.p;
      Some(j.x * ModPow(zz, c.p - 2, c.p) % c.p)
  }

  // ----------------------------------------------------------------- refinement

  ghost predicate Reduced(j: Jacobian, c: Params) {
    j.x < c.p && j.y < c.p && j.z < c.p
  }

  /** `j` is some representative of `pt`: any Z will do. */
  ghost predicate Represents(j: Jacobian, pt: Point, c: Params)
    requires Field(c)
  {
    Reduced(j, c) && ReducedPoint(pt, c) &&
    match pt
    case Infinity => j.z == 0
    case Affine(x, y) =>
      && j.z != 0
      && Cong(j.x, x * (j.z * j.z), c.p)
      && Cong(j.y, y * (j.z * j.z * j.z), c.p)
  }

  lemma SubCong(a: nat, b: nat, p: nat)
    requires p > 0
    ensures Cong(Sub(a, b, p), a - b, p)
  {
    CongMod(a + p - b % p, p);
    CongMod(b, p);
    CongIntro(a + p, a, 1, p);
    CongSub(a + p, a, b % p, b, p);
    CongTrans(Sub(a, b, p), a + p - b % p, a - b, p);
  }

  /** The code's subtraction of reduced quantities, through their congruences. */
  lemma SubOf(a: nat, b: nat, u: int, v: int, p: nat)
    requires p > 0 && Cong(a, u, p) && Cong(b, v, p)
    ensures Cong(Sub(a, b, p), u - v, p)
  {
    SubCong(a, b, p);
    CongSub(a, u, b, v, p);
    CongTrans(Sub(a, b, p), a - b, u - v, p);
  }

  /** A reduced product, through the congruences of its factors. */
  lemma MulOf(a: nat, b: nat, u: int, v: int, p: nat)
    requires p > 0 && Cong(a, u, p) && Cong(b, v, p)
    ensures Cong(a * b % p, u * v, p)
    ensures Cong(a * b, u * v, p)
  {
    CongMod(a * b, p);
    CongMul(a, u, b, v, p);
    CongTrans(a * b % p, a * b, u * v, p);
  }

  lemma Refl(a: int, p: nat)
    requires p > 0
    ensures Cong(a, a, p)
  {
  }

  /** Two scaled quantities multiply to one scaled by the product, whatever it is congruent to. */
  lemma ScaledTerm(a: nat, b: nat, x: int, scale: int, u: int, product: int, goal: int, p: nat)
    requires p > 0 && Cong(a, x * scale, p) && Cong(b, u, p) && scale * u == product && Cong(product, goal, p)
    ensures Cong(a * b % p, x * goal, p)
  {
    MulOf(a, b, x * scale, u, p);
    ThreeFactors(x, scale, u);
    CongMul(x, x, product, goal, p);
    CongTrans(a * b % p, x * product, x * goal, p);
  }

  lemma ThreeFactors(x: int, y: int, z: int)
    ensures x * y * z == x * (y * z)
  {
  }

  /**
   The heart of both formulas. If A = s·Z, B = x1·Z², D = (x1 + x2)·Z² and
   E = y1·Z³ then A² − D and A(B − X3) − E are the coordinates of the reflected
   third intersection, scaled by Z² and Z³.
   */
  lemma ScaledReflection(s: int, x1: int, y1: int, x2: int, z: int, x3: nat, y3: nat,
                         a: int, b: int, d: int, e: int, p: nat)
    requires p > 0
    requires Cong(a, s * z, p) && Cong(b, x1 * (z * z), p)
    requires Cong(d, (x1 + x2) * (z * z), p) && Cong(e, y1 * (z * z * z), p)
    requires Cong(x3, a * a - d, p) && Cong(y3, a * (b - x3) - e, p)
    ensures var r := Reflect(s, x1, y1, x2, p);
            Cong(x3, r.x * (z * z), p) && Cong(y3, r.y * (z * z * z), p)
  {
    var r := Reflect(s, x1, y1, x2, p);
    var zz := z * z;
    // the abscissa
    CongMul(a, s * z, a, s * z, p);
    CongSub(a * a, (s * z) * (s * z), d, (x1 + x2) * zz, p);
    CongTrans(x3, a * a - d, (s * z) * (s * z) - (x1 + x2) * zz, p);
    assert (s * z) * (s * z) - (x1 + x2) * zz == (s * s - x1 - x2) * zz by {
      Regroup(s, z, s, z);
    }
    CongMod(s * s - x1 - x2, p);
    CongMul(s * s - x1 - x2, r.x, zz, zz, p);
    CongTrans(x3, (s * s - x1 - x2) * zz, r.x * zz, p);
    // the ordinate
    CongSub(b, x1 * zz, x3, r.x * zz, p);
    CongMul(a, s * z, b - x3, x1 * zz - r.x * zz, p);
    CongSub(a * (b - x3), (s * z) * (x1 * zz - r.x * zz), e, y1 * (zz * z), p);
    CongTrans(y3, a * (b - x3) - e, (s * z) * (x1 * zz - r.x * zz) - y1 * (zz * z), p);
    OrdinateIdentity(s, z, x1, r.x, y1, zz);
    var w := s * (x1 - r.x) - y1;
    CongMod(w, p);
    CongMul(w, r.y, zz * z, zz * z, p);
    CongTrans(y3, w * (zz * z), r.y * (zz * z), p);
  }

  lemma OrdinateIdentity(s: int, z: int, x1: int, x3: int, y1: int, zz: int)
    ensures (s * z) * (x1 * zz - x3 * zz) - y1 * (zz * z) == (s * (x1 - x3) - y1) * (zz * z)
  {
    assert x1 * zz - x3 * zz == (x1 - x3) * zz;
    Regroup(s, z, x1 - x3, zz);
    assert (s * (x1 - x3)) * (z * zz) - y1 * (zz * z) == (s * (x1 - x3) - y1) * (zz * z);
  }

  // ----- doubling

  lemma NonzeroProduct(u: int, v: int, p: int)
    requires IsPrime(p) && u % p != 0 && v % p != 0
    ensures (u * v) % p != 0
  {
    if (u * v) % p == 0 { PrimeDividesProduct(u, v, p); }
  }

  lemma NonzeroReduced(u: nat, p: nat)
    requires 0 < u < p
    ensures u % p != 0
  {
  }

  /** s = 4XY² is x·Z3². */
  lemma DoubleAbscissaTerm(X: nat, Y: nat, Z: nat, yy: nat, z3: nat, x: nat, p: nat)
    requires p > 0 && Cong(X, x * (Z * Z), p) && Cong(yy, Y * Y, p) && Cong(z3, 2 * Y * Z, p)
    ensures Cong(4 * X * yy, x * (z3 * z3), p)
  {
    CongMul(4, 4, X, x * (Z * Z), p);
    CongMul(4 * X, 4 * (x * (Z * Z)), yy, Y * Y, p);
    CongMul(z3, 2 * Y * Z, z3, 2 * Y * Z, p);
    CongMul(x, x, z3 * z3, (2 * Y * Z) * (2 * Y * Z), p);
    CongSym(x * (z3 * z3), x * ((2 * Y * Z) * (2 * Y * Z)), p);
    assert 4 * (x * (Z * Z)) * (Y * Y) == x * ((2 * Y * Z) * (2 * Y * Z)) by {
      Regroup(2 * Y, Z, 2 * Y, Z);
      assert x * (4 * (Y * Y) * (Z * Z)) == 4 * (x * (Z * Z)) * (Y * Y);
    }
    CongTrans(4 * X * yy, 4 * (x * (Z * Z)) * (Y * Y), x * (z3 * z3), p);
  }

  /** m = 3X² + aZ⁴ is λ·Z3, λ the slope of the tangent: both are λ·2y·Z⁴. */
  lemma DoubleSlopeTerm(X: nat, Y: nat, Z: nat, m: nat, z3: nat, x: nat, y: nat, s: int, a: nat, p: nat)
    requires p > 0 && Cong(X, x * (Z * Z), p) && Cong(Y, y * (Z * Z * Z), p) && Cong(z3, 2 * Y * Z, p)
    requires Cong(m, 3 * X * X + a * (Z * Z) * (Z * Z), p)
    requires Cong(s * (2 * y), 3 * x * x + a, p)
    ensures Cong(m, s * z3, p)
  {
    var zz := Z * Z;
    var w := zz * zz;
    TangentTerm(X, m, x, s, y, a, zz, p);
    TangentScale(Y, z3, y, s, Z, zz * Z, p);
    assert zz * Z * Z == w;
    CongSym(s * z3, s * (2 * y) * w, p);
    CongTrans(m, s * (2 * y) * w, s * z3, p);
  }

  lemma TangentTerm(X: nat, m: nat, x: nat, s: int, y: nat, a: nat, zz: nat, p: nat)
    requires p > 0 && Cong(X, x * zz, p) && Cong(m, 3 * X * X + a * zz * zz, p)
    requires Cong(s * (2 * y), 3 * x * x + a, p)
    ensures Cong(m, s * (2 * y) * (zz * zz), p)
  {
    var w := zz * zz;
    CongMul(X, x * zz, X, x * zz, p);
    CongMul(3, 3, X * X, (x * zz) * (x * zz), p);
    CongAdd(3 * (X * X), 3 * ((x * zz) * (x * zz)), a * w, a * w, p);
    TangentIdentity(x, a, zz, X);
    CongTrans(m, 3 * (X * X) + a * w, (3 * x * x + a) * w, p);
    CongSym(s * (2 * y), 3 * x * x + a, p);
    CongMul(3 * x * x + a, s * (2 * y), w, w, p);
    CongTrans(m, (3 * x * x + a) * w, s * (2 * y) * w, p);
  }

  lemma TangentIdentity(x: int, a: int, zz: int, X: int)
    ensures 3 * ((x * zz) * (x * zz)) + a * (zz * zz) == (3 * x * x + a) * (zz * zz)
    ensures 3 * X * X + a * zz * zz == 3 * (X * X) + a * (zz * zz)
  {
    Regroup(x, zz, x, zz);
  }

  lemma TangentScale(Y: nat, z3: nat, y: nat, s: int, Z: nat, zzz: nat, p: nat)
    requires p > 0 && Cong(Y, y * zzz, p) && Cong(z3, 2 * Y * Z, p)
    ensures Cong(s * z3, s * (2 * y) * (zzz * Z), p)
  {
    CongMul(Y, y * zzz, 2 * Z, 2 * Z, p);
    ScaleIdentity(Y, y, s, Z, zzz);
    CongTrans(z3, Y * (2 * Z), y * zzz * (2 * Z), p);
    CongMul(s, s, z3, y * zzz * (2 * Z), p);
  }

  lemma ScaleIdentity(Y: int, y: int, s: int, Z: int, zzz: int)
    ensures 2 * Y * Z == Y * (2 * Z)
    ensures s * (y * zzz * (2 * Z)) == s * (2 * y) * (zzz * Z)
  {
    assert y * zzz * (2 * Z) == 2 * y * (zzz * Z);
  }

  /** 8Y⁴ is y·Z3³. */
  lemma DoubleOrdinateTerm(Y: nat, Z: nat, yy: nat, z3: nat, y: nat, p: nat)
    requires p > 0 && Cong(Y, y * (Z * Z * Z), p) && Cong(yy, Y * Y, p) && Cong(z3, 2 * Y * Z, p)
    ensures Cong(8 * yy * yy, y * (z3 * z3 * z3), p)
  {
    var t := 2 * Y * Z;
    CongMul(8, 8, yy, Y * Y, p);
    CongMul(8 * yy, 8 * (Y * Y), yy, Y * Y, p);
    CongMul(z3, t, z3, t, p);
    CongMul(z3 * z3, t * t, z3, t, p);
    CongMul(y, y, z3 * z3 * z3, t * t * t, p);
    CongSym(y * (z3 * z3 * z3), y * (t * t * t), p);
    CongMul(Y, y * (Z * Z * Z), 8 * (Y * Y * Y), 8 * (Y * Y * Y), p);
    CubeIdentity(Y, Z, y);
    assert 8 * (Y * Y) * (Y * Y) == Y * (8 * (Y * Y * Y));
    CongTrans(8 * yy * yy, Y * (8 * (Y * Y * Y)), y * (t * t * t), p);
    CongTrans(8 * yy * yy, y * (t * t * t), y * (z3 * z3 * z3), p);
  }

  lemma CubeIdentity(Y: int, Z: int, y: int)
    ensures y * (Z * Z * Z) * (8 * (Y * Y * Y)) == y * ((2 * Y * Z) * (2 * Y * Z) * (2 * Y * Z))
  {
    Regroup(2 * Y, Z, 2 * Y, Z);
    Regroup((2 * Y) * (2 * Y), Z * Z, 2 * Y, Z);
    assert (2 * Y) * (2 * Y) * (2 * Y) == 8 * (Y * Y * Y);
    assert y * ((Z * Z * Z) * (8 * (Y * Y * Y))) == y * (Z * Z * Z) * (8 * (Y * Y * Y));
  }

  lemma ScaledNonzero(v: int, z: nat, p: int)
    requires IsPrime(p) && 0 < z < p
    ensures (v * (z * z)) % p == 0 <==> v % p == 0
    ensures (v * (z * z * z)) % p == 0 <==> v % p == 0
  {
    NonzeroReduced(z, p);
    NonzeroProduct(z, z, p);
    NonzeroProduct(z * z, z, p);
    if v % p != 0 {
      NonzeroProduct(v, z * z, p);
      NonzeroProduct(v, z * z * z, p);
    } else {
      CongMul(v, 0, z * z, z * z, p);
      CongMul(v, 0, z * z * z, z * z * z, p);
    }
  }

  lemma ZeroOrdinate(j: Jacobian, pt: Point, c: Params)
    requires Field(c) && Represents(j, pt, c) && pt.Affine?
    ensures j.y == 0 <==> pt.y == 0
  {
    ScaledNonzero(pt.y, j.z, c.p);
    CongIffSameRemainder(j.y, pt.y * (j.z * j.z * j.z), c.p);
    SmallRemainder(j.y, c.p);
    SmallRemainder(pt.y, c.p);
    MultipleIsZero(0, c.p);
  }

  lemma DoubleRefines(j: Jacobian, pt: Point, c: Params)
    requires Field(c) && Represents(j, pt, c)
    ensures Represents(Double(j, c), Plus(pt, pt, c), c)
  {
    if pt.Affine? {
      ZeroOrdinate(j, pt, c);
      if pt.y != 0 { DoubleFinite(j, pt, c); }
    }
  }

  lemma DoubleFinite(j: Jacobian, pt: Point, c: Params)
    requires Field(c) && Represents(j, pt, c) && pt.Affine? && pt.y != 0 && j.y != 0
    ensures Represents(Double(j, c), Plus(pt, pt, c), c)
  {
    var p, x, y := c.p, pt.x, pt.y;
    TwiceNonzero(y, p);
    var sl := Quotient(3 * x * x + c.a, 2 * y, p);
    var yy, zz := j.y * j.y % p, j.z * j.z % p;
    var z3 := 2 * j.y * j.z % p;
    var s := 4 * j.x * yy % p;
    var m := (3 * j.x * j.x + c.a * zz % p * zz) % p;
    DoubleTerms(j, x, y, yy, zz, s, m, z3, sl, c);
    CombineReflection(sl, x, y, x, z3, m, s, 2 * s % p, 8 * yy * yy % p, p);
    DoubleZNonzero(j.y, j.z, p);
  }

  lemma DoubleZNonzero(Y: nat, Z: nat, p: nat)
    requires IsPrime(p) && p > 2 && 0 < Y < p && 0 < Z < p
    ensures 2 * Y * Z % p != 0
  {
    TwiceNonzero(Y, p);
    NonzeroReduced(Z, p);
    NonzeroProduct(2 * Y, Z, p);
  }

  lemma DoubleTerms(j: Jacobian, x: nat, y: nat, yy: nat, zz: nat, s: nat, m: nat, z3: nat, sl: int, c: Params)
    requires c.p > 0 && Cong(j.x, x * (j.z * j.z), c.p) && Cong(j.y, y * (j.z * j.z * j.z), c.p)
    requires Cong(sl * (2 * y), 3 * x * x + c.a, c.p)
    requires yy == j.y * j.y % c.p && zz == j.z * j.z % c.p && z3 == 2 * j.y * j.z % c.p
    requires s == 4 * j.x * yy % c.p && m == (3 * j.x * j.x + c.a * zz % c.p * zz) % c.p
    ensures Cong(m, sl * z3, c.p) && Cong(s, x * (z3 * z3), c.p)
    ensures Cong(2 * s % c.p, (x + x) * (z3 * z3), c.p)
    ensures Cong(8 * yy * yy % c.p, y * (z3 * z3 * z3), c.p)
  {
    var p, X, Y, Z := c.p, j.x, j.y, j.z;
    CongMod(Y * Y, p);
    CongMod(2 * Y * Z, p);
    // s
    CongMod(4 * X * yy, p);
    DoubleAbscissaTerm(X, Y, Z, yy, z3, x, p);
    CongTrans(s, 4 * X * yy, x * (z3 * z3), p);
    // m
    DoubleM(X, Z, zz, m, c);
    DoubleSlopeTerm(X, Y, Z, m, z3, x, y, sl, c.a, p);
    // 2s and 8yy²
    Refl(2, p);
    MulOf(2, s, 2, x * (z3 * z3), p);
    assert 2 * (x * (z3 * z3)) == (x + x) * (z3 * z3);
    CongMod(8 * yy * yy, p);
    DoubleOrdinateTerm(Y, Z, yy, z3, y, p);
    CongTrans(8 * yy * yy % p, 8 * yy * yy, y * (z3 * z3 * z3), p);
  }

  lemma DoubleM(X: nat, Z: nat, zz: nat, m: nat, c: Params)
    requires c.p > 0 && zz == Z * Z % c.p && m == (3 * X * X + c.a * zz % c.p * zz) % c.p
    ensures Cong(m, 3 * X * X + c.a * (Z * Z) * (Z * Z), c.p)
  {
    var p := c.p;
    CongMod(Z * Z, p);
    Refl(c.a, p);
    Refl(3 * X * X, p);
    MulOf(c.a, zz, c.a, Z * Z, p);
    MulOf(c.a * zz % p, zz, c.a * (Z * Z), Z * Z, p);
    CongAdd(3 * X * X, 3 * X * X, c.a * zz % p * zz, c.a * (Z * Z) * (Z * Z), p);
    CongMod(3 * X * X + c.a * zz % p * zz, p);
    CongTrans(m, 3 * X * X + c.a * zz % p * zz, 3 * X * X + c.a * (Z * Z) * (Z * Z), p);
  }

  /** The last two subtractions of both formulas, for any slope term m and offsets d, e. */
  lemma CombineReflection(sl: int, x1: int, y1: int, x2: int, z3: nat, m: nat, s: nat, d: nat, e: nat, p: nat)
    requires p > 0
    requires Cong(m, sl * z3, p) && Cong(s, x1 * (z3 * z3), p)
    requires Cong(d, (x1 + x2) * (z3 * z3), p) && Cong(e, y1 * (z3 * z3 * z3), p)
    ensures var x3 := Sub(m * m % p, d, p);
            var y3 := Sub(m * Sub(s, x3, p) % p, e, p);
            var r := Reflect(sl, x1, y1, x2, p);
            Cong(x3, r.x * (z3 * z3), p) && Cong(y3, r.y * (z3 * z3 * z3), p)
  {
    var x3 := Sub(m * m % p, d, p);
    var y3 := Sub(m * Sub(s, x3, p) % p, e, p);
    CongMod(m * m, p);
    Refl(d, p);
    Refl(e, p);
    Refl(m, p);
    SubOf(m * m % p, d, m * m, d, p);
    SubCong(s, x3, p);
    MulOf(m, Sub(s, x3, p), m, s - x3, p);
    SubOf(m * Sub(s, x3, p) % p, e, m * (s - x3), e, p);
    ScaledReflection(sl, x1, y1, x2, z3, x3, y3, m, s, d, e, p);
  }

  // ----- addition

  /** With t = z1·z2: u = x·t² and s = y·t³, for either operand. */
  lemma CommonDenominator(X: nat, Y: nat, Z: nat, W: nat, x: nat, y: nat, p: nat)
    requires p > 0 && Cong(X, x * (Z * Z), p) && Cong(Y, y * (Z * Z * Z), p)
    ensures var ww := W * W % p;
            var t := Z * W;
            Cong(X * ww % p, x * (t * t), p) && Cong(Y * W % p * ww % p, y * (t * t * t), p)
  {
    var ww := W * W % p;
    var t := Z * W;
    CongMod(W * W, p);
    Refl(W, p);
    WholePowers(Z, W);
    Refl(t * t, p);
    ScaledTerm(X, ww, x, Z * Z, W * W, t * t, t * t, p);
    Refl(Z * Z * Z * W, p);
    ScaledTerm(Y, W, y, Z * Z * Z, W, Z * Z * Z * W, Z * Z * Z * W, p);
    Refl(t * t * t, p);
    ScaledTerm(Y * W % p, ww, y, Z * Z * Z * W, W * W, t * t * t, t * t * t, p);
  }

  lemma WholePowers(Z: int, W: int)
    ensures (Z * Z) * (W * W) == (Z * W) * (Z * W)
    ensures (Z * Z * Z) * (W * W * W) == (Z * W) * (Z * W) * (Z * W)
    ensures (Z * Z * Z * W) * (W * W) == (Z * W) * (Z * W) * (Z * W)
  {
    Regroup(Z, W, Z, W);
    Regroup(Z * Z, W * W, Z, W);
    assert (Z * Z * Z * W) * (W * W) == (Z * Z * Z) * (W * W * W);
  }

  lemma AddRefines(j: Jacobian, k: Jacobian, l: Point, r: Point, c: Params)
    requires Field(c) && Represents(j, l, c) && Represents(k, r, c)
    ensures Represents(Add(j, k, c), Plus(l, r, c), c)
  {
    if l.Affine? && r.Affine? {
      var p := c.p;
      var t := j.z * k.z;
      var tt := t % p;
      var u1, u2 := j.x * (k.z * k.z % p) % p, k.x * (j.z * j.z % p) % p;
      var s1, s2 := j.y * k.z % p * (k.z * k.z % p) % p, k.y * j.z % p * (j.z * j.z % p) % p;
      CommonDenominator(j.x, j.y, j.z, k.z, l.x, l.y, p);
      CommonDenominator(k.x, k.y, k.z, j.z, r.x, r.y, p);
      assert k.z * j.z == t;
      NonzeroReduced(j.z, p);
      NonzeroReduced(k.z, p);
      NonzeroProduct(j.z, k.z, p);
      SameScaled(u1, u2, l.x, r.x, t * t, p) by { NonzeroProduct(t, t, p); }
      SameScaled(s1, s2, l.y, r.y, t * t * t, p) by { NonzeroProduct(t, t, p); NonzeroProduct(t * t, t, p); }
      if u1 == u2 {
        if s1 == s2 { DoubleRefines(j, l, c); }
      } else {
        AddChord(j, k, l, r, c, u1, u2, s1, s2);
      }
    }
  }

  lemma SameScaled(u: nat, v: nat, a: nat, b: nat, t: int, p: nat)
    requires IsPrime(p) && u < p && v < p && a < p && b < p && t % p != 0
    requires Cong(u, a * t, p) && Cong(v, b * t, p)
    ensures u == v <==> a == b
  {
    if u == v {
      CongSym(u, a * t, p);
      CongTrans(a * t, u, b * t, p);
      assert a * t == t * a && b * t == t * b;
      CancelFactor(t, a, b, p);
      SmallCongIsEqual(a, b, p);
    }
    if a == b {
      CongSym(v, b * t, p);
      CongTrans(u, a * t, v, p);
      SmallCongIsEqual(u, v, p);
    }
  }

  lemma AddChord(j: Jacobian, k: Jacobian, l: Point, r: Point, c: Params, u1: nat, u2: nat, s1: nat, s2: nat)
    requires Field(c) && Represents(j, l, c) && Represents(k, r, c) && l.Affine? && r.Affine?
    requires u1 == j.x * (k.z * k.z % c.p) % c.p && u2 == k.x * (j.z * j.z % c.p) % c.p
    requires s1 == j.y * k.z % c.p * (k.z * k.z % c.p) % c.p
    requires s2 == k.y * j.z % c.p * (j.z * j.z % c.p) % c.p
    requires u1 != u2 && l.x != r.x
    requires var t := j.z * k.z;
             && Cong(u1, l.x * (t * t), c.p) && Cong(u2, r.x * (t * t), c.p)
             && Cong(s1, l.y * (t * t * t), c.p) && Cong(s2, r.y * (t * t * t), c.p)
    ensures Represents(Add(j, k, c), Plus(l, r, c), c)
  {
    var p := c.p;
    DifferenceNonzero(r.x, l.x, p);
    var sl := Quotient(r.y - l.y, r.x - l.x, p);
    var h, q := Sub(u2, u1, p), Sub(s2, s1, p);
    var hh := h * h % p;
    var hhh := hh * h % p;
    var v := u1 * hh % p;
    var z3 := h * j.z % p * k.z % p;
    ChordCoordinates(u1, u2, s1, s2, j.z, k.z, h, q, hh, hhh, v, z3, l, r, sl, p);
    ChordReflection(sl, l.x, l.y, r.x, z3, q, v, hhh, s1 * hhh % p, p);
    ChordZNonzero(u1, u2, j.z, k.z, p);
  }

  lemma ChordCoordinates(u1: nat, u2: nat, s1: nat, s2: nat, z1: nat, z2: nat, h: nat, q: nat,
                         hh: nat, hhh: nat, v: nat, z3: nat, l: Point, r: Point, sl: int, p: nat)
    requires p > 0 && l.Affine? && r.Affine? && Cong(sl * (r.x - l.x), r.y - l.y, p)
    requires h == Sub(u2, u1, p) && q == Sub(s2, s1, p) && hh == h * h % p && hhh == hh * h % p
    requires v == u1 * hh % p && z3 == h * z1 % p * z2 % p
    requires var t := z1 * z2;
             && Cong(u1, l.x * (t * t), p) && Cong(u2, r.x * (t * t), p)
             && Cong(s1, l.y * (t * t * t), p) && Cong(s2, r.y * (t * t * t), p)
    ensures Cong(q, sl * z3, p) && Cong(v, l.x * (z3 * z3), p)
    ensures Cong(hhh + 2 * v, (l.x + r.x) * (z3 * z3), p)
    ensures Cong(s1 * hhh % p, l.y * (z3 * z3 * z3), p)
  {
    var t := z1 * z2;
    SubOf(u2, u1, r.x * (t * t), l.x * (t * t), p);
    SubOf(s2, s1, r.y * (t * t * t), l.y * (t * t * t), p);
    var dx, dy := r.x - l.x, r.y - l.y;
    assert r.x * (t * t) - l.x * (t * t) == dx * (t * t);
    assert r.y * (t * t * t) - l.y * (t * t * t) == dy * (t * t * t);
    ChordZ(h, z1, z2, p);
    ChordTerms(h, q, hh, hhh, v, z3, u1, s1, t, l.x, l.y, dx, dy, sl, p);
  }

  lemma ChordReflection(sl: int, x1: int, y1: int, x2: int, z3: nat, q: nat, v: nat, hhh: nat, e: nat, p: nat)
    requires p > 0
    requires Cong(q, sl * z3, p) && Cong(v, x1 * (z3 * z3), p)
    requires Cong(hhh + 2 * v, (x1 + x2) * (z3 * z3), p) && Cong(e, y1 * (z3 * z3 * z3), p)
    ensures var x3 := Sub(Sub(q * q % p, hhh, p), 2 * v % p, p);
            var y3 := Sub(q * Sub(v, x3, p) % p, e, p);
            var r := Reflect(sl, x1, y1, x2, p);
            Cong(x3, r.x * (z3 * z3), p) && Cong(y3, r.y * (z3 * z3 * z3), p)
  {
    var d := Sub(q * q % p, hhh, p);
    var x3 := Sub(d, 2 * v % p, p);
    var y3 := Sub(q * Sub(v, x3, p) % p, e, p);
    CongMod(q * q, p);
    Refl(hhh, p);
    SubOf(q * q % p, hhh, q * q, hhh, p);
    CongMod(2 * v, p);
    SubOf(d, 2 * v % p, q * q - hhh, 2 * v, p);
    assert q * q - hhh - 2 * v == q * q - (hhh + 2 * v);
    SubCong(v, x3, p);
    Refl(q, p);
    Refl(e, p);
    MulOf(q, Sub(v, x3, p), q, v - x3, p);
    SubOf(q * Sub(v, x3, p) % p, e, q * (v - x3), e, p);
    ScaledReflection(sl, x1, y1, x2, z3, x3, y3, q, v, hhh + 2 * v, e, p);
  }

  lemma ChordZNonzero(u1: nat, u2: nat, z1: nat, z2: nat, p: nat)
    requires IsPrime(p) && u1 < p && u2 < p && u1 != u2 && 0 < z1 < p && 0 < z2 < p
    ensures Sub(u2, u1, p) * z1 % p * z2 % p != 0
  {
    var h := Sub(u2, u1, p);
    DifferenceNonzero(u2, u1, p);
    SubCong(u2, u1, p);
    CongIffSameRemainder(h, u2 - u1, p);
    NonzeroReduced(z1, p);
    NonzeroReduced(z2, p);
    NonzeroProduct(h, z1, p);
    NonzeroReduced(h * z1 % p, p);
    NonzeroProduct(h * z1 % p, z2, p);
  }

  lemma ChordZ(h: nat, z1: nat, z2: nat, p: nat)
    requires p > 0
    ensures Cong(h * z1 % p * z2 % p, h * (z1 * z2), p)
  {
    CongMod(h * z1, p);
    Refl(z2, p);
    MulOf(h * z1 % p, z2, h * z1, z2, p);
    assert h * z1 * z2 == h * (z1 * z2);
  }

  /** With Z3 = h·t: r = λ·Z3, v = x1·Z3², hhh + 2v = (x1 + x2)·Z3² and s1·hhh = y1·Z3³. */
  lemma ChordTerms(h: nat, q: nat, hh: nat, hhh: nat, v: nat, z3: nat, u1: nat, s1: nat, t: nat,
                   x1: nat, y1: nat, dx: int, dy: int, sl: int, p: nat)
    requires p > 0 && Cong(sl * dx, dy, p)
    requires hh == h * h % p && hhh == hh * h % p && v == u1 * hh % p && Cong(z3, h * t, p)
    requires Cong(h, dx * (t * t), p) && Cong(q, dy * (t * t * t), p)
    requires Cong(u1, x1 * (t * t), p) && Cong(s1, y1 * (t * t * t), p)
    ensures Cong(q, sl * z3, p) && Cong(v, x1 * (z3 * z3), p)
    ensures Cong(hhh + 2 * v, (x1 + (x1 + dx)) * (z3 * z3), p)
    ensures Cong(s1 * hhh % p, y1 * (z3 * z3 * z3), p)
  {
    var w := h * t;
    WholePowers(t, h);
    assert t * h == w;
    CongMod(h * h, p);
    Refl(h, p);
    MulOf(hh, h, h * h, h, p);
    SlopeTerm(q, dy, sl, dx, t * t, t, h, z3, p);
    PowersAgree(w, z3, p);
    ScaledTerm(u1, hh, x1, t * t, h * h, w * w, z3 * z3, p);
    ScaledTerm(h, hh, dx, t * t, h * h, w * w, z3 * z3, p);
    assert h * hh == hh * h;
    SumOfTerms(hhh, v, x1, dx, z3 * z3, p);
    ScaledTerm(s1, hhh, y1, t * t * t, h * h * h, w * w * w, z3 * z3 * z3, p);
  }

  lemma PowersAgree(w: int, z3: int, p: nat)
    requires p > 0 && Cong(z3, w, p)
    ensures Cong(w * w, z3 * z3, p) && Cong(w * w * w, z3 * z3 * z3, p)
  {
    CongSym(z3, w, p);
    CongMul(w, z3, w, z3, p);
    CongMul(w * w, z3 * z3, w, z3, p);
  }

  lemma SumOfTerms(hhh: int, v: int, x1: int, dx: int, zz: int, p: nat)
    requires p > 0 && Cong(hhh, dx * zz, p) && Cong(v, x1 * zz, p)
    ensures Cong(hhh + 2 * v, (x1 + (x1 + dx)) * zz, p)
  {
    CongMul(2, 2, v, x1 * zz, p);
    CongAdd(hhh, dx * zz, 2 * v, 2 * (x1 * zz), p);
    assert dx * zz + 2 * (x1 * zz) == (x1 + (x1 + dx)) * zz;
  }

  /** r = dy·t³ = λ·(dx·t²)·t = λ·h·t. */
  lemma SlopeTerm(q: int, dy: int, sl: int, dx: int, tt: int, t: int, h: int, z3: int, p: nat)
    requires p > 0 && Cong(q, dy * (tt * t), p) && Cong(sl * dx, dy, p) && Cong(h, dx * tt, p) && Cong(z3, h * t, p)
    ensures Cong(q, sl * z3, p)
  {
    CongSym(sl * dx, dy, p);
    CongMul(dy, sl * dx, tt * t, tt * t, p);
    CongTrans(q, dy * (tt * t), sl * dx * (tt * t), p);
    CongMul(h, dx * tt, t, t, p);
    CongTrans(z3, h * t, dx * tt * t, p);
    CongMul(sl, sl, z3, dx * tt * t, p);
    CongSym(sl * z3, sl * (dx * tt * t), p);
    FourFactors(sl, dx, tt, t);
    CongTrans(q, sl * (dx * tt * t), sl * z3, p);
  }

  lemma FourFactors(a: int, b: int, c: int, d: int)
    ensures a * b * (c * d) == a * (b * c * d)
  {
  }

  // ----- back to affine coordinates

  lemma ToAffineXRefines(j: Jacobian, pt: Point, c: Params)
    requires Field(c) && Represents(j, pt, c)
    ensures ToAffineX(j, c) == if pt.Infinity? then None else Some(pt.x)
  {
    if pt.Affine? {
      var p, z := c.p, j.z;
      var zz := z * z % p;
      var w := ModPow(zz, p - 2, p);
      NonzeroReduced(z, p);
      NonzeroProduct(z, z, p);
      NonzeroReduced(zz, p);
      FermatInverse(zz, p);
      CongMod(z * z, p);
      DividesOut(j.x, pt.x, z * z, zz, w, p);
      SmallCongIsEqual(j.x * w % p, pt.x, p);
    }
  }

  lemma DividesOut(X: nat, x: nat, scale: int, zz: nat, w: nat, p: nat)
    requires p > 0 && Cong(X, x * scale, p) && Cong(scale, zz, p) && Cong(zz * w, 1, p)
    ensures Cong(X * w % p, x, p)
  {
    CongMul(scale, zz, w, w, p);
    CongTrans(scale * w, zz * w, 1, p);
    Refl(w, p);
    ScaledTerm(X, w, x, scale, w, scale * w, 1, p);
  }

  /** Every reduced triple represents a point: X/Z² and Y/Z³. */
  lemma EveryTripleRepresents(j: Jacobian, c: Params) returns (pt: Point)
    requires Field(c) && Reduced(j, c)
    ensures Represents(j, pt, c)
  {
    if j.z == 0 {
      pt := Infinity;
    } else {
      var p, z := c.p, j.z;
      NonzeroReduced(z, p);
      NonzeroProduct(z, z, p);
      NonzeroProduct(z * z, z, p);
      var x := Unscaled(j.x, z * z, p);
      var y := Unscaled(j.y, z * z * z, p);
      pt := Affine(x, y);
    }
  }

  lemma Unscaled(X: nat, scale: int, p: nat) returns (x: nat)
    requires IsPrime(p) && scale % p != 0
    ensures x < p && Cong(X, x * scale, p)
  {
    x := Quotient(X, scale, p);
    CongSym(x * scale, X, p);
  }

  /** … and only one. */
  lemma RepresentsOne(j: Jacobian, l: Point, r: Point, c: Params)
    requires Field(c) && Represents(j, l, c) && Represents(j, r, c)
    ensures l == r
  {
    if l.Affine? {
      var p, z := c.p, j.z;
      NonzeroReduced(z, p);
      NonzeroProduct(z, z, p);
      NonzeroProduct(z * z, z, p);
      SameScaled(j.x, j.x, l.x, r.x, z * z, p);
      SameScaled(j.y, j.y, l.y, r.y, z * z * z, p);
    }
  }

  lemma FromAffineRepresents(pt: (nat, nat), c: Params)
    requires Field(c) && pt.0 < c.p && pt.1 < c.p
    ensures Represents(FromAffine(pt), Affine(pt.0, pt.1), c)
  {
  }

  // --------------------------------------------------------- laws of the reference

  lemma PlusCommutes(l: Point, r: Point, c: Params)
    requires Field(c) && ReducedPoint(l, c) && ReducedPoint(r, c)
    ensures Plus(l, r, c) == Plus(r, l, c)
  {
    if l.Affine? && r.Affine? && l.x != r.x {
      DifferenceNonzero(r.x, l.x, c.p);
      DifferenceNonzero(l.x, r.x, c.p);
      var s := Quotient(r.y - l.y, r.x - l.x, c.p);
      SlopeCommutes(r.y - l.y, r.x - l.x, c.p);
      ReflectCommutes(s, l, r, c.p);
    }
  }

  lemma SlopeCommutes(dy: int, dx: int, p: int)
    requires IsPrime(p) && dx % p != 0 && (-dx) % p != 0
    ensures Quotient(dy, dx, p) == Quotient(-dy, -dx, p)
  {
    var s, t := Quotient(dy, dx, p), Quotient(-dy, -dx, p);
    CongMul(t * -dx, -dy, -1, -1, p);
    assert t * -dx * -1 == dx * t && -dy * -1 == dy && s * dx == dx * s;
    CongSym(dx * t, dy, p);
    CongTrans(dx * s, dy, dx * t, p);
    CancelFactor(dx, s, t, p);
    SmallCongIsEqual(s, t, p);
  }

  lemma ReflectCommutes(s: int, l: Point, r: Point, p: int)
    requires p > 0 && l.Affine? && r.Affine? && Cong(s * (r.x - l.x), r.y - l.y, p)
    ensures Reflect(s, l.x, l.y, r.x, p) == Reflect(s, r.x, r.y, l.x, p)
  {
    var x3 := Reflect(s, l.x, l.y, r.x, p).x;
    assert Reflect(s, r.x, r.y, l.x, p).x == x3 by { assert s * s - l.x - r.x == s * s - r.x - l.x; }
    OrdinateCommutes(s, x3, l.x, l.y, r.x, r.y, p);
  }

  lemma OrdinateCommutes(s: int, x3: int, x1: int, y1: int, x2: int, y2: int, p: int)
    requires p > 0 && Cong(s * (x2 - x1), y2 - y1, p)
    ensures (s * (x1 - x3) - y1) % p == (s * (x2 - x3) - y2) % p
  {
    var k := CongElim(s * (x2 - x1), y2 - y1, p);
    assert s * (x2 - x3) == s * (x1 - x3) + s * (x2 - x1);
    CongIntro(s * (x2 - x3) - y2, s * (x1 - x3) - y1, k, p);
    CongIffSameRemainder(s * (x2 - x3) - y2, s * (x1 - x3) - y1, p);
  }

  /** (f(u) − f(x1)) / (u − x1), where f is the cubic less the square of the line. */
  function DividedDifference(u: int, s: int, x1: int, y1: int, c: Params): int {
    u * u + u * x1 + x1 * x1 + c.a - s * s * (u - x1) - 2 * s * y1
  }

  lemma CubicFactor(u: int, s: int, x1: int, y1: int, c: Params)
    ensures var line := s * (u - x1) + y1;
            Cubic(u, c) - line * line
            == Cubic(x1, c) - y1 * y1 + (u - x1) * DividedDifference(u, s, x1, y1, c)
  {
    var d := u - x1;
    var q, h := u * u + u * x1 + x1 * x1, s * s * d + 2 * s * y1;
    LineSquared(s, d, y1);
    CubeDifference(u, x1);
    assert c.a * u - c.a * x1 == d * c.a;
    assert d * q + d * c.a - d * h == d * (q + c.a - h);
  }

  lemma LineSquared(s: int, d: int, y1: int)
    ensures (s * d + y1) * (s * d + y1) == y1 * y1 + d * (s * s * d + 2 * s * y1)
  {
    var sd := s * d;
    assert (sd + y1) * (sd + y1) == sd * sd + 2 * (sd * y1) + y1 * y1;
    assert sd * sd == d * (s * s * d);
    assert sd * y1 == d * (s * y1);
    assert d * (s * s * d + 2 * (s * y1)) == d * (s * s * d) + 2 * (d * (s * y1));
  }

  lemma CubeDifference(u: int, v: int)
    ensures u * u * u - v * v * v == (u - v) * (u * u + u * v + v * v)
  {
  }

  lemma QuadraticFactor(u: int, v: int, s: int, x1: int, y1: int, c: Params)
    ensures DividedDifference(u, s, x1, y1, c) - DividedDifference(v, s, x1, y1, c)
            == (u - v) * (u + v + x1 - s * s)
  {
    assert s * s * (u - x1) - s * s * (v - x1) == (u - v) * (s * s);
    assert (u - v) * (u + v + x1) == u * u - v * v + u * x1 - v * x1;
  }

  /** A line through (x1, y1) that meets the cubic at x2 as well meets it again at x3. */
  lemma ReflectOnCurve(s: int, x1: int, y1: int, x2: int, c: Params)
    requires Field(c) && Cong(y1 * y1, Cubic(x1, c), c.p)
    requires Cong(DividedDifference(x2, s, x1, y1, c), 0, c.p)
    ensures OnCurve(Reflect(s, x1, y1, x2, c.p), c)
  {
    var p := c.p;
    var r := Reflect(s, x1, y1, x2, p);
    // the divided difference vanishes at x3 too
    QuadraticFactor(r.x, x2, s, x1, y1, c);
    var g2, g3 := DividedDifference(x2, s, x1, y1, c), DividedDifference(r.x, s, x1, y1, c);
    CongMod(s * s - x1 - x2, p);
    var k := CongElim(r.x, s * s - x1 - x2, p);
    CongIntro(r.x + x2 + x1 - s * s, 0, k, p);
    CongMul(r.x - x2, r.x - x2, r.x + x2 + x1 - s * s, 0, p);
    CongAdd(g3 - g2, 0, g2, 0, p);
    LineMeetsCurve(s, x1, y1, r.x, r.y, c);
  }

  /** So the cubic is the square of the line there, and the ordinate minus the line. */
  lemma LineMeetsCurve(s: int, x1: int, y1: int, x3: int, y3: int, c: Params)
    requires Field(c) && Cong(y1 * y1, Cubic(x1, c), c.p) && Cong(DividedDifference(x3, s, x1, y1, c), 0, c.p)
    requires y3 == (s * (x1 - x3) - y1) % c.p
    ensures Cong(y3 * y3, Cubic(x3, c), c.p)
  {
    var p, line, w := c.p, s * (x3 - x1) + y1, s * (x1 - x3) - y1;
    CubicFactor(x3, s, x1, y1, c);
    CubicIsSquare(Cubic(x1, c), y1, x3 - x1, DividedDifference(x3, s, x1, y1, c), Cubic(x3, c), line, p);
    assert w == -line by { assert s * (x1 - x3) == -(s * (x3 - x1)); }
    CongMod(w, p);
    CongMul(y3, w, y3, w, p);
    assert w * w == line * line;
    CongTrans(y3 * y3, w * w, Cubic(x3, c), p);
  }

  lemma CubicIsSquare(cubic1: int, y1: int, d: int, g: int, cubic3: int, line: int, p: int)
    requires p > 0 && Cong(y1 * y1, cubic1, p) && Cong(g, 0, p) && cubic3 - line * line == cubic1 - y1 * y1 + d * g
    ensures Cong(line * line, cubic3, p)
  {
    CongMul(d, d, g, 0, p);
    CongSym(y1 * y1, cubic1, p);
    CongAdd(cubic1, y1 * y1, d * g, 0, p);
    CongSub(cubic1 + d * g, y1 * y1, y1 * y1, y1 * y1, p);
    CongAdd(cubic3 - line * line, 0, line * line, line * line, p);
    CongSym(cubic3, line * line, p);
  }

  /** Addition stays on the curve. */
  lemma PlusOnCurve(l: Point, r: Point, c: Params)
    requires Field(c) && OnCurve(l, c) && OnCurve(r, c)
    ensures OnCurve(Plus(l, r, c), c)
  {
    if l.Affine? && r.Affine? {
      if l.x != r.x {
        ChordOnCurve(l, r, c);
      } else if l.y == r.y && l.y != 0 {
        var p := c.p;
        TwiceNonzero(l.y, p);
        var s := Quotient(3 * l.x * l.x + c.a, 2 * l.y, p);
        var k := CongElim(s * (2 * l.y), 3 * l.x * l.x + c.a, p);
        assert DividedDifference(l.x, s, l.x, l.y, c) == -k * p by {
          assert s * s * (l.x - l.x) == 0;
          assert 2 * s * l.y == s * (2 * l.y);
        }
        CongIntro(DividedDifference(l.x, s, l.x, l.y, c), 0, -k, p);
        ReflectOnCurve(s, l.x, l.y, l.x, c);
      }
    }
  }

  lemma OnLine(line: int, y: int, cubic: int, p: int)
    requires p > 0 && Cong(line, y, p) && Cong(y * y, cubic, p)
    ensures Cong(cubic - line * line, 0, p)
  {
    CongMul(line, y, line, y, p);
    CongTrans(line * line, y * y, cubic, p);
    CongSym(line * line, cubic, p);
    CongSub(cubic, line * line, line * line, line * line, p);
  }

  lemma RootCancels(dx: int, g: int, u: int, v: int, p: int)
    requires IsPrime(p) && dx % p != 0 && u - v == dx * g && Cong(u, 0, p) && Cong(v, 0, p)
    ensures Cong(g, 0, p)
  {
    CongSub(u, 0, v, 0, p);
    assert dx * 0 == 0;
    CancelFactor(dx, g, 0, p);
  }

  lemma ChordOnCurve(l: Point, r: Point, c: Params)
    requires Field(c) && OnCurve(l, c) && OnCurve(r, c) && l.Affine? && r.Affine? && l.x != r.x
    ensures OnCurve(Plus(l, r, c), c)
  {
    var p := c.p;
    DifferenceNonzero(r.x, l.x, p);
    var dx := r.x - l.x;
    var s := Quotient(r.y - l.y, dx, p);
    var line := s * dx + l.y;
    var g := DividedDifference(r.x, s, l.x, l.y, c);
    CubicFactor(r.x, s, l.x, l.y, c);
    // the line passes through r
    CongAdd(s * dx, r.y - l.y, l.y, l.y, p);
    OnLine(line, r.y, Cubic(r.x, c), p);
    OnLine(l.y, l.y, Cubic(l.x, c), p);
    RootCancels(dx, g, Cubic(r.x, c) - line * line, Cubic(l.x, c) - l.y * l.y, p);
    ReflectOnCurve(s, l.x, l.y, r.x, c);
  }

  // ------------------------------------------------------------- scalar multiples

  ghost predicate AssociativeAt(l: Point, r: Point, t: Point, c: Params)
    requires Field(c)
  {
    OnCurve(l, c) && OnCurve(r, c) && OnCurve(t, c)
    ==> Plus(Plus(l, r, c), t, c) == Plus(l, Plus(r, t, c), c)
  }

  /** The one fact about the curve that is assumed: its addition is associative. */
  ghost predicate Associative(c: Params)
    requires Field(c)
  {
    forall l, r, t :: AssociativeAt(l, r, t, c)
  }

  lemma Reassociate(l: Point, r: Point, t: Point, c: Params)
    requires Field(c) && Associative(c) && OnCurve(l, c) && OnCurve(r, c) && OnCurve(t, c)
    ensures Plus(Plus(l, r, c), t, c) == Plus(l, Plus(r, t, c), c)
  {
    assert AssociativeAt(l, r, t, c);
  }

  ghost function Multiple(k: nat, pt: Point, c: Params): (m: Point)
    requires Field(c) && ReducedPoint(pt, c)
    ensures ReducedPoint(m, c)
  {
    if k == 0 then Infinity else Plus(Multiple(k - 1, pt, c), pt, c)
  }

  lemma {:induction false} MultipleOnCurve(k: nat, pt: Point, c: Params)
    requires Field(c) && OnCurve(pt, c)
    ensures OnCurve(Multiple(k, pt, c), c)
  {
    if k > 0 {
      MultipleOnCurve(k - 1, pt, c);
      PlusOnCurve(Multiple(k - 1, pt, c), pt, c);
    }
  }

  lemma {:induction false} MultipleAdd(k: nat, l: nat, pt: Point, c: Params)
    requires Field(c) && Associative(c) && OnCurve(pt, c)
    ensures Multiple(k + l, pt, c) == Plus(Multiple(k, pt, c), Multiple(l, pt, c), c)
  {
    if l > 0 {
      MultipleAdd(k, l - 1, pt, c);
      MultipleOnCurve(k, pt, c);
      MultipleOnCurve(l - 1, pt, c);
      Reassociate(Multiple(k, pt, c), Multiple(l - 1, pt, c), pt, c);
    } else {
      PlusCommutes(Multiple(k, pt, c), Infinity, c);
    }
  }

  lemma {:induction false} MultipleMul(k: nat, l: nat, pt: Point, c: Params)
    requires Field(c) && Associative(c) && OnCurve(pt, c)
    ensures Multiple(Product(k, l), pt, c) == Multiple(k, Multiple(l, pt, c), c)
  {
    if k > 0 {
      MultipleMul(k - 1, l, pt, c);
      assert Product(k, l) == Product(k - 1, l) + l;
      MultipleAdd(Product(k - 1, l), l, pt, c);
    } else {
      assert Product(0, l) == 0;
    }
  }

  lemma {:induction false} MultipleOfInfinity(k: nat, c: Params)
    requires Field(c)
    ensures Multiple(k, Infinity, c) == Infinity
  {
    if k > 0 { MultipleOfInfinity(k - 1, c); }
  }

  /** Scalars count only modulo the order of the point. */
  lemma MultipleModOrder(k: nat, n: nat, pt: Point, c: Params)
    requires Field(c) && Associative(c) && OnCurve(pt, c) && n > 0 && Multiple(n, pt, c) == Infinity
    ensures Multiple(k, pt, c) == Multiple(k % n, pt, c)
  {
    var q, r := Divide(k, n);
    WholeTurns(q, r, n, pt, c);
  }

  lemma Divide(k: nat, n: nat) returns (q: nat, r: nat)
    requires n > 0
    ensures k == Product(q, n) + r && r == k % n
  {
    q, r := k / n, k % n;
  }

  lemma WholeTurns(q: nat, r: nat, n: nat, pt: Point, c: Params)
    requires Field(c) && Associative(c) && OnCurve(pt, c) && Multiple(n, pt, c) == Infinity
    ensures Multiple(Product(q, n) + r, pt, c) == Multiple(r, pt, c)
  {
    MultipleAdd(Product(q, n), r, pt, c);
    MultipleMul(q, n, pt, c);
    MultipleOfInfinity(q, c);
  }

  /** kP + lQ, the target of Shamir's trick. */
  ghost function Combination(k: nat, l: nat, g: Point, q: Point, c: Params): (m: Point)
    requires Field(c) && ReducedPoint(g, c) && ReducedPoint(q, c)
    ensures ReducedPoint(m, c)
  {
    Plus(Multiple(k, g, c), Multiple(l, q, c), c)
  }

  /** (A + B) + (C + D) = (A + C) + (B + D). */
  lemma PlusInterchange(a: Point, b: Point, d: Point, e: Point, c: Params)
    requires Field(c) && Associative(c)
    requires OnCurve(a, c) && OnCurve(b, c) && OnCurve(d, c) && OnCurve(e, c)
    ensures Plus(Plus(a, b, c), Plus(d, e, c), c) == Plus(Plus(a, d, c), Plus(b, e, c), c)
  {
    PlusOnCurve(d, e, c);
    PlusOnCurve(b, e, c);
    Reassociate(a, b, Plus(d, e, c), c);
    Reassociate(b, d, e, c);
    PlusCommutes(b, d, c);
    Reassociate(d, b, e, c);
    Reassociate(a, d, Plus(b, e, c), c);
  }

  lemma CombinationAdd(k: nat, l: nat, u: nat, v: nat, g: Point, q: Point, c: Params)
    requires Field(c) && Associative(c) && OnCurve(g, c) && OnCurve(q, c)
    ensures Plus(Combination(k, l, g, q, c), Combination(u, v, g, q, c), c)
            == Combination(k + u, l + v, g, q, c)
  {
    MultipleOnCurve(k, g, c);
    MultipleOnCurve(l, q, c);
    MultipleOnCurve(u, g, c);
    MultipleOnCurve(v, q, c);
    PlusInterchange(Multiple(k, g, c), Multiple(l, q, c), Multiple(u, g, c), Multiple(v, q, c), c);
    MultipleAdd(k, u, g, c);
    MultipleAdd(l, v, q, c);
  }
}
