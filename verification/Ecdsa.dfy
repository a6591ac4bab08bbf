/** The big-integer ECDSA verifier: point and signature decoding, and verification. */
module Ecdsa {
  import opened Modular
  import opened Primes
  import opened Wrappers
  import opened ByteStrings
  import opened Curves
  import Der

  // --------------------------------------------------------------------- decoding

  /** Only the uncompressed form is read, and only for reduced coordinates that satisfy the equation. */
  function DecodePoint(c: Params, bytes: Bytes): Option<(nat, nat)>
    requires c.p > 0
  {
    var len := ByteLength(c.p);
    if |bytes| != 1 + 2 * len || bytes[0] != 0x04 then None
    else
      var x, y := Nat(bytes[1..1 + len]), Nat(bytes[1 + len..]);
      if x >= c.p || y >= c.p then None
      else
        var rhs := (ModPow(x, 3, c.p) + c.a * x + c.b) % c.p;
        if ModPow(y, 2, c.p) == rhs then Some((x, y)) else None
  }

  function EncodePoint(c: Params, x: nat, y: nat): Bytes {
    [0x04] + Fixed(x, ByteLength(c.p)) + Fixed(y, ByteLength(c.p))
  }

  lemma CurveEquation(c: Params, x: nat, y: nat)
    requires Field(c)
    ensures ModPow(y, 2, c.p) == (ModPow(x, 3, c.p) + c.a * x + c.b) % c.p
            <==> Cong(y * y, Cubic(x, c), c.p)
  {
    var p := c.p;
    assert Pow(y, 2) == y * y by { assert Pow(y, 1) == y * Pow(y, 0); }
    assert Pow(x, 3) == x * x * x by {
      assert Pow(x, 1) == x * Pow(x, 0);
      assert Pow(x, 2) == x * x;
      assert x * (x * x) == x * x * x;
    }
    CongMod(Pow(x, 3), p);
    var tail := c.a * x + c.b;
    CongAdd(ModPow(x, 3, p), Pow(x, 3), tail, tail, p);
    CongIffSameRemainder(ModPow(x, 3, p) + tail, Pow(x, 3) + tail, p);
    assert ModPow(x, 3, p) + c.a * x + c.b == ModPow(x, 3, p) + tail;
    assert Pow(x, 3) + tail == Cubic(x, c);
    CongIffSameRemainder(y * y, Cubic(x, c), p);
  }

  /** The decoder accepts exactly the encodings of reduced points on the curve. */
  lemma DecodePointExact(c: Params, bytes: Bytes, x: nat, y: nat)
    requires Field(c)
    ensures DecodePoint(c, bytes) == Some((x, y))
            <==> OnCurve(Affine(x, y), c) && bytes == EncodePoint(c, x, y)
  {
    var len := ByteLength(c.p);
    CurveEquation(c, x, y);
    if DecodePoint(c, bytes) == Some((x, y)) {
      CoordinatesSplit(bytes, len);
    }
    if OnCurve(Affine(x, y), c) && bytes == EncodePoint(c, x, y) {
      ByteLengthFits(c.p);
      CoordinatesJoin(bytes, x, y, len);
    }
  }

  lemma CoordinatesSplit(bytes: Bytes, len: nat)
    requires |bytes| == 1 + 2 * len
    ensures bytes == [bytes[0]] + Fixed(Nat(bytes[1..1 + len]), len) + Fixed(Nat(bytes[1 + len..]), len)
  {
    FixedOfNat(bytes[1..1 + len]);
    FixedOfNat(bytes[1 + len..]);
    assert bytes == [bytes[0]] + bytes[1..1 + len] + bytes[1 + len..];
  }

  lemma CoordinatesJoin(bytes: Bytes, x: nat, y: nat, len: nat)
    requires bytes == [0x04] + Fixed(x, len) + Fixed(y, len) && x < Pow(256, len) && y < Pow(256, len)
    ensures |bytes| == 1 + 2 * len && bytes[0] == 0x04
    ensures Nat(bytes[1..1 + len]) == x && Nat(bytes[1 + len..]) == y
  {
    NatOfFixed(x, len);
    NatOfFixed(y, len);
    assert bytes[1..1 + len] == Fixed(x, len) && bytes[1 + len..] == Fixed(y, len);
  }

  /** Both contents are read as unsigned numbers, whatever their sign bit and length. */
  function ParseSignature(signature: Bytes): Option<(nat, nat)> {
    var body :- Der.Expect(signature, Der.SEQUENCE);
    var (r, afterR) :- Der.Take(body, Der.INTEGER);
    var (s, afterS) :- Der.Take(afterR, Der.INTEGER);
    if afterS != [] then None else Some((Nat(r), Nat(s)))
  }

  /** The two INTEGERs of a signature, with these contents. */
  function TwoIntegers(rBytes: Bytes, sBytes: Bytes): Bytes
    requires Der.Fits32(rBytes) && Der.Fits32(sBytes)
  {
    Der.Canonical(Der.INTEGER, rBytes) + Der.Canonical(Der.INTEGER, sBytes)
  }

  /** Only a SEQUENCE of exactly two INTEGERs parses, to the numbers their contents spell. */
  lemma ParseSignatureExact(signature: Bytes, rs: (nat, nat))
    ensures ParseSignature(signature) == Some(rs)
            <==> exists rBytes, sBytes ::
                   && Der.Fits32(rBytes) && Der.Fits32(sBytes) && Der.Fits32(TwoIntegers(rBytes, sBytes))
                   && signature == Der.Canonical(Der.SEQUENCE, TwoIntegers(rBytes, sBytes))
                   && rs == (Nat(rBytes), Nat(sBytes))
  {
    if ParseSignature(signature) == Some(rs) {
      var body := Der.Expect(signature, Der.SEQUENCE).value;
      var (rBytes, afterR) := Der.Take(body, Der.INTEGER).value;
      var (sBytes, afterS) := Der.Take(afterR, Der.INTEGER).value;
      Der.ExpectExact(signature, Der.SEQUENCE, body);
      Der.TakeExact(body, Der.INTEGER, rBytes, afterR);
      Der.TakeExact(afterR, Der.INTEGER, sBytes, []);
      assert afterR == Der.Canonical(Der.INTEGER, sBytes);
      assert body == TwoIntegers(rBytes, sBytes);
    }
    forall rBytes, sBytes |
      && Der.Fits32(rBytes) && Der.Fits32(sBytes) && Der.Fits32(TwoIntegers(rBytes, sBytes))
      && signature == Der.Canonical(Der.SEQUENCE, TwoIntegers(rBytes, sBytes))
      ensures ParseSignature(signature) == Some((Nat(rBytes), Nat(sBytes)))
    {
      var s := Der.Canonical(Der.INTEGER, sBytes);
      assert s == s + [];
      Der.ExpectExact(signature, Der.SEQUENCE, TwoIntegers(rBytes, sBytes));
      Der.TakeExact(TwoIntegers(rBytes, sBytes), Der.INTEGER, rBytes, s);
      Der.TakeExact(s, Der.INTEGER, sBytes, []);
    }
  }

  /** The ECDSA-Sig-Value DER prescribes for (r, s). */
  predicate IsDerSignature(signature: Bytes, r: nat, s: nat) {
    && Der.Fits32(Der.Uint(r)) && Der.Fits32(Der.Uint(s)) && Der.Fits32(TwoIntegers(Der.Uint(r), Der.Uint(s)))
    && signature == Der.Canonical(Der.SEQUENCE, TwoIntegers(Der.Uint(r), Der.Uint(s)))
  }

  /**
   An accepted signature is the DER encoding of what it parses to exactly when the
   contents of both its INTEGERs are not empty, not negative and not padded.
   */
  lemma AcceptedIsDerExactly(rBytes: Bytes, sBytes: Bytes)
    requires Der.Fits32(rBytes) && Der.Fits32(sBytes) && Der.Fits32(TwoIntegers(rBytes, sBytes))
    ensures var signature := Der.Canonical(Der.SEQUENCE, TwoIntegers(rBytes, sBytes));
            && ParseSignature(signature) == Some((Nat(rBytes), Nat(sBytes)))
            && (IsDerSignature(signature, Nat(rBytes), Nat(sBytes)) <==> Der.IsUint(rBytes) && Der.IsUint(sBytes))
  {
    var signature := Der.Canonical(Der.SEQUENCE, TwoIntegers(rBytes, sBytes));
    ParseSignatureExact(signature, (Nat(rBytes), Nat(sBytes)));
    Der.UintExact(rBytes);
    Der.UintExact(sBytes);
    if IsDerSignature(signature, Nat(rBytes), Nat(sBytes)) {
      SameIntegers(signature, rBytes, sBytes, Der.Uint(Nat(rBytes)), Der.Uint(Nat(sBytes)));
    }
  }

  lemma SameIntegers(signature: Bytes, a: Bytes, b: Bytes, a': Bytes, b': Bytes)
    requires Der.Fits32(a) && Der.Fits32(b) && Der.Fits32(TwoIntegers(a, b))
    requires Der.Fits32(a') && Der.Fits32(b') && Der.Fits32(TwoIntegers(a', b'))
    requires signature == Der.Canonical(Der.SEQUENCE, TwoIntegers(a, b)) == Der.Canonical(Der.SEQUENCE, TwoIntegers(a', b'))
    ensures a == a' && b == b'
  {
    var s, s' := Der.Canonical(Der.INTEGER, b), Der.Canonical(Der.INTEGER, b');
    Der.ExpectExact(signature, Der.SEQUENCE, TwoIntegers(a, b));
    Der.ExpectExact(signature, Der.SEQUENCE, TwoIntegers(a', b'));
    Der.TakeExact(TwoIntegers(a, b), Der.INTEGER, a, s);
    Der.TakeExact(TwoIntegers(a, b), Der.INTEGER, a', s');
    Der.ExpectExact(s, Der.INTEGER, b);
    Der.ExpectExact(s, Der.INTEGER, b');
  }

  /** Padded, negative and empty contents are all accepted, as the contents of r or of s. */
  lemma NonDerSignaturesAreAccepted()
    ensures ParseSignature([0x30, 0x07, 0x02, 0x02, 0x00, 0x01, 0x02, 0x01, 0xFF]) == Some((1, 255))
    ensures !IsDerSignature([0x30, 0x07, 0x02, 0x02, 0x00, 0x01, 0x02, 0x01, 0xFF], 1, 255)
    ensures ParseSignature([0x30, 0x05, 0x02, 0x00, 0x02, 0x01, 0x80]) == Some((0, 128))
    ensures !IsDerSignature([0x30, 0x05, 0x02, 0x00, 0x02, 0x01, 0x80], 0, 128)
  {
    PaddedIsAccepted();
    EmptyIsAccepted();
  }

  lemma PaddedIsAccepted()
    ensures var signature := [0x30, 0x07, 0x02, 0x02, 0x00, 0x01, 0x02, 0x01, 0xFF];
            ParseSignature(signature) == Some((1, 255)) && !IsDerSignature(signature, 1, 255)
  {
    var padded: Bytes, top: Bytes := [0x00, 0x01], [0xFF];
    assert TwoIntegers(padded, top) == [0x02, 0x02, 0x00, 0x01, 0x02, 0x01, 0xFF];
    SmallNumbers();
    AcceptedIsDerExactly(padded, top);
  }

  lemma EmptyIsAccepted()
    ensures var signature := [0x30, 0x05, 0x02, 0x00, 0x02, 0x01, 0x80];
            ParseSignature(signature) == Some((0, 128)) && !IsDerSignature(signature, 0, 128)
  {
    var empty: Bytes, negative: Bytes := [], [0x80];
    assert TwoIntegers(empty, negative) == [0x02, 0x00, 0x02, 0x01, 0x80];
    SmallNumbers();
    AcceptedIsDerExactly(empty, negative);
  }

  lemma SmallNumbers()
    ensures Nat([0x00, 0x01]) == 1 && Nat([0xFF]) == 255 && Nat([]) == 0 && Nat([0x80]) == 128
  {
    var one: Bytes, top: Bytes, negative: Bytes := [0x00, 0x01], [0xFF], [0x80];
    assert one[..1] == [0x00] && top[..0] == [] && negative[..0] == [];
    var zero: Bytes := [0x00];
    assert zero[..0] == [];
  }

  // ----------------------------------------------------------------- verification

  /** The leftmost bits of the digest, as many as n has (section 4.1.4 of SEC 1, step 5). */
  function HashToInt(c: Params, digest: Bytes): nat {
    var e := Nat(digest);
    var digestBits, nBits := |digest| * 8, BitLength(c.n);
    if digestBits > nBits then
      PowPositive(2, digestBits - nBits);
      e / Pow(2, digestBits - nBits)
    else e
  }

  /** The bit at place j of a byte string, from the left. */
  predicate BitFromLeft(digest: Bytes, j: nat)
    requires j < 8 * |digest|
  {
    Bit(digest[j / 8], 7 - j % 8)
  }

  /** How many bits of a digest count: all of them, or as many as n has. */
  function CountedBits(c: Params, digest: Bytes): nat {
    if |digest| * 8 > BitLength(c.n) then BitLength(c.n) else |digest| * 8
  }

  /** The integer's bits are the digest's leftmost ones, in order, for any lengths of digest and n … */
  lemma HashToIntLeftmost(c: Params, digest: Bytes, j: nat)
    requires j < CountedBits(c, digest)
    ensures Bit(HashToInt(c, digest), CountedBits(c, digest) - 1 - j) <==> BitFromLeft(digest, j)
  {
    var dropped: nat := |digest| * 8 - CountedBits(c, digest);
    assert HashToInt(c, digest) == ShiftRight(Nat(digest), dropped) by { ShiftZero(Nat(digest)); }
    ShiftedBit(Nat(digest), dropped, CountedBits(c, digest) - 1 - j);
    BitOfNat(digest, j);
  }

  /** … and there are no others. */
  lemma HashToIntBound(c: Params, digest: Bytes)
    ensures HashToInt(c, digest) < Pow(2, CountedBits(c, digest))
  {
    var e, nBits := Nat(digest), BitLength(c.n);
    NatBound(digest);
    Pow256(|digest|);
    if |digest| * 8 > nBits {
      var k := |digest| * 8 - nBits;
      PowPositive(2, k);
      PowAdd(2, nBits, k);
      QuotientBelow(e, Pow(2, nBits), Pow(2, k));
    }
  }

  /** A number's bits are those of the bytes that spell it. */
  lemma {:induction false} BitOfNat(s: Bytes, j: nat)
    requires j < 8 * |s|
    ensures Bit(Nat(s), 8 * |s| - 1 - j) <==> BitFromLeft(s, j)
  {
    var high, last, i := s[..|s| - 1], s[|s| - 1], 8 * |s| - 1 - j;
    if i < 8 {
      LowByteBit(Nat(high), last, i);
    } else {
      HighByteBit(Nat(high), last, i - 8);
      BitOfNat(high, j);
    }
  }

  lemma LowByteBit(high: nat, last: Byte, i: nat)
    requires i < 8
    ensures Bit(high * 256 + last, i) <==> Bit(last, i)
  {
    var unit, rest := Pow(2, i), Pow(2, 7 - i);
    PowPositive(2, i);
    PowPositive(2, 7 - i);
    PowAdd(2, 7 - i, i);
    assert Pow(2, 7) == 128 by { PowAdd(2, 4, 3); assert Pow(2, 4) == 16 && Pow(2, 3) == 8; }
    EvenPart(high, rest, unit);
    QuotientOfSum(high * 256 + last, last, 2 * Product(high, rest), unit);
  }

  lemma EvenPart(high: nat, rest: nat, unit: nat)
    requires rest * unit == 128
    ensures 2 * Product(high, rest) * unit == high * 256
  {
    assert high * rest * unit == high * (rest * unit);
  }

  lemma QuotientOfSum(n: nat, low: nat, k: nat, unit: nat)
    requires unit > 0 && n == k * unit + low
    ensures n / unit == low / unit + k
  {
    var q, r := low / unit, low % unit;
    assert n == (q + k) * unit + r by { assert (q + k) * unit == q * unit + k * unit; }
    QuotientUnique(n, unit, q + k, r);
  }

  lemma HighByteBit(high: nat, last: Byte, i: nat)
    ensures Bit(high * 256 + last, i + 8) <==> Bit(high, i)
  {
    assert Pow(2, 8) == 256 by { PowAdd(2, 4, 4); assert Pow(2, 4) == 16; }
    ShiftedBit(high * 256 + last, 8, i);
    QuotientUnique(high * 256 + last, 256, high, last);
  }

  /** Shifting right moves the bits down. */
  lemma ShiftedBit(u: nat, k: nat, i: nat)
    ensures Bit(ShiftRight(u, k), i) <==> Bit(u, k + i)
  {
    PowPositive(2, k);
    PowPositive(2, i);
    PowAdd(2, k, i);
    NestedQuotient(u, Pow(2, k), Pow(2, i));
  }

  lemma NestedQuotient(u: nat, a: nat, b: nat)
    requires a > 0 && b > 0
    ensures a * b > 0 && u / a / b == u / (a * b)
  {
    var q, r := u / a, u % a;
    var q', r' := q / b, q % b;
    NestedDivision(u, a, b, q, r, q', r');
  }

  lemma NestedDivision(u: nat, a: nat, b: nat, q: nat, r: nat, q': nat, r': nat)
    requires a > 0 && b > 0 && u == q * a + r && r < a && q == q' * b + r' && r' < b
    ensures a * b > 0 && u / (a * b) == q'
  {
    MultipleSize(b, a);
    var whole: nat, low: nat := Product(a, b), Product(r', a) + r;
    LowPart(a, b, r, r');
    TwoSteps(u, a, b, q, r, q', r');
    QuotientUnique(u, whole, q', low);
  }

  lemma LowPart(a: nat, b: nat, r: nat, r': nat)
    requires r < a && r' < b
    ensures Product(r', a) + r < Product(a, b)
  {
    MulOrder(r' + 1, b, a);
    assert (r' + 1) * a == r' * a + a;
  }

  lemma TwoSteps(u: int, a: int, b: int, q: int, r: int, q': int, r': int)
    requires u == q * a + r && q == q' * b + r'
    ensures u == q' * (a * b) + (r' * a + r)
  {
    assert (q' * b + r') * a == q' * b * a + r' * a;
    assert q' * b * a == q' * (a * b);
  }

  lemma QuotientBelow(e: nat, a: nat, b: nat)
    requires b > 0 && e < a * b
    ensures e / b < a
  {
    var q := e / b;
    assert e == q * b + e % b;
    MultipleSize(q - a, b);
    assert (q - a) * b == q * b - a * b;
  }

  predicate Bit(u: nat, i: nat) {
    PowPositive(2, i);
    u / Pow(2, i) % 2 == 1
  }

  /** The hypotheses on a curve's constants: p and n prime, G on the curve with nG at infinity. */
  ghost predicate CurveFacts(c: Params) {
    && Field(c) && IsPrime(c.n)
    && OnCurve(Generator(c), c) && Multiple(c.n, Generator(c), c) == Infinity
    && Associative(c)
  }

  function Generator(c: Params): Point {
    Affine(c.g.0, c.g.1)
  }

  /** Section 4.1.4 of SEC 1, over points and true inverses. */
  ghost predicate SignatureValid(c: Params, q: Point, e: nat, r: nat, s: nat)
    requires CurveFacts(c) && OnCurve(q, c)
  {
    && 1 <= r < c.n && 1 <= s < c.n
    && (NonzeroReduced(s, c.n);
        var w := Inverse(s, c.n);
        var sum := Combination(e * w % c.n, r * w % c.n, Generator(c), q, c);
        sum.Affine? && sum.x % c.n == r)
  }

  ghost predicate Accepts(c: Params, point: Bytes, digest: Bytes, signature: Bytes)
    requires CurveFacts(c)
  {
    var q, rs := DecodePoint(c, point), ParseSignature(signature);
    && q.Some? && rs.Some?
    && (DecodePointExact(c, point, q.value.0, q.value.1);
        SignatureValid(c, Affine(q.value.0, q.value.1), HashToInt(c, digest), rs.value.0, rs.value.1))
  }

  /** `verify_bigint`: it accepts exactly the signatures SEC 1 accepts. */
  method VerifyBigint(c: Params, point: Bytes, digest: Bytes, signature: Bytes) returns (ok: bool)
    requires CurveFacts(c)
    ensures ok <==> Accepts(c, point, digest, signature)
  {
    var q := DecodePoint(c, point);
    if q.None? { return false; }
    DecodePointExact(c, point, q.value.0, q.value.1);
    var rs := ParseSignature(signature);
    if rs.None? { return false; }
    var (r, s) := rs.value;
    if r == 0 || s == 0 || r >= c.n || s >= c.n { return false; }
    var e := HashToInt(c, digest);
    var w := ModPow(s, c.n - 2, c.n);
    PowerIsInverse(s, c.n);
    var acc := ShamirSum(c, c.g, q.value, e * w % c.n, r * w % c.n);
    ToAffineXRefines(acc, Combination(e * w % c.n, r * w % c.n, Generator(c), Affine(q.value.0, q.value.1), c), c);
    match ToAffineX(acc, c) {
      case Some(x) => ok := x % c.n == r;
      case None => ok := false;
    }
  }

  lemma PowerIsInverse(s: nat, n: nat)
    requires IsPrime(n) && 0 < s < n
    ensures s % n != 0 && ModPow(s, n - 2, n) == Inverse(s, n)
  {
    NonzeroReduced(s, n);
    FermatInverse(s, n);
    var v, w := ModPow(s, n - 2, n), Inverse(s, n);
    CongSym(s * w, 1, n);
    CongTrans(s * v, 1, s * w, n);
    CancelFactor(s, v, w, n);
    SmallCongIsEqual(v, w, n);
  }

  /** Both scalars at once: one doubling for each bit, and at most one addition. */
  method ShamirSum(c: Params, gPoint: (nat, nat), qPoint: (nat, nat), u1: nat, u2: nat) returns (acc: Jacobian)
    requires Field(c) && Associative(c)
    requires OnCurve(Affine(gPoint.0, gPoint.1), c) && OnCurve(Affine(qPoint.0, qPoint.1), c)
    ensures Represents(acc, Combination(u1, u2, Affine(gPoint.0, gPoint.1), Affine(qPoint.0, qPoint.1), c), c)
  {
    ghost var gp, qp := Affine(gPoint.0, gPoint.1), Affine(qPoint.0, qPoint.1);
    var g, q := FromAffine(gPoint), FromAffine(qPoint);
    FromAffineRepresents(gPoint, c);
    FromAffineRepresents(qPoint, c);
    var sum := Add(g, q, c);
    AddRefines(g, q, gp, qp, c);
    acc := INFINITY;
    SmallCombinations(gp, qp, c);
    var top := if BitLength(u1) >= BitLength(u2) then BitLength(u1) else BitLength(u2);
    StartsAtZero(u1, top);
    StartsAtZero(u2, top);
    for bit := top downto 0
      invariant Represents(acc, Combination(ShiftRight(u1, bit), ShiftRight(u2, bit), gp, qp, c), c)
    {
      var b1, b2 := Bit(u1, bit), Bit(u2, bit);
      ShiftStep(u1, bit);
      ShiftStep(u2, bit);
      ShamirStep(acc, g, q, sum, gp, qp, ShiftRight(u1, bit + 1), ShiftRight(u2, bit + 1), b1, b2, c);
      acc := Double(acc, c);
      acc := ShamirAdd(acc, g, q, sum, b1, b2, c);
    }
    ShiftZero(u1);
    ShiftZero(u2);
  }

  lemma ShiftZero(u: nat)
    ensures ShiftRight(u, 0) == u
  {
    assert Pow(2, 0) == 1;
  }

  /** The addition for one pair of bits. */
  function ShamirAdd(acc: Jacobian, g: Jacobian, q: Jacobian, sum: Jacobian, b1: bool, b2: bool, c: Params): Jacobian
    requires c.p > 0
  {
    match (b1, b2)
    case (true, true) => Add(acc, sum, c)
    case (true, false) => Add(acc, g, c)
    case (false, true) => Add(acc, q, c)
    case (false, false) => acc
  }

  function BitValue(b: bool): nat { if b then 1 else 0 }

  lemma ShamirStep(acc: Jacobian, g: Jacobian, q: Jacobian, sum: Jacobian, gp: Point, qp: Point,
                   a: nat, b: nat, b1: bool, b2: bool, c: Params)
    requires Field(c) && Associative(c) && OnCurve(gp, c) && OnCurve(qp, c)
    requires Represents(g, gp, c) && Represents(q, qp, c) && Represents(sum, Plus(gp, qp, c), c)
    requires Represents(acc, Combination(a, b, gp, qp, c), c)
    ensures Represents(ShamirAdd(Double(acc, c), g, q, sum, b1, b2, c),
                       Combination(2 * a + BitValue(b1), 2 * b + BitValue(b2), gp, qp, c), c)
  {
    ShamirDoubles(acc, gp, qp, a, b, c);
    ShamirAddRefines(Double(acc, c), g, q, sum, Combination(2 * a, 2 * b, gp, qp, c), gp, qp, b1, b2, c);
    CombinationAdd(2 * a, 2 * b, BitValue(b1), BitValue(b2), gp, qp, c);
  }

  lemma ShamirDoubles(acc: Jacobian, gp: Point, qp: Point, a: nat, b: nat, c: Params)
    requires Field(c) && Associative(c) && OnCurve(gp, c) && OnCurve(qp, c)
    requires Represents(acc, Combination(a, b, gp, qp, c), c)
    ensures Represents(Double(acc, c), Combination(2 * a, 2 * b, gp, qp, c), c)
  {
    DoubleRefines(acc, Combination(a, b, gp, qp, c), c);
    CombinationAdd(a, b, a, b, gp, qp, c);
  }

  lemma ShamirAddRefines(acc: Jacobian, g: Jacobian, q: Jacobian, sum: Jacobian, pt: Point, gp: Point, qp: Point,
                         b1: bool, b2: bool, c: Params)
    requires Field(c) && ReducedPoint(gp, c) && ReducedPoint(qp, c) && Represents(acc, pt, c)
    requires Represents(g, gp, c) && Represents(q, qp, c) && Represents(sum, Plus(gp, qp, c), c)
    ensures Represents(ShamirAdd(acc, g, q, sum, b1, b2, c),
                       Plus(pt, Combination(BitValue(b1), BitValue(b2), gp, qp, c), c), c)
  {
    SmallCombinations(gp, qp, c);
    match (b1, b2) {
      case (true, true) => AddRefines(acc, sum, pt, Plus(gp, qp, c), c);
      case (true, false) => AddRefines(acc, g, pt, gp, c);
      case (false, true) => AddRefines(acc, q, pt, qp, c);
      case (false, false) =>
    }
  }

  lemma StartsAtZero(u: nat, top: nat)
    requires BitLength(u) <= top
    ensures ShiftRight(u, top) == 0
  {
    BitLengthBounds(u);
    PowMonotone(2, BitLength(u), top);
    QuotientUnique(u, Pow(2, top), 0, u);
  }

  lemma ShiftStep(u: nat, i: nat)
    ensures ShiftRight(u, i) == 2 * ShiftRight(u, i + 1) + BitValue(Bit(u, i))
  {
    PowPositive(2, i);
    HalfQuotient(u, Pow(2, i));
  }

  lemma HalfQuotient(u: nat, h: nat)
    requires h > 0
    ensures u / (2 * h) == (u / h) / 2
  {
    var q := (u / h) / 2;
    var r := u - q * (2 * h);
    assert u == (u / h) * h + u % h;
    assert (u / h) * h == (2 * q + (u / h) % 2) * h == q * (2 * h) + ((u / h) % 2) * h;
    assert 0 <= ((u / h) % 2) * h <= h;
    assert 0 <= r < 2 * h;
    QuotientUnique(u, 2 * h, q, r);
  }

  lemma SmallCombinations(g: Point, q: Point, c: Params)
    requires Field(c) && ReducedPoint(g, c) && ReducedPoint(q, c)
    ensures Combination(1, 1, g, q, c) == Plus(g, q, c)
    ensures Combination(1, 0, g, q, c) == g && Combination(0, 1, g, q, c) == q
    ensures Combination(0, 0, g, q, c) == Infinity
  {
    assert Multiple(1, g, c) == Plus(Multiple(0, g, c), g, c);
    assert Multiple(1, q, c) == Plus(Multiple(0, q, c), q, c);
  }

  // ------------------------------------------------------------------ completeness

  /**
   Under Q = dG the verifier recovers the nonce point: the sum it computes is kG for
   k = (e + r·d)/s, whatever e, r and s are.
   */
  lemma SumIsNoncePoint(c: Params, d: nat, k: nat, e: nat, r: nat, s: nat)
    requires CurveFacts(c) && 0 < s < c.n && s % c.n != 0 && Cong(s * k, e + r * d, c.n)
    ensures var w := Inverse(s, c.n);
            Combination(e * w % c.n, r * w % c.n, Generator(c), Multiple(d, Generator(c), c), c)
            == Multiple(k, Generator(c), c)
  {
    var w := Inverse(s, c.n);
    NonceScalar(d, k, e, r, s, w, c.n);
    CombinationOfMultiple(e * w % c.n, r * w % c.n, d, Generator(c), c);
    SameMultiple(Scalar(e * w % c.n, r * w % c.n, d), k, c);
  }

  /** What u1·G + u2·Q multiplies G by, when Q = dG. */
  function Scalar(u1: nat, u2: nat, d: nat): nat {
    u1 + Product(u2, d)
  }

  lemma SameMultiple(i: nat, k: nat, c: Params)
    requires CurveFacts(c) && Cong(i, k, c.n)
    ensures Multiple(i, Generator(c), c) == Multiple(k, Generator(c), c)
  {
    CongIffSameRemainder(i, k, c.n);
    MultipleModOrder(i, c.n, Generator(c), c);
    MultipleModOrder(k, c.n, Generator(c), c);
  }

  lemma CombinationOfMultiple(u1: nat, u2: nat, d: nat, g: Point, c: Params)
    requires Field(c) && Associative(c) && OnCurve(g, c)
    ensures Combination(u1, u2, g, Multiple(d, g, c), c) == Multiple(Scalar(u1, u2, d), g, c)
  {
    MultipleMul(u2, d, g, c);
    MultipleAdd(u1, Product(u2, d), g, c);
  }

  /** u1 + u2·d ≡ w(e + r·d) ≡ w·s·k ≡ k. */
  lemma NonceScalar(d: nat, k: nat, e: nat, r: nat, s: nat, w: nat, n: nat)
    requires n > 0 && Cong(s * k, e + r * d, n) && Cong(s * w, 1, n)
    ensures Cong(Scalar(e * w % n, r * w % n, d), k, n)
  {
    var u1, u2 := e * w % n, r * w % n;
    CongMod(e * w, n);
    CongMod(r * w, n);
    CongMul(u2, r * w, d, d, n);
    CongAdd(u1, e * w, u2 * d, r * w * d, n);
    CongSym(s * k, e + r * d, n);
    CongMul(w, w, e + r * d, s * k, n);
    assert e * w + r * w * d == w * (e + r * d) by { assert r * w * d == w * (r * d); }
    CongTrans(u1 + u2 * d, w * (e + r * d), w * (s * k), n);
    CongMul(s * w, 1, k, k, n);
    assert w * (s * k) == s * w * k;
    CongTrans(u1 + u2 * d, s * w * k, k, n);
  }

  /**
   Completeness: for every private key d, nonce k and digest, the signature
   r = x(kG) mod n, s = (e + r·d)/k with r and s nonzero is accepted under Q = dG.
   */
  lemma SignedIsAccepted(c: Params, d: nat, k: nat, point: Bytes, digest: Bytes, signature: Bytes, r: nat, s: nat)
    requires CurveFacts(c)
    requires var q := Multiple(d, Generator(c), c);
             q.Affine? && DecodePoint(c, point) == Some((q.x, q.y))
    requires ParseSignature(signature) == Some((r, s))
    requires Multiple(k, Generator(c), c).Affine? && r == Multiple(k, Generator(c), c).x % c.n
    requires 0 < r && 0 < s < c.n && Cong(s * k, HashToInt(c, digest) + r * d, c.n)
    ensures Accepts(c, point, digest, signature)
  {
    NonzeroReduced(s, c.n);
    SumIsNoncePoint(c, d, k, HashToInt(c, digest), r, s);
  }
}
