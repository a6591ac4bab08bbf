/** RSA public-key operations: key parsing, PKCS #1 v1.5 and PSS verification. */
module Rsa {
  import opened Modular
  import opened Primes
  import opened Wrappers
  import opened ByteStrings
  import opened Hashes
  import opened HashNames
  import Der

  datatype RsaPublicKey = RsaPublicKey(n: nat, e: nat) {
    /** Modulus size in bytes. */
    function Size(): nat { ByteLength(n) }
  }

  // ------------------------------------------------------------------ key parsing

  /** A DER INTEGER's contents as a positive, minimally encoded number. */
  function ParseDerUint(bytes: Bytes): Option<nat> {
    if bytes == [] then None
    else if bytes[0] >= 0x80 then None
    else if bytes == [0x00] then None
    else if bytes[0] == 0x00 && bytes[1] < 0x80 then None
    else if bytes[0] == 0x00 then Some(Nat(bytes[1..]))
    else Some(Nat(bytes))
  }

  lemma ParseDerUintExact(bytes: Bytes, v: nat)
    ensures ParseDerUint(bytes) == Some(v) <==> v > 0 && bytes == Der.Uint(v)
  {
    if ParseDerUint(bytes) == Some(v) {
      if bytes[0] == 0x00 {
        MinimalOfNat(bytes[1..]);
        assert bytes == [0x00] + bytes[1..];
      } else {
        MinimalOfNat(bytes);
      }
    }
    if v > 0 && bytes == Der.Uint(v) {
      MinimalLeadingByte(v);
      NatOfMinimal(v);
      if Minimal(v)[0] >= 0x80 { assert bytes[1..] == Minimal(v); }
    }
  }

  function FromPkcs1Der(der: Bytes): Option<RsaPublicKey> {
    var s :- Der.Expect(der, Der.SEQUENCE);
    var (nBytes, rest) :- Der.Take(s, Der.INTEGER);
    var (eBytes, tail) :- Der.Take(rest, Der.INTEGER);
    if tail != [] then None
    else
      var n :- ParseDerUint(nBytes);
      var e :- ParseDerUint(eBytes);
      if e < 3 || e % 2 == 0 then None else Some(RsaPublicKey(n, e))
  }

  predicate KeyFits(key: RsaPublicKey) {
    Der.Fits32(Der.Uint(key.n)) && Der.Fits32(Der.Uint(key.e)) && Der.Fits32(KeyIntegers(key))
  }

  function KeyIntegers(key: RsaPublicKey): Bytes
    requires Der.Fits32(Der.Uint(key.n)) && Der.Fits32(Der.Uint(key.e))
  {
    Der.Canonical(Der.INTEGER, Der.Uint(key.n)) + Der.Canonical(Der.INTEGER, Der.Uint(key.e))
  }

  /**
   A key loads from exactly one byte string, its DER RSAPublicKey, and only with a
   positive modulus and an odd exponent of at least 3.
   */
  lemma FromPkcs1DerExact(der: Bytes, key: RsaPublicKey)
    ensures FromPkcs1Der(der) == Some(key)
            <==> && key.n > 0 && key.e >= 3 && key.e % 2 == 1 && KeyFits(key)
                 && der == Der.Canonical(Der.SEQUENCE, KeyIntegers(key))
  {
    if FromPkcs1Der(der) == Some(key) {
      var s := Der.Expect(der, Der.SEQUENCE).value;
      var (nBytes, rest) := Der.Take(s, Der.INTEGER).value;
      var (eBytes, tail) := Der.Take(rest, Der.INTEGER).value;
      Der.ExpectExact(der, Der.SEQUENCE, s);
      Der.TakeExact(s, Der.INTEGER, nBytes, rest);
      Der.TakeExact(rest, Der.INTEGER, eBytes, []);
      ParseDerUintExact(nBytes, key.n);
      ParseDerUintExact(eBytes, key.e);
      assert rest == Der.Canonical(Der.INTEGER, eBytes);
    }
    if key.n > 0 && key.e >= 3 && key.e % 2 == 1 && KeyFits(key)
       && der == Der.Canonical(Der.SEQUENCE, KeyIntegers(key)) {
      var rest := Der.Canonical(Der.INTEGER, Der.Uint(key.e));
      assert rest == rest + [];
      Der.ExpectExact(der, Der.SEQUENCE, KeyIntegers(key));
      Der.TakeExact(KeyIntegers(key), Der.INTEGER, Der.Uint(key.n), rest);
      Der.TakeExact(rest, Der.INTEGER, Der.Uint(key.e), []);
      ParseDerUintExact(Der.Uint(key.n), key.n);
      ParseDerUintExact(Der.Uint(key.e), key.e);
    }
  }

  // -------------------------------------------------------------- the public operation

  /** The public operation, at the width of the modulus. */
  function RawPublic(key: RsaPublicKey, sig: Bytes): Option<Bytes> {
    var k := key.Size();
    if |sig| != k || key.n == 0 then None
    else
      var s := Nat(sig);
      if s >= key.n then None
      else
        var out := Minimal(ModPow(s, key.e, key.n));
        if |out| > k then None else Some(Zeros(k - |out|) + out)
  }

  lemma RawPublicExact(key: RsaPublicKey, sig: Bytes, block: Bytes)
    ensures RawPublic(key, sig) == Some(block)
            <==> && key.n > 0 && |sig| == key.Size() && Nat(sig) < key.n
                 && |block| == key.Size() && Nat(block) == ModPow(Nat(sig), key.e, key.n)
  {
    if key.n > 0 && |sig| == key.Size() && Nat(sig) < key.n {
      var k, m := key.Size(), ModPow(Nat(sig), key.e, key.n);
      ByteLengthFits(key.n);
      MinimalLength(m, k);
      PaddedMinimal(m, k);
      NatOfFixed(m, k);
      if |block| == k && Nat(block) == m { NatInjective(block, Fixed(m, k)); }
    }
  }

  /** A key pair: n = pq and e·d ≡ 1 modulo p − 1 and modulo q − 1, that is, modulo their lcm. */
  ghost predicate KeyPair(key: RsaPublicKey, p: nat, q: nat, d: nat) {
    && IsPrime(p) && IsPrime(q) && p != q && key.n == p * q
    && key.e * d >= 1 && (key.e * d - 1) % (p - 1) == 0 && (key.e * d - 1) % (q - 1) == 0
  }

  /** The private operation, as the chip performs it: block^d mod n at full width. */
  function Sign(key: RsaPublicKey, d: nat, block: Bytes): Bytes
    requires key.n > 0
  {
    Fixed(ModPow(Nat(block), d, key.n), key.Size())
  }

  /** m^(1 + j(p−1)) ≡ m modulo p, for every m. */
  lemma ExponentFixes(m: nat, j: nat, p: nat)
    requires IsPrime(p)
    ensures Cong(Pow(m, 1 + j * (p - 1)), m, p)
  {
    PowAdd(m, 1, j * (p - 1));
    assert Pow(m, 1) == m * Pow(m, 0);
    if m % p == 0 {
      CongMul(m, 0, Pow(m, j * (p - 1)), Pow(m, j * (p - 1)), p);
      CongSym(m, 0, p);
      CongTrans(m * Pow(m, j * (p - 1)), 0, m, p);
    } else {
      assert j * (p - 1) == (p - 1) * j;
      PowMul(m, p - 1, j);
      FermatLittle(m, p);
      CongPow(Pow(m, p - 1), 1, j, p);
      PowOne(j);
      CongMul(m, m, Pow(m, j * (p - 1)), 1, p);
    }
  }

  lemma RoundTripModPrime(m: nat, e: nat, d: nat, p: nat)
    requires IsPrime(p) && e * d >= 1 && (e * d - 1) % (p - 1) == 0
    ensures (Pow(m, e * d) - m) % p == 0
  {
    var j := (e * d - 1) / (p - 1);
    assert e * d == 1 + j * (p - 1);
    ExponentFixes(m, j, p);
  }

  /** Raising to d and to e, in either order, is the identity below n. */
  lemma ExponentsCancel(m: nat, key: RsaPublicKey, p: nat, q: nat, d: nat)
    requires KeyPair(key, p, q, d) && m < key.n
    ensures ModPow(ModPow(m, d, key.n), key.e, key.n) == m
    ensures ModPow(ModPow(m, key.e, key.n), d, key.n) == m
  {
    ModPowMul(m, d, key.e, key.n);
    ModPowMul(m, key.e, d, key.n);
    assert d * key.e == key.e * d;
    RoundTripModPrime(m, key.e, d, p);
    RoundTripModPrime(m, key.e, d, q);
    CoprimeDivisors(Pow(m, key.e * d) - m, p, q);
    CongIffSameRemainder(Pow(m, key.e * d), m, key.n);
    SmallRemainder(m, key.n);
  }

  /** Signatures and blocks are in bijection: one is the other's `raw_public`. */
  lemma RawPublicInvertsSign(key: RsaPublicKey, p: nat, q: nat, d: nat, sig: Bytes, block: Bytes)
    requires KeyPair(key, p, q, d) && |block| == key.Size() && Nat(block) < key.n
    ensures RawPublic(key, sig) == Some(block) <==> sig == Sign(key, d, block)
  {
    var k := key.Size();
    var s := ModPow(Nat(block), d, key.n);
    ByteLengthFits(key.n);
    NatOfFixed(s, k);
    RawPublicExact(key, sig, block);
    ExponentsCancel(Nat(block), key, p, q, d);
    if RawPublic(key, sig) == Some(block) {
      ExponentsCancel(Nat(sig), key, p, q, d);
      NatInjective(sig, Fixed(s, k));
    }
  }

  // --------------------------------------------------------------- PKCS #1 v1.5

  /** EM = 00 ‖ 01 ‖ PS ‖ 00 ‖ DigestInfo, for a modulus of k bytes. */
  function Pkcs1Block(digest: Digest, hash: HashAlgo, message: Bytes, k: nat): Bytes
    requires k >= |DigestInfoPrefix(hash)| + DigestLen(hash) + 11
  {
    var t := DigestInfoPrefix(hash) + digest(hash, message);
    [0x00, 0x01] + seq(k - |t| - 3, _ => 0xFF) + [0x00] + t
  }

  function VerifyPkcs1v15(key: RsaPublicKey, digest: Digest, hash: HashAlgo, message: Bytes, sig: Bytes): bool {
    var k := key.Size();
    if k < |DigestInfoPrefix(hash)| + DigestLen(hash) + 11 then false
    else RawPublic(key, sig) == Some(Pkcs1Block(digest, hash, message, k))
  }

  /** Under a key pair exactly one signature is accepted for a message: the private operation's. */
  lemma Pkcs1AcceptsOneSignature(key: RsaPublicKey, p: nat, q: nat, d: nat, digest: Digest,
                                 hash: HashAlgo, message: Bytes, sig: Bytes)
    requires KeyPair(key, p, q, d)
    ensures VerifyPkcs1v15(key, digest, hash, message, sig)
            <==> && key.Size() >= |DigestInfoPrefix(hash)| + DigestLen(hash) + 11
                 && sig == Sign(key, d, Pkcs1Block(digest, hash, message, key.Size()))
  {
    var k := key.Size();
    if k >= |DigestInfoPrefix(hash)| + DigestLen(hash) + 11 {
      var block := Pkcs1Block(digest, hash, message, k);
      LeadingZeroBelow(block, key.n);
      RawPublicInvertsSign(key, p, q, d, sig, block);
    }
  }

  /** At least eight bytes FF. */
  predicate IsPkcs1Padding(ps: Bytes) {
    |ps| >= 8 && forall i :: 0 <= i < |ps| ==> ps[i] == 0xFF
  }

  /**
   The block of section 9.2 of RFC 8017: a signature is accepted exactly when it opens to
   00 ‖ 01 ‖ FF … FF ‖ 00 ‖ DigestInfo with eight or more FF, DigestInfo being the DER
   encoding for the message's digest under any identifier of the hash.
   */
  lemma Pkcs1Exact(key: RsaPublicKey, digest: Digest, hash: HashAlgo, arcs: seq<nat>, message: Bytes, sig: Bytes)
    requires FromOid(arcs) == Some(hash)
    ensures InfoFits(arcs, digest(hash, message))
    ensures VerifyPkcs1v15(key, digest, hash, message, sig)
            <==> exists ps :: IsPkcs1Padding(ps) && RawPublic(key, sig)
                   == Some([0x00, 0x01] + ps + [0x00] + DigestInfo(arcs, digest(hash, message)))
  {
    var h := digest(hash, message);
    assert |h| == DigestLen(hash);
    NamesExactly(arcs, hash, h);
    var t := DigestInfo(arcs, h);
    var k := key.Size();
    if VerifyPkcs1v15(key, digest, hash, message, sig) {
      var ps := seq(k - |t| - 3, _ => 0xFF);
      assert IsPkcs1Padding(ps) && RawPublic(key, sig) == Some([0x00, 0x01] + ps + [0x00] + t);
    }
    forall ps | IsPkcs1Padding(ps) && RawPublic(key, sig) == Some([0x00, 0x01] + ps + [0x00] + t)
      ensures VerifyPkcs1v15(key, digest, hash, message, sig)
    {
      RawPublicExact(key, sig, [0x00, 0x01] + ps + [0x00] + t);
      PaddedBlock(digest, hash, message, ps, t, k);
    }
  }

  lemma PaddedBlock(digest: Digest, hash: HashAlgo, message: Bytes, ps: Bytes, t: Bytes, k: nat)
    requires IsPkcs1Padding(ps) && t == DigestInfoPrefix(hash) + digest(hash, message) && k == |ps| + |t| + 3
    ensures k >= |DigestInfoPrefix(hash)| + DigestLen(hash) + 11
    ensures Pkcs1Block(digest, hash, message, k) == [0x00, 0x01] + ps + [0x00] + t
  {
    assert |digest(hash, message)| == DigestLen(hash);
    assert ps == seq(k - |t| - 3, _ => 0xFF);
  }

  /** A block of a modulus's length that starts with a zero is below the modulus. */
  lemma LeadingZeroBelow(block: Bytes, n: nat)
    requires n > 0 && |block| == ByteLength(n) > 0 && block[0] == 0
    ensures Nat(block) < n
  {
    assert block == Zeros(1) + block[1..];
    NatLeadingZeros(1, block[1..]);
    NatBound(block[1..]);
    ByteLengthFits(n);
  }

  // ------------------------------------------------------------------------ MGF1

  /** Hash(seed ‖ 0) ‖ … ‖ Hash(seed ‖ count − 1), counters as four bytes. */
  function MgfBlocks(digest: Digest, hash: HashAlgo, seed: Bytes, count: nat): (t: Bytes)
    ensures |t| == count * DigestLen(hash)
  {
    if count == 0 then []
    else
      assert (count - 1) * DigestLen(hash) + DigestLen(hash) == count * DigestLen(hash);
      MgfBlocks(digest, hash, seed, count - 1) + digest(hash, seed + Fixed(count - 1, 4))
  }

  function BlockCount(len: nat, hash: HashAlgo): (count: nat)
    ensures count * DigestLen(hash) >= len
    ensures count > 0 ==> (count - 1) * DigestLen(hash) < len
  {
    (len + DigestLen(hash) - 1) / DigestLen(hash)
  }

  /** Section B.2.1 of RFC 8017: the leading `len` bytes of the hash blocks. */
  function Mgf1(digest: Digest, hash: HashAlgo, seed: Bytes, len: nat): (mask: Bytes)
    ensures |mask| == len
  {
    MgfBlocks(digest, hash, seed, BlockCount(len, hash))[..len]
  }

  /** Byte i of the mask is byte i mod hLen of the hash of the seed and the counter ⌊i / hLen⌋. */
  lemma MaskByte(digest: Digest, hash: HashAlgo, seed: Bytes, len: nat, i: nat)
    requires i < len
    ensures Mgf1(digest, hash, seed, len)[i] == digest(hash, seed + Fixed(i / DigestLen(hash), 4))[i % DigestLen(hash)]
  {
    BlockByte(digest, hash, seed, BlockCount(len, hash), i);
  }

  lemma {:induction false} BlockByte(digest: Digest, hash: HashAlgo, seed: Bytes, count: nat, i: nat)
    requires i < count * DigestLen(hash)
    ensures MgfBlocks(digest, hash, seed, count)[i] == digest(hash, seed + Fixed(i / DigestLen(hash), 4))[i % DigestLen(hash)]
  {
    var hLen := DigestLen(hash);
    var before := MgfBlocks(digest, hash, seed, count - 1);
    assert count == (count - 1) + 1;
    assert count * hLen == (count - 1) * hLen + hLen;
    if i < |before| {
      BlockByte(digest, hash, seed, count - 1, i);
    } else {
      QuotientUnique(i, hLen, count - 1, i - |before|);
    }
  }

  /** `mgf1` as it runs. */
  method GenerateMask(digest: Digest, hash: HashAlgo, seed: Bytes, len: nat) returns (out: Bytes)
    ensures out == Mgf1(digest, hash, seed, len)
  {
    out := [];
    var counter := 0;
    var hLen := DigestLen(hash);
    while |out| < len
      invariant 0 <= counter <= BlockCount(len, hash)
      invariant out == MgfBlocks(digest, hash, seed, counter)
      decreases BlockCount(len, hash) - counter
    {
      CountBound(counter, BlockCount(len, hash), hLen);
      out := out + digest(hash, seed + Fixed(counter, 4));
      counter := counter + 1;
    }
    CountReached(counter, BlockCount(len, hash), hLen, len);
    out := out[..len];
  }

  lemma CountBound(counter: nat, count: nat, hLen: nat)
    requires counter <= count
    ensures counter * hLen < count * hLen ==> counter < count
  {
  }

  lemma CountReached(counter: nat, count: nat, hLen: nat, len: nat)
    requires counter <= count && hLen > 0 && counter * hLen >= len
    requires count > 0 ==> (count - 1) * hLen < len
    ensures counter == count
  {
    if counter < count {
      assert counter * hLen <= (count - 1) * hLen by { MulOrder(counter, count - 1, hLen); }
    }
  }

  // ------------------------------------------------------------------------- PSS

  /** `text` under the mask `mask`, with the first byte cut to its low bits, below `top`. */
  function Masked(text: Bytes, mask: Bytes, top: nat): (r: Bytes)
    requires |text| == |mask| > 0 && 0 < top <= 256
    ensures |r| == |text| && r[0] < top
  {
    var x := XorBytes(text, mask);
    x[0 := x[0] % top]
  }

  lemma MaskedTwice(text: Bytes, mask: Bytes, k: nat, top: nat)
    requires |text| == |mask| > 0 && 0 < top <= 256 && top == Pow(2, k) && text[0] < top
    ensures Masked(Masked(text, mask, top), mask, top) == text
  {
    var once := Masked(text, mask, top);
    var twice := Masked(once, mask, top);
    forall i | 0 <= i < |text| ensures twice[i] == text[i] {
      XorCancels(text[i], mask[i]);
      if i == 0 { CutTwice(text[0], mask[0], k, top); }
    }
  }

  lemma CutTwice(t: nat, m: nat, k: nat, top: nat)
    requires 0 < top == Pow(2, k) && t < top
    ensures Xor(Xor(t, m) % top, m) % top == t
  {
    var x := Xor(t, m);
    XorCancels(t, m);
    XorLowBits(x % top, m, k);
    XorLowBits(x, m, k);
    SmallRemainder(x % top, top);
    SmallRemainder(t, top);
  }

  /** How many octets and surplus top bits an encoded message has. */
  function EmBits(key: RsaPublicKey): nat
    requires key.n > 0
  {
    BitLength(key.n) - 1
  }

  function EmLen(emBits: nat): nat {
    (emBits + 7) / 8
  }

  /** How many bits the first octet of an encoded message may use. */
  function TopBits(emBits: nat): (bits: nat)
    ensures 1 <= bits <= 8 && 8 * EmLen(emBits) + bits == emBits + 8
  {
    8 - (8 * EmLen(emBits) - emBits)
  }

  /** The first octet of an encoded message stays below this power of two. */
  function TopLimit(emBits: nat): (top: nat)
    ensures 2 <= top <= 256 && top == Pow(2, TopBits(emBits))
  {
    PowMonotone(2, 1, TopBits(emBits));
    PowMonotone(2, TopBits(emBits), 8);
    assert Pow(2, 8) == 256 by { PowAdd(2, 4, 4); assert Pow(2, 4) == 16; }
    assert Pow(2, 1) == 2 * Pow(2, 0);
    Pow(2, TopBits(emBits))
  }

  datatype PssParams = PssParams(hash: HashAlgo, mgfHash: HashAlgo, saltLen: nat)

  predicate PssFits(ps: PssParams, emBits: nat) {
    EmLen(emBits) >= DigestLen(ps.hash) + ps.saltLen + 2
  }

  /** Hash(00 × 8 ‖ mHash ‖ salt) */
  function PssHash(digest: Digest, hash: HashAlgo, message: Bytes, salt: Bytes): Bytes {
    digest(hash, Zeros(8) + digest(hash, message) + salt)
  }

  /** EMSA-PSS-ENCODE, section 9.1.1 of RFC 8017. */
  function PssEncode(digest: Digest, ps: PssParams, message: Bytes, salt: Bytes, emBits: nat): (em: Bytes)
    requires |salt| == ps.saltLen && PssFits(ps, emBits)
    ensures |em| == EmLen(emBits) && em[0] < TopLimit(emBits)
  {
    PssEncodeTo(digest, ps, message, salt, EmLen(emBits), TopLimit(emBits))
  }

  /** An encoding of `emLen` octets, the first below `top`. */
  function PssEncodeTo(digest: Digest, ps: PssParams, message: Bytes, salt: Bytes, emLen: nat, top: nat): (em: Bytes)
    requires |salt| == ps.saltLen && emLen >= DigestLen(ps.hash) + ps.saltLen + 2 && 0 < top <= 256
    ensures |em| == emLen && em[0] < top
  {
    var h := PssHash(digest, ps.hash, message, salt);
    var db := Zeros(emLen - ps.saltLen - DigestLen(ps.hash) - 2) + [0x01] + salt;
    Masked(db, Mgf1(digest, ps.mgfHash, h, |db|), top) + h + [0xBC]
  }

  /** EMSA-PSS-VERIFY on an encoded message, as the source checks it. */
  function PssConsistent(digest: Digest, ps: PssParams, message: Bytes, em: Bytes, emBits: nat): bool
    requires |em| == EmLen(emBits)
  {
    PssConsistentWith(digest, ps, message, em, TopLimit(emBits))
  }

  function PssConsistentWith(digest: Digest, ps: PssParams, message: Bytes, em: Bytes, top: nat): bool
    requires 0 < top <= 256
  {
    var emLen, hLen := |em|, DigestLen(ps.hash);
    if emLen < hLen + ps.saltLen + 2 || em[emLen - 1] != 0xBC then false
    else
      var maskedDb, h := em[..emLen - hLen - 1], em[emLen - hLen - 1..emLen - 1];
      if maskedDb[0] >= top then false
      else
        var db := Masked(maskedDb, Mgf1(digest, ps.mgfHash, h, |maskedDb|), top);
        var psLen := emLen - hLen - ps.saltLen - 2;
        && db[..psLen] == Zeros(psLen) && db[psLen] == 0x01
        && h == PssHash(digest, ps.hash, message, db[psLen + 1..])
  }

  lemma PssPieces(digest: Digest, ps: PssParams, message: Bytes, salt: Bytes, emLen: nat, k: nat, top: nat)
    requires |salt| == ps.saltLen && emLen >= DigestLen(ps.hash) + ps.saltLen + 2 && 2 <= top == Pow(2, k) <= 256
    ensures var em := PssEncodeTo(digest, ps, message, salt, emLen, top);
            var h := PssHash(digest, ps.hash, message, salt);
            var db := Zeros(emLen - ps.saltLen - DigestLen(ps.hash) - 2) + [0x01] + salt;
            && em[..|db|] == Masked(db, Mgf1(digest, ps.mgfHash, h, |db|), top)
            && em[|db|..|em| - 1] == h && em[|em| - 1] == 0xBC
            && Masked(em[..|db|], Mgf1(digest, ps.mgfHash, h, |db|), top) == db
  {
    var h := PssHash(digest, ps.hash, message, salt);
    var db := Zeros(emLen - ps.saltLen - DigestLen(ps.hash) - 2) + [0x01] + salt;
    MaskedTwice(db, Mgf1(digest, ps.mgfHash, h, |db|), k, top);
  }

  /** The check accepts exactly the encodings under some salt of the right length … */
  lemma PssConsistentExact(digest: Digest, ps: PssParams, message: Bytes, em: Bytes, emBits: nat)
    requires |em| == EmLen(emBits)
    ensures PssConsistent(digest, ps, message, em, emBits)
            <==> PssFits(ps, emBits)
                 && exists salt :: |salt| == ps.saltLen && em == PssEncode(digest, ps, message, salt, emBits)
  {
    if PssConsistent(digest, ps, message, em, emBits) {
      var salt := PssRecover(digest, ps, message, em, TopBits(emBits), TopLimit(emBits));
    }
    if PssFits(ps, emBits) {
      forall salt | |salt| == ps.saltLen && em == PssEncode(digest, ps, message, salt, emBits)
        ensures PssConsistent(digest, ps, message, em, emBits)
      {
        PssEncodedIsConsistent(digest, ps, message, salt, emBits);
      }
    }
  }

  lemma PssRecover(digest: Digest, ps: PssParams, message: Bytes, em: Bytes, k: nat, top: nat) returns (salt: Bytes)
    requires 0 < top == Pow(2, k) <= 256 && PssConsistentWith(digest, ps, message, em, top)
    ensures |salt| == ps.saltLen && |em| >= DigestLen(ps.hash) + ps.saltLen + 2
    ensures em == PssEncodeTo(digest, ps, message, salt, |em|, top)
  {
    var emLen, hLen := |em|, DigestLen(ps.hash);
    var maskedDb, h := em[..emLen - hLen - 1], em[emLen - hLen - 1..emLen - 1];
    var psLen := emLen - hLen - ps.saltLen - 2;
    salt := Masked(maskedDb, Mgf1(digest, ps.mgfHash, h, |maskedDb|), top)[psLen + 1..];
    SplitEnd(em, emLen - hLen - 1);
    PssRecoverFrom(digest, ps, message, maskedDb, h, psLen, k, top, emLen);
  }

  lemma PssRecoverFrom(digest: Digest, ps: PssParams, message: Bytes, maskedDb: Bytes, h: Bytes, psLen: nat, k: nat, top: nat,
                       emLen: nat)
    requires 0 < top == Pow(2, k) <= 256 && |h| == DigestLen(ps.hash)
    requires |maskedDb| == psLen + 1 + ps.saltLen && emLen == |maskedDb| + |h| + 1 && maskedDb[0] < top
    requires var db := Masked(maskedDb, Mgf1(digest, ps.mgfHash, h, |maskedDb|), top);
             && db[..psLen] == Zeros(psLen) && db[psLen] == 0x01
             && h == PssHash(digest, ps.hash, message, db[psLen + 1..])
    ensures var salt := Masked(maskedDb, Mgf1(digest, ps.mgfHash, h, |maskedDb|), top)[psLen + 1..];
            maskedDb + h + [0xBC] == PssEncodeTo(digest, ps, message, salt, emLen, top)
  {
    var mask := Mgf1(digest, ps.mgfHash, h, |maskedDb|);
    var db := Masked(maskedDb, mask, top);
    SplitAt(db, psLen);
    MaskedTwice(maskedDb, mask, k, top);
    PssRebuilt(digest, ps, message, db[psLen + 1..], emLen, top, db, maskedDb, h);
  }

  lemma SplitAt(s: Bytes, i: nat)
    requires i < |s|
    ensures s == s[..i] + [s[i]] + s[i + 1..]
  {
  }

  lemma SplitEnd(s: Bytes, i: nat)
    requires i < |s|
    ensures s == s[..i] + s[i..|s| - 1] + [s[|s| - 1]]
  {
  }

  lemma PssRebuilt(digest: Digest, ps: PssParams, message: Bytes, salt: Bytes, emLen: nat, top: nat,
                   db: Bytes, maskedDb: Bytes, h: Bytes)
    requires |salt| == ps.saltLen && emLen >= DigestLen(ps.hash) + ps.saltLen + 2 && 0 < top <= 256
    requires db == Zeros(emLen - ps.saltLen - DigestLen(ps.hash) - 2) + [0x01] + salt
    requires h == PssHash(digest, ps.hash, message, salt)
    requires maskedDb == Masked(db, Mgf1(digest, ps.mgfHash, h, |db|), top)
    ensures PssEncodeTo(digest, ps, message, salt, emLen, top) == maskedDb + h + [0xBC]
  {
  }

  lemma PssEncodedIsConsistent(digest: Digest, ps: PssParams, message: Bytes, salt: Bytes, emBits: nat)
    requires |salt| == ps.saltLen && PssFits(ps, emBits)
    ensures PssConsistent(digest, ps, message, PssEncode(digest, ps, message, salt, emBits), emBits)
  {
    PssPieces(digest, ps, message, salt, EmLen(emBits), TopBits(emBits), TopLimit(emBits));
    DbPieces(EmLen(emBits) - ps.saltLen - DigestLen(ps.hash) - 2, salt);
  }

  lemma DbPieces(psLen: nat, salt: Bytes)
    ensures var db := Zeros(psLen) + [0x01] + salt;
            db[..psLen] == Zeros(psLen) && db[psLen] == 0x01 && db[psLen + 1..] == salt
  {
  }

  /** … and that salt is unique. */
  lemma PssSaltUnique(digest: Digest, ps: PssParams, message: Bytes, salt: Bytes, other: Bytes, emBits: nat)
    requires |salt| == |other| == ps.saltLen && PssFits(ps, emBits)
    requires PssEncode(digest, ps, message, salt, emBits) == PssEncode(digest, ps, message, other, emBits)
    ensures salt == other
  {
    PssPieces(digest, ps, message, salt, EmLen(emBits), TopBits(emBits), TopLimit(emBits));
    PssPieces(digest, ps, message, other, EmLen(emBits), TopBits(emBits), TopLimit(emBits));
    var psLen := EmLen(emBits) - ps.saltLen - DigestLen(ps.hash) - 2;
    DbPieces(psLen, salt);
    DbPieces(psLen, other);
  }

  /** `verify_pss`, as a function of its arguments. */
  function VerifyPss(key: RsaPublicKey, digest: Digest, ps: PssParams, message: Bytes, sig: Bytes): bool {
    match RawPublic(key, sig)
    case None => false
    case Some(block) =>
      BlockConsistent(digest, ps, message, block, EmBits(key))
  }

  /** `verify_pss` as it runs: the mask by its loop, and the first byte cut in place. */
  method CheckPss(key: RsaPublicKey, digest: Digest, ps: PssParams, message: Bytes, sig: Bytes) returns (ok: bool)
    ensures ok == VerifyPss(key, digest, ps, message, sig)
  {
    var raw := RawPublic(key, sig);
    if raw.None? { return false; }
    var block := raw.value;
    var emBits := EmBits(key);
    if |block| == EmLen(emBits) {
      ok := CheckEncoded(digest, ps, message, block, emBits);
    } else if |block| == EmLen(emBits) + 1 && block[0] == 0 {
      ok := CheckEncoded(digest, ps, message, block[1..], emBits);
    } else {
      ok := false;
    }
  }

  method CheckEncoded(digest: Digest, ps: PssParams, message: Bytes, em: Bytes, emBits: nat) returns (ok: bool)
    requires |em| == EmLen(emBits)
    ensures ok == PssConsistent(digest, ps, message, em, emBits)
  {
    var emLen := |em|;
    var mHash := digest(ps.hash, message);
    var hLen := |mHash|;
    if emLen < hLen + ps.saltLen + 2 || em[emLen - 1] != 0xBC { return false; }
    var maskedDb, h := em[..emLen - hLen - 1], em[emLen - hLen - 1..emLen - 1];
    var top := TopLimit(emBits);
    if maskedDb[0] >= top { return false; }
    var mask := GenerateMask(digest, ps.mgfHash, h, |maskedDb|);
    var db := XorBytes(maskedDb, mask);
    db := db[0 := db[0] % top];
    assert db == Masked(maskedDb, mask, top);
    var psLen := emLen - hLen - ps.saltLen - 2;
    var clear := CheckZeros(db[..psLen]);
    if !clear || db[psLen] != 0x01 { return false; }
    var mPrime := Zeros(8) + mHash + db[psLen + 1..];
    ok := h == digest(ps.hash, mPrime);
  }

  /**
   `verify_pss` accepts exactly when s^e mod n is the integer of the PSS encoding of
   the message under some salt of the given length, for every modulus length.
   */
  lemma VerifyPssExact(key: RsaPublicKey, digest: Digest, ps: PssParams, message: Bytes, sig: Bytes)
    ensures VerifyPss(key, digest, ps, message, sig)
            <==> && key.n > 0 && |sig| == key.Size() && Nat(sig) < key.n && PssFits(ps, EmBits(key))
                 && exists salt ::
                      && |salt| == ps.saltLen
                      && Nat(PssEncode(digest, ps, message, salt, EmBits(key))) == ModPow(Nat(sig), key.e, key.n)
  {
    if key.n > 0 && |sig| == key.Size() && Nat(sig) < key.n {
      var k, m := key.Size(), ModPow(Nat(sig), key.e, key.n);
      ByteLengthFits(key.n);
      NatOfFixed(m, k);
      RawPublicExact(key, sig, Fixed(m, k));
      BlockExact(digest, ps, message, Fixed(m, k), EmBits(key), m);
    }
    if VerifyPss(key, digest, ps, message, sig) {
      RawPublicExact(key, sig, RawPublic(key, sig).value);
    }
  }

  /** The check of a whole block, which is the encoded message or one byte longer. */
  function BlockConsistent(digest: Digest, ps: PssParams, message: Bytes, block: Bytes, emBits: nat): bool {
    if |block| == EmLen(emBits) then PssConsistent(digest, ps, message, block, emBits)
    else if |block| == EmLen(emBits) + 1 && block[0] == 0 then PssConsistent(digest, ps, message, block[1..], emBits)
    else false
  }

  lemma BlockExact(digest: Digest, ps: PssParams, message: Bytes, block: Bytes, emBits: nat, m: nat)
    requires EmLen(emBits) <= |block| <= EmLen(emBits) + 1 && Nat(block) == m
    ensures BlockConsistent(digest, ps, message, block, emBits)
            <==> && PssFits(ps, emBits)
                 && exists salt :: |salt| == ps.saltLen && Nat(PssEncode(digest, ps, message, salt, emBits)) == m
  {
    if |block| == EmLen(emBits) {
      BlockMatches(digest, ps, message, block, emBits, m);
    } else if block[0] == 0 {
      assert block == Zeros(1) + block[1..];
      NatLeadingZeros(1, block[1..]);
      BlockMatches(digest, ps, message, block[1..], emBits, m);
    } else if PssFits(ps, emBits) {
      LongBlock(digest, ps, message, block, emBits);
    }
  }

  lemma BlockMatches(digest: Digest, ps: PssParams, message: Bytes, em: Bytes, emBits: nat, m: nat)
    requires |em| == EmLen(emBits) && Nat(em) == m
    ensures PssConsistent(digest, ps, message, em, emBits)
            <==> && PssFits(ps, emBits)
                 && exists salt :: |salt| == ps.saltLen && Nat(PssEncode(digest, ps, message, salt, emBits)) == m
  {
    PssConsistentExact(digest, ps, message, em, emBits);
    if PssFits(ps, emBits) {
      forall salt | |salt| == ps.saltLen && Nat(PssEncode(digest, ps, message, salt, emBits)) == m
        ensures em == PssEncode(digest, ps, message, salt, emBits)
      {
        NatInjective(em, PssEncode(digest, ps, message, salt, emBits));
      }
    }
  }

  /** A block with a nonzero byte above the encoded message spells no encoding. */
  lemma LongBlock(digest: Digest, ps: PssParams, message: Bytes, block: Bytes, emBits: nat)
    requires |block| == EmLen(emBits) + 1 && block[0] != 0 && PssFits(ps, emBits)
    ensures forall salt :: |salt| == ps.saltLen ==> Nat(PssEncode(digest, ps, message, salt, emBits)) != Nat(block)
  {
    forall salt | |salt| == ps.saltLen
      ensures Nat(PssEncode(digest, ps, message, salt, emBits)) != Nat(block)
    {
      var em := PssEncode(digest, ps, message, salt, emBits);
      NatLeadingZeros(1, em);
      assert Zeros(1)[0] == 0;
      if Nat(em) == Nat(block) { NatInjective(Zeros(1) + em, block); }
    }
  }

  /** What a key pair signs with any salt is accepted, for every modulus length and message. */
  lemma PssSignedIsAccepted(key: RsaPublicKey, p: nat, q: nat, d: nat, digest: Digest, ps: PssParams,
                            message: Bytes, salt: Bytes)
    requires KeyPair(key, p, q, d) && |salt| == ps.saltLen && PssFits(ps, EmBits(key))
    ensures var m := Nat(PssEncode(digest, ps, message, salt, EmBits(key)));
            VerifyPss(key, digest, ps, message, Sign(key, d, Fixed(m, key.Size())))
  {
    var emBits, k := EmBits(key), key.Size();
    var em := PssEncode(digest, ps, message, salt, emBits);
    EncodingBelow(em, emBits);
    BitLengthBounds(key.n);
    ByteLengthFits(key.n);
    NatOfFixed(Nat(em), k);
    var sig := Sign(key, d, Fixed(Nat(em), k));
    RawPublicInvertsSign(key, p, q, d, sig, Fixed(Nat(em), k));
    RawPublicExact(key, sig, Fixed(Nat(em), k));
    VerifyPssExact(key, digest, ps, message, sig);
  }

  /** DB of section 9.1.1 of RFC 8017: zeros, 01 and the salt. */
  function DbByte(psLen: nat, salt: Bytes, i: nat): Byte
    requires i < psLen + 1 + |salt|
  {
    if i < psLen then 0 else if i == psLen then 1 else salt[i - psLen - 1]
  }

  /**
   The encoding, byte by byte: DB under the mask, of which only the top bits of the first
   byte are cut, then H, the hash of eight zeros, the message's hash and the salt, and BC.
   */
  lemma PssLayout(digest: Digest, ps: PssParams, message: Bytes, salt: Bytes, emBits: nat, i: nat)
    requires |salt| == ps.saltLen && PssFits(ps, emBits)
    requires i < EmLen(emBits) - DigestLen(ps.hash) - 1
    ensures var em := PssEncode(digest, ps, message, salt, emBits);
            var n := |em| - DigestLen(ps.hash) - 1;
            var h := em[n..|em| - 1];
            var mLen := DigestLen(ps.mgfHash);
            var masked := XorByte(DbByte(n - |salt| - 1, salt, i), digest(ps.mgfHash, h + Fixed(i / mLen, 4))[i % mLen]);
            && emBits <= 8 * |em| < emBits + 8 && Nat(em) < Pow(2, emBits)
            && em[|em| - 1] == 0xBC && h == digest(ps.hash, Zeros(8) + digest(ps.hash, message) + salt)
            && em[i] == if i == 0 then masked % Pow(2, emBits + 8 - 8 * |em|) else masked
  {
    var em := PssEncode(digest, ps, message, salt, emBits);
    PssPieces(digest, ps, message, salt, EmLen(emBits), TopBits(emBits), TopLimit(emBits));
    var n := |em| - DigestLen(ps.hash) - 1;
    MaskByte(digest, ps.mgfHash, em[n..|em| - 1], n, i);
    EncodingBelow(em, emBits);
    var db := Zeros(n - |salt| - 1) + [0x01] + salt;
    assert db[i] == DbByte(n - |salt| - 1, salt, i);
    MaskedByte(db, Mgf1(digest, ps.mgfHash, em[n..|em| - 1], n), TopLimit(emBits), i);
    assert em[..n][i] == em[i];
  }

  lemma MaskedByte(text: Bytes, mask: Bytes, top: nat, i: nat)
    requires |text| == |mask| > 0 && 0 < top <= 256 && i < |text|
    ensures Masked(text, mask, top)[i] == if i == 0 then XorByte(text[0], mask[0]) % top else XorByte(text[i], mask[i])
  {
  }

  lemma EncodingBelow(em: Bytes, emBits: nat)
    requires |em| == EmLen(emBits) > 0 && em[0] < TopLimit(emBits)
    ensures Nat(em) < Pow(2, emBits)
  {
    BelowTop(em, TopBits(emBits));
    assert TopBits(emBits) + 8 * (|em| - 1) == emBits;
  }

  lemma BelowTop(em: Bytes, bits: nat)
    requires em != [] && em[0] < Pow(2, bits)
    ensures Nat(em) < Pow(2, bits + 8 * (|em| - 1))
  {
    var len := |em| - 1;
    NatLeadingByte(em);
    NatBound(em[1..]);
    Pow256(len);
    PowAdd(2, bits, 8 * len);
    TopProduct(Nat(em), em[0], Pow(2, bits), Pow(256, len), Nat(em[1..]), Pow(2, bits + 8 * len));
  }

  lemma TopProduct(n: int, b: int, top: int, unit: int, low: int, whole: int)
    requires b < top && 0 <= low < unit && n == b * unit + low && whole == top * unit
    ensures n < whole
  {
    MultipleSize(top - b, unit);
    assert (top - b) * unit == top * unit - b * unit;
  }
}
