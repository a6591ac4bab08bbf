/** Active authentication: ISO/IEC 9796-2 message recovery, and ECDSA on P-256. */
module ActiveAuth {
  import opened Wrappers
  import opened ByteStrings
  import opened Hashes
  import opened Rsa

  const HEADER_PARTIAL_RECOVERY: Byte := 0x6A
  const TRAILER_IMPLICIT: Byte := 0xBC
  const TRAILER_EXPLICIT: Byte := 0xCC

  datatype ActiveAuthError =
    | BadChallenge(len: nat)
    | BadPublicKey
    | MalformedSignature
    | UnsupportedCurve
    | UnsupportedHash(id: Byte)
    | Failed

  type Outcome = Result<Unit, ActiveAuthError>

  datatype KeyType = RsaKey | EccKey

  /** EF.DG15's key: its type and the contents of its BIT STRING. */
  datatype AAPublicKey = AAPublicKey(keyType: KeyType, subjectPublicKey: Bytes)

  /** The p256 crate: whether a key and a signature load, and whether a prehash verifies. */
  datatype P256 = P256(
    keyLoads: Bytes -> bool,
    signatureLoads: Bytes -> bool,
    verifies: (Bytes, Bytes, Bytes) -> bool)

  function Verify(digest: Digest, p256: P256, key: AAPublicKey, challenge: Bytes, response: Bytes): Outcome {
    if |challenge| != 8 then Err(BadChallenge(|challenge|))
    else
      match key.keyType
      case RsaKey => VerifyRsaIso9796(digest, key.subjectPublicKey, challenge, response)
      case EccKey => VerifyEcdsa(digest, p256, key.subjectPublicKey, challenge, response)
  }

  function VerifyRsaIso9796(digest: Digest, spki: Bytes, challenge: Bytes, signature: Bytes): Outcome {
    match FromPkcs1Der(spki)
    case None => Err(BadPublicKey)
    case Some(key) =>
      match RawPublic(key, signature)
      case None => Err(MalformedSignature)
      case Some(block) => CheckBlock(digest, block, challenge)
  }

  /** header ‖ M1 ‖ H ‖ trailer */
  function CheckBlock(digest: Digest, block: Bytes, challenge: Bytes): Outcome {
    if block == [] then Err(MalformedSignature)
    else if block[0] != HEADER_PARTIAL_RECOVERY then Err(Failed)
    else if |block| == 1 then Err(MalformedSignature)
    else
      var last, beforeLast := block[|block| - 1], block[1..|block| - 1];
      if last == TRAILER_IMPLICIT then CheckBody(digest, Sha1, beforeLast, challenge)
      else if last == TRAILER_EXPLICIT then
        if beforeLast == [] then Err(MalformedSignature)
        else
          var id := beforeLast[|beforeLast| - 1];
          match FromIso9796Id(id)
          case None => Err(UnsupportedHash(id))
          case Some(hash) => CheckBody(digest, hash, beforeLast[..|beforeLast| - 1], challenge)
      else Err(Failed)
  }

  /** The recovered M1, hashed again with our own challenge. */
  function CheckBody(digest: Digest, hash: HashAlgo, body: Bytes, challenge: Bytes): Outcome {
    if |body| < DigestLen(hash) then Err(MalformedSignature)
    else
      var split := |body| - DigestLen(hash);
      if digest(hash, body[..split] + challenge) == body[split..] then Ok(Unit) else Err(Failed)
  }

  function VerifyEcdsa(digest: Digest, p256: P256, point: Bytes, challenge: Bytes, signature: Bytes): Outcome {
    if |point| != 65 || point[0] != 0x04 then Err(UnsupportedCurve)
    else if !p256.keyLoads(point) then Err(BadPublicKey)
    else if !p256.signatureLoads(signature) then Err(MalformedSignature)
    else if p256.verifies(point, digest(Sha256, challenge), signature)
         || p256.verifies(point, digest(Sha224, challenge), signature) then Ok(Unit)
    else Err(Failed)
  }

  // ------------------------------------------------------------ what is accepted

  /** How a block names its hash: implicitly, or by an identifier. */
  datatype Trailer = Implicit | Explicit(id: Byte)

  function TrailerHash(trailer: Trailer): Option<HashAlgo> {
    match trailer
    case Implicit => Some(Sha1)
    case Explicit(id) => FromIso9796Id(id)
  }

  function TrailerBytes(trailer: Trailer): Bytes {
    match trailer
    case Implicit => [0xBC]
    case Explicit(id) => [id, 0xCC]
  }

  /** The block a chip signs: 6A ‖ M1 ‖ H(M1 ‖ challenge) ‖ trailer. */
  function SignedBlock(digest: Digest, trailer: Trailer, m1: Bytes, challenge: Bytes): Bytes
    requires TrailerHash(trailer).Some?
  {
    [0x6A] + m1 + digest(TrailerHash(trailer).value, m1 + challenge) + TrailerBytes(trailer)
  }

  lemma BlockIsAccepted(digest: Digest, trailer: Trailer, m1: Bytes, challenge: Bytes)
    requires TrailerHash(trailer).Some?
    ensures CheckBlock(digest, SignedBlock(digest, trailer, m1, challenge), challenge) == Ok(Unit)
  {
    var hash := TrailerHash(trailer).value;
    var h := digest(hash, m1 + challenge);
    assert |h| == DigestLen(hash);
    var block := SignedBlock(digest, trailer, m1, challenge);
    var body := m1 + h;
    assert body[..|body| - DigestLen(hash)] == m1 && body[|body| - DigestLen(hash)..] == h;
    match trailer {
      case Implicit =>
        assert block[1..|block| - 1] == body;
      case Explicit(id) =>
        var beforeLast := block[1..|block| - 1];
        assert beforeLast == body + [id];
        assert beforeLast[..|beforeLast| - 1] == body;
    }
  }

  lemma AcceptedBlock(digest: Digest, block: Bytes, challenge: Bytes) returns (trailer: Trailer, m1: Bytes)
    requires CheckBlock(digest, block, challenge) == Ok(Unit)
    ensures TrailerHash(trailer).Some? && block == SignedBlock(digest, trailer, m1, challenge)
    ensures trailer == if block[|block| - 1] == TRAILER_IMPLICIT then Implicit else Explicit(block[|block| - 2])
    ensures |m1| == |block| - 1 - |TrailerBytes(trailer)| - DigestLen(TrailerHash(trailer).value)
    ensures m1 == block[1..1 + |m1|]
  {
    trailer := if block[|block| - 1] == TRAILER_IMPLICIT then Implicit else Explicit(block[|block| - 2]);
    AcceptedTrailer(digest, block, challenge, trailer);
    var t := TrailerBytes(trailer);
    BlockPieces(block, trailer);
    m1 := AcceptedBody(digest, TrailerHash(trailer).value, block[1..|block| - |t|], challenge);
    assert m1 == block[1..1 + |m1|];
  }

  lemma AcceptedTrailer(digest: Digest, block: Bytes, challenge: Bytes, trailer: Trailer)
    requires CheckBlock(digest, block, challenge) == Ok(Unit)
    requires trailer == if block[|block| - 1] == TRAILER_IMPLICIT then Implicit else Explicit(block[|block| - 2])
    ensures block[0] == HEADER_PARTIAL_RECOVERY && |block| >= 1 + |TrailerBytes(trailer)|
    ensures trailer.Explicit? ==> block[|block| - 1] == TRAILER_EXPLICIT
    ensures TrailerHash(trailer).Some?
    ensures CheckBody(digest, TrailerHash(trailer).value, block[1..|block| - |TrailerBytes(trailer)|], challenge) == Ok(Unit)
  {
    var beforeLast := block[1..|block| - 1];
    assert beforeLast != [] ==> beforeLast[..|beforeLast| - 1] == block[1..|block| - 2];
    assert beforeLast != [] ==> beforeLast[|beforeLast| - 1] == block[|block| - 2];
  }

  lemma BlockPieces(block: Bytes, trailer: Trailer)
    requires |block| >= 1 + |TrailerBytes(trailer)|
    requires trailer.Implicit? ==> block[|block| - 1] == TRAILER_IMPLICIT
    requires trailer.Explicit? ==> block[|block| - 1] == TRAILER_EXPLICIT && block[|block| - 2] == trailer.id
    ensures var t := TrailerBytes(trailer);
            && block == [block[0]] + block[1..|block| - |t|] + t
            && (trailer.Explicit? ==>
                  var beforeLast := block[1..|block| - 1];
                  beforeLast[..|beforeLast| - 1] == block[1..|block| - |t|]
                  && beforeLast[|beforeLast| - 1] == trailer.id)
  {
  }

  lemma AcceptedBody(digest: Digest, hash: HashAlgo, body: Bytes, challenge: Bytes) returns (m1: Bytes)
    requires CheckBody(digest, hash, body, challenge) == Ok(Unit)
    ensures |m1| + DigestLen(hash) == |body| && m1 == body[..|m1|]
    ensures body == m1 + digest(hash, m1 + challenge)
  {
    m1 := body[..|body| - DigestLen(hash)];
    assert body == m1 + body[|m1|..];
  }

  /**
   The RSA path accepts exactly the signatures that open, under a key that loads, to
   6A ‖ M1 ‖ H(M1 ‖ challenge) ‖ trailer for some M1 and some trailer naming a known hash.
   */
  lemma VerifyRsaExact(digest: Digest, spki: Bytes, challenge: Bytes, signature: Bytes)
    ensures VerifyRsaIso9796(digest, spki, challenge, signature) == Ok(Unit)
            <==> && FromPkcs1Der(spki).Some?
                 && exists trailer, m1 ::
                      && TrailerHash(trailer).Some?
                      && RawPublic(FromPkcs1Der(spki).value, signature)
                         == Some(SignedBlock(digest, trailer, m1, challenge))
  {
    if FromPkcs1Der(spki).Some? {
      var raw := RawPublic(FromPkcs1Der(spki).value, signature);
      if raw.Some? && CheckBlock(digest, raw.value, challenge) == Ok(Unit) {
        var trailer, m1 := AcceptedBlock(digest, raw.value, challenge);
      }
      forall trailer, m1 |
        TrailerHash(trailer).Some? && raw == Some(SignedBlock(digest, trailer, m1, challenge))
        ensures CheckBlock(digest, raw.value, challenge) == Ok(Unit)
      {
        BlockIsAccepted(digest, trailer, m1, challenge);
      }
    }
  }

  /** A block with the header, some bytes and this trailer. */
  predicate EndsWith(block: Bytes, trailer: Trailer) {
    var t := TrailerBytes(trailer);
    |block| >= 1 + |t| && block[0] == 0x6A && block[|block| - |t|..] == t
  }

  /** The trailer a block ends with, if it has the header and one. */
  function TrailerOf(block: Bytes): Option<Trailer> {
    var n := |block|;
    if n < 2 || block[0] != 0x6A then None
    else if block[n - 1] == 0xBC then Some(Implicit)
    else if block[n - 1] == 0xCC && n >= 3 then Some(Explicit(block[n - 2]))
    else None
  }

  lemma TrailerOfExact(block: Bytes, trailer: Trailer)
    ensures EndsWith(block, trailer) <==> TrailerOf(block) == Some(trailer)
  {
    var t := TrailerBytes(trailer);
    if EndsWith(block, trailer) {
      assert block[|block| - |t|..][|t| - 1] == block[|block| - 1];
      assert trailer.Explicit? ==> block[|block| - |t|..][0] == block[|block| - 2];
    }
    if TrailerOf(block) == Some(trailer) {
      assert block[|block| - |t|..] == t;
    }
  }

  /** The lengths that leave no room for a hash, whatever the bytes are. */
  predicate TooShort(block: Bytes) {
    || block in {[], [0x6A], [0x6A, 0xCC]}
    || (TrailerOf(block).Some?
        && var trailer := TrailerOf(block).value;
        TrailerHash(trailer).Some? && |block| < 1 + DigestLen(TrailerHash(trailer).value) + |TrailerBytes(trailer)|)
  }

  /** What is checked is what stands between header and trailer, under the trailer's hash. */
  lemma CheckByTrailer(digest: Digest, block: Bytes, challenge: Bytes, trailer: Trailer)
    requires TrailerOf(block) == Some(trailer)
    ensures CheckBlock(digest, block, challenge)
            == match TrailerHash(trailer)
               case None => Err(UnsupportedHash(block[|block| - 2]))
               case Some(hash) => CheckBody(digest, hash, block[1..|block| - |TrailerBytes(trailer)|], challenge)
  {
    var beforeLast := block[1..|block| - 1];
    assert trailer.Explicit? ==> beforeLast[..|beforeLast| - 1] == block[1..|block| - 2];
    assert trailer.Explicit? ==> beforeLast[|beforeLast| - 1] == block[|block| - 2];
  }

  lemma CheckWithoutTrailer(digest: Digest, block: Bytes, challenge: Bytes)
    requires TrailerOf(block).None?
    ensures CheckBlock(digest, block, challenge)
            == Err(if block in {[], [0x6A], [0x6A, 0xCC]} then MalformedSignature else Failed)
  {
    assert |block| == 2 && block[0] == 0x6A ==> block == [0x6A, block[1]];
    assert |block| == 1 ==> block == [block[0]];
  }

  /** Which refusal a block meets: an unknown hash is named, and a block is malformed only for its length. */
  lemma BlockRefusals(digest: Digest, block: Bytes, challenge: Bytes, id: Byte)
    ensures var r := CheckBlock(digest, block, challenge);
            && (r == Err(MalformedSignature) <==> TooShort(block))
            && (r == Err(UnsupportedHash(id)) <==> EndsWith(block, Explicit(id)) && FromIso9796Id(id).None?)
            && r != Err(BadPublicKey)
  {
    TrailerOfExact(block, Explicit(id));
    if TrailerOf(block).None? {
      CheckWithoutTrailer(digest, block, challenge);
    } else {
      CheckByTrailer(digest, block, challenge, TrailerOf(block).value);
    }
  }

  /** The RSA path's refusals: an unknown hash is named, and a response is malformed only for its length or range. */
  lemma RsaRefusals(digest: Digest, spki: Bytes, challenge: Bytes, signature: Bytes, id: Byte)
    ensures var r := VerifyRsaIso9796(digest, spki, challenge, signature);
            && (r == Err(BadPublicKey) <==> FromPkcs1Der(spki).None?)
            && (FromPkcs1Der(spki).Some? ==>
                  var block := RawPublic(FromPkcs1Der(spki).value, signature);
                  && (r == Err(MalformedSignature) <==> block.None? || TooShort(block.value))
                  && (r == Err(UnsupportedHash(id))
                      <==> block.Some? && EndsWith(block.value, Explicit(id)) && FromIso9796Id(id).None?))
  {
    if FromPkcs1Der(spki).Some? && RawPublic(FromPkcs1Der(spki).value, signature).Some? {
      BlockRefusals(digest, RawPublic(FromPkcs1Der(spki).value, signature).value, challenge, id);
    }
  }

  /** 04 ‖ x ‖ y over 32-byte coordinates. */
  predicate IsUncompressed(point: Bytes) {
    |point| == 1 + 2 * 32 && point[0] == 0x04
  }

  /**
   The EC path accepts exactly an uncompressed 65-byte point and a signature that both
   load, when the signature verifies for the challenge's SHA-256 or SHA-224 digest; and
   otherwise it says which of these failed first.
   */
  lemma VerifyEcdsaExact(digest: Digest, p256: P256, point: Bytes, challenge: Bytes, signature: Bytes)
    ensures VerifyEcdsa(digest, p256, point, challenge, signature) == Ok(Unit)
            <==> && IsUncompressed(point) && p256.keyLoads(point) && p256.signatureLoads(signature)
                 && exists hash :: hash in {Sha256, Sha224} && p256.verifies(point, digest(hash, challenge), signature)
    ensures VerifyEcdsa(digest, p256, point, challenge, signature) == Err(UnsupportedCurve) <==> !IsUncompressed(point)
    ensures VerifyEcdsa(digest, p256, point, challenge, signature) == Err(BadPublicKey)
            <==> IsUncompressed(point) && !p256.keyLoads(point)
    ensures VerifyEcdsa(digest, p256, point, challenge, signature) == Err(MalformedSignature)
            <==> IsUncompressed(point) && p256.keyLoads(point) && !p256.signatureLoads(signature)
  {
    forall hash | hash in {Sha256, Sha224} && p256.verifies(point, digest(hash, challenge), signature)
      ensures p256.verifies(point, digest(Sha256, challenge), signature)
           || p256.verifies(point, digest(Sha224, challenge), signature)
    {
    }
    assert Sha256 in {Sha256, Sha224} && Sha224 in {Sha256, Sha224};
  }

  /**
   What an accepted response proves: under an RSA key it opens to a block over some M1 and
   this very challenge, and under an EC key it is a signature of the challenge's digest.
   */
  ghost predicate Proves(digest: Digest, p256: P256, key: AAPublicKey, challenge: Bytes, response: Bytes) {
    && |challenge| == 8
    && match key.keyType
       case RsaKey =>
         && FromPkcs1Der(key.subjectPublicKey).Some?
         && exists trailer, m1 :: TrailerHash(trailer).Some? && RawPublic(FromPkcs1Der(key.subjectPublicKey).value, response)
                                  == Some(SignedBlock(digest, trailer, m1, challenge))
       case EccKey =>
         && IsUncompressed(key.subjectPublicKey)
         && p256.keyLoads(key.subjectPublicKey) && p256.signatureLoads(response)
         && exists hash :: hash in {Sha256, Sha224} && p256.verifies(key.subjectPublicKey, digest(hash, challenge), response)
  }

  /** Active authentication accepts exactly the responses that prove possession of the key. */
  lemma VerifyExact(digest: Digest, p256: P256, key: AAPublicKey, challenge: Bytes, response: Bytes)
    ensures Verify(digest, p256, key, challenge, response) == Ok(Unit) <==> Proves(digest, p256, key, challenge, response)
    ensures forall len :: Verify(digest, p256, key, challenge, response) == Err(BadChallenge(len))
                          <==> len == |challenge| && len != 8
  {
    VerifyRsaExact(digest, key.subjectPublicKey, challenge, response);
    VerifyEcdsaExact(digest, p256, key.subjectPublicKey, challenge, response);
  }

  /** A chip holding the private key passes, for every M1 and trailer that fill the modulus. */
  lemma GenuineChipPasses(digest: Digest, p256: P256, spki: Bytes, key: RsaPublicKey, p: nat, q: nat, d: nat,
                          trailer: Trailer, m1: Bytes, challenge: Bytes)
    requires FromPkcs1Der(spki) == Some(key) && KeyPair(key, p, q, d)
    requires |challenge| == 8 && TrailerHash(trailer).Some?
    requires var block := SignedBlock(digest, trailer, m1, challenge);
             |block| == key.Size() && Nat(block) < key.n
    ensures var response := Sign(key, d, SignedBlock(digest, trailer, m1, challenge));
            Verify(digest, p256, AAPublicKey(RsaKey, spki), challenge, response) == Ok(Unit)
  {
    var block := SignedBlock(digest, trailer, m1, challenge);
    RawPublicInvertsSign(key, p, q, d, Sign(key, d, block), block);
    BlockIsAccepted(digest, trailer, m1, challenge);
  }

  /**
   A response accepted for two different challenges exhibits a collision: under any
   key, whoever made it, the same hash of two different messages.
   */
  lemma ReplayNeedsCollision(digest: Digest, spki: Bytes, challenge: Bytes, other: Bytes, signature: Bytes)
    returns (hash: HashAlgo, m1: Bytes)
    requires challenge != other
    requires VerifyRsaIso9796(digest, spki, challenge, signature) == Ok(Unit)
    requires VerifyRsaIso9796(digest, spki, other, signature) == Ok(Unit)
    ensures m1 + challenge != m1 + other
    ensures digest(hash, m1 + challenge) == digest(hash, m1 + other)
  {
    var block := RawPublic(FromPkcs1Der(spki).value, signature).value;
    var trailer, m := AcceptedBlock(digest, block, challenge);
    var trailer', m' := AcceptedBlock(digest, block, other);
    hash, m1 := TrailerHash(trailer).value, m;
    var h, h' := digest(hash, m + challenge), digest(hash, m + other);
    assert |h| == |h'|;
    var prefix := [0x6A] + m;
    assert block[|prefix|..|prefix| + |h|] == h && block[|prefix|..|prefix| + |h|] == h';
    assert (m + challenge)[|m|..] == challenge && (m + other)[|m|..] == other;
  }
}
