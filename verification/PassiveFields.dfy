/** The fields of certificates and of SignedData, each in its place among the bytes. */
module PassiveFields {
  import opened Wrappers
  import opened ByteStrings
  import opened Hashes
  import opened HashNames
  import opened Rsa
  import opened PassiveParse
  import opened PassiveFormats
  import Der

  /** A SEQUENCE and what follows it, and so on for the other tags. */
  function Then(tag: Byte, body: Bytes, rest: Bytes): Bytes
    requires Der.Fits32(body)
  {
    Der.Canonical(tag, body) + rest
  }

  lemma ThenExact(input: Bytes, tag: Byte, body: Bytes, rest: Bytes)
    ensures Der.Take(input, tag) == Some((body, rest)) <==> Der.Fits32(body) && input == Then(tag, body, rest)
  {
    Der.TakeExact(input, tag, body, rest);
  }

  // ---------------------------------------------------------- algorithm identifiers

  /** An object identifier, its parameters, and the arcs it spells. */
  ghost predicate Identifies(alg: Bytes, oid: Bytes, params: Bytes, arcs: seq<nat>) {
    Der.Fits32(oid) && alg == Then(Der.OID, oid, params) && Der.OidArcs(oid) == Some(arcs)
  }

  /** A hash algorithm by name, with NULL parameters or none. */
  ghost predicate IsHashAlgorithm(alg: Bytes, hash: HashAlgo) {
    exists oid, params, arcs :: Identifies(alg, oid, params, arcs) && NullOrAbsent(params) && FromOid(arcs) == Some(hash)
  }

  lemma AlgoHashExact(alg: Bytes, hash: HashAlgo)
    ensures AlgoHash(alg) == Ok(hash) <==> IsHashAlgorithm(alg, hash)
  {
    if AlgoHash(alg) == Ok(hash) {
      var (oid, params) := Der.Take(alg, Der.OID).value;
      ThenExact(alg, Der.OID, oid, params);
      assert Identifies(alg, oid, params, Der.OidArcs(oid).value);
    }
    forall oid, params, arcs | Identifies(alg, oid, params, arcs) && NullOrAbsent(params) && FromOid(arcs) == Some(hash)
      ensures AlgoHash(alg) == Ok(hash)
    {
      ThenExact(alg, Der.OID, oid, params);
    }
  }

  /** shaNWithRSAEncryption (sections A.2.4 and C of RFC 8017). */
  function RsaSignatureArcs(hash: HashAlgo): seq<nat> {
    [1, 2, 840, 113549, 1, 1, match hash case Sha1 => 5 case Sha256 => 11 case Sha384 => 12 case Sha512 => 13 case Sha224 => 14]
  }

  /** ecdsa-with-SHAn (section 3.2 of RFC 5758, and section 2.2.3 of RFC 3279). */
  function EcdsaSignatureArcs(hash: HashAlgo): seq<nat> {
    [1, 2, 840, 10045, 4] + match hash
                            case Sha1 => [1]
                            case Sha224 => [3, 1]
                            case Sha256 => [3, 2]
                            case Sha384 => [3, 3]
                            case Sha512 => [3, 4]
  }

  /** What an identifier and its parameters say of a signature: the scheme, and the hash if it is fixed. */
  ghost predicate NamesScheme(arcs: seq<nat>, params: Bytes, scheme: SigScheme, hash: Option<HashAlgo>) {
    match scheme
    case SchemeRsa =>
      NullOrAbsent(params) && arcs == if hash.None? then [1, 2, 840, 113549, 1, 1, 1] else RsaSignatureArcs(hash.value)
    case SchemeRsaPss(mgfHash, saltLen) =>
      && arcs == [1, 2, 840, 113549, 1, 1, 10] && hash.Some?
      && exists f :: IsPssParams(params, f) && FieldsSay(f, hash.value, mgfHash, saltLen)
    case SchemeEcdsa =>
      NullOrAbsent(params) && hash.Some? && arcs == EcdsaSignatureArcs(hash.value)
  }

  ghost predicate IsSignatureAlgorithm(alg: Bytes, scheme: SigScheme, hash: Option<HashAlgo>) {
    exists oid, params, arcs :: Identifies(alg, oid, params, arcs) && NamesScheme(arcs, params, scheme, hash)
  }

  lemma SchemeOfExact(arcs: seq<nat>, params: Bytes, scheme: SigScheme, hash: Option<HashAlgo>)
    ensures SchemeOf(arcs, params) == Ok((scheme, hash)) <==> NamesScheme(arcs, params, scheme, hash)
  {
    if hash.Some? {
      RsaArcs(arcs, hash.value);
      EcdsaArcs(arcs, hash.value);
    }
    if arcs == OID_RSASSA_PSS {
      if scheme.SchemeRsaPss? && hash.Some? { PssParamsExact(params, hash.value, scheme.mgfHash, scheme.saltLen); }
    } else if StartsWith(arcs, OID_RSA_SIG_PREFIX) {
      RsaIsNotEcdsa(arcs);
    }
  }

  lemma RsaIsNotEcdsa(arcs: seq<nat>)
    requires StartsWith(arcs, OID_RSA_SIG_PREFIX)
    ensures !StartsWith(arcs, OID_ECDSA_SIG_PREFIX)
  {
    assert arcs[..6][3] == arcs[3] && arcs[..5][3] == arcs[3];
  }

  lemma RsaArcs(arcs: seq<nat>, hash: HashAlgo)
    ensures arcs == RsaSignatureArcs(hash) <==> StartsWith(arcs, OID_RSA_SIG_PREFIX) && SigAlgHash(arcs) == Ok(hash)
  {
    assert OID_RSA_SIG_PREFIX + [5] == RsaSignatureArcs(Sha1);
    assert OID_RSA_SIG_PREFIX + [14] == RsaSignatureArcs(Sha224);
    assert OID_RSA_SIG_PREFIX + [11] == RsaSignatureArcs(Sha256);
    assert OID_RSA_SIG_PREFIX + [12] == RsaSignatureArcs(Sha384);
    assert OID_RSA_SIG_PREFIX + [13] == RsaSignatureArcs(Sha512);
    if StartsWith(arcs, OID_RSA_SIG_PREFIX) { RsaIsNotEcdsa(arcs); }
  }

  lemma EcdsaArcs(arcs: seq<nat>, hash: HashAlgo)
    ensures arcs == EcdsaSignatureArcs(hash) <==> StartsWith(arcs, OID_ECDSA_SIG_PREFIX) && SigAlgHash(arcs) == Ok(hash)
  {
    if StartsWith(arcs, OID_RSA_SIG_PREFIX) { RsaIsNotEcdsa(arcs); }
  }

  /** An AlgorithmIdentifier parses to a scheme and a hash exactly when it names them. */
  lemma SigAlgExact(alg: Bytes, scheme: SigScheme, hash: Option<HashAlgo>)
    ensures ParseSigAlg(alg) == Ok((scheme, hash)) <==> IsSignatureAlgorithm(alg, scheme, hash)
  {
    if ParseSigAlg(alg) == Ok((scheme, hash)) {
      var (oid, params) := Der.Take(alg, Der.OID).value;
      var arcs := Der.OidArcs(oid).value;
      ThenExact(alg, Der.OID, oid, params);
      SchemeOfExact(arcs, params, scheme, hash);
      assert Identifies(alg, oid, params, arcs);
    }
    if oid, params, arcs :| Identifies(alg, oid, params, arcs) && NamesScheme(arcs, params, scheme, hash) {
      ThenExact(alg, Der.OID, oid, params);
      SchemeOfExact(arcs, params, scheme, hash);
    }
  }

  /** The identifiers the parsers compare with, as they are encoded. */
  lemma IdentifiersEncoded()
    ensures Der.OidArcs([0x2a, 0x86, 0x48, 0x86, 0xf7, 0x0d, 0x01, 0x07, 0x02]) == Some(OID_SIGNED_DATA)
    ensures Der.OidArcs([0x2a, 0x86, 0x48, 0x86, 0xf7, 0x0d, 0x01, 0x09, 0x03]) == Some(OID_CONTENT_TYPE)
    ensures Der.OidArcs([0x2a, 0x86, 0x48, 0x86, 0xf7, 0x0d, 0x01, 0x09, 0x04]) == Some(OID_MESSAGE_DIGEST)
    ensures Der.OidArcs([0x2a, 0x86, 0x48, 0x86, 0xf7, 0x0d, 0x01, 0x01, 0x08]) == Some(OID_MGF1)
    ensures Der.OidArcs([0x67, 0x81, 0x08, 0x01, 0x01, 0x01]) == Some(OID_LDS_SECURITY_OBJECT)
    ensures Der.OidArcs([0x55, 0x1d, 0x0e]) == Some(OID_SKI)
  {
    RsadsiArcs(7, 2);
    RsadsiArcs(9, 3);
    RsadsiArcs(9, 4);
    RsadsiArcs(1, 8);
    LdsArcs();
    SkiArcs();
  }

  lemma RsadsiArcs(x: Byte, y: Byte)
    requires x < 0x80 && y < 0x80
    ensures Der.OidArcs([0x2a, 0x86, 0x48, 0x86, 0xf7, 0x0d, 0x01, x, y]) == Some([1, 2, 840, 113549, 1, x as nat, y as nat])
  {
    var low: Bytes := [1, x, y];
    ShortArc(42);
    LongArcs();
    SmallArcs(low);
    OneArc(113549, [0x86, 0xf7, 0x0d], low, low);
    var mid := Before(113549, low);
    OneArc(840, [0x86, 0x48], mid, [0x86, 0xf7, 0x0d] + low);
    PackedOid(1, 2, [0x2a], Before(840, mid), [0x86, 0x48] + ([0x86, 0xf7, 0x0d] + low));
    RsadsiLists(x, y);
    Der.OidExact([0x2a, 0x86, 0x48, 0x86, 0xf7, 0x0d, 0x01, x, y], [1, 2, 840, 113549, 1, x as nat, y as nat]);
  }

  lemma RsadsiLists(x: Byte, y: Byte)
    ensures var arcs := Before(840, Before(113549, [1, x, y]));
            [1, 2] + arcs == [1, 2, 840, 113549, 1, x as nat, y as nat] && Der.Fits64(arcs)
    ensures [0x2a] + ([0x86, 0x48] + ([0x86, 0xf7, 0x0d] + [1, x, y])) == [0x2a, 0x86, 0x48, 0x86, 0xf7, 0x0d, 0x01, x, y]
  {
  }

  lemma LdsArcs()
    ensures Der.OidArcs([0x67, 0x81, 0x08, 0x01, 0x01, 0x01]) == Some([2, 23, 136, 1, 1, 1])
  {
    var low: Bytes := [1, 1, 1];
    ShortArc(103);
    LongArcs();
    SmallArcs(low);
    OneArc(136, [0x81, 0x08], low, low);
    PackedOid(2, 23, [0x67], Before(136, low), [0x81, 0x08] + low);
    assert [2, 23] + Before(136, low) == [2, 23, 136, 1, 1, 1];
    Der.OidExact([0x67, 0x81, 0x08, 0x01, 0x01, 0x01], [2, 23, 136, 1, 1, 1]);
  }

  lemma SkiArcs()
    ensures Der.OidArcs([0x55, 0x1d, 0x0e]) == Some([2, 5, 29, 14])
  {
    ShortArc(85);
    SmallArcs([29, 14]);
    PackedOid(2, 5, [85], [29, 14], [29, 14]);
    assert [2, 5] + [29, 14] == [2, 5, 29, 14];
    Der.OidExact([0x55, 0x1d, 0x0e], [2, 5, 29, 14]);
  }

  // ------------------------------------------------------------------- certificates

  /** A public key as its algorithm, parameters and bytes name it. */
  ghost predicate NamesPublicKey(ec: EllipticCurves, arcs: seq<nat>, params: Bytes, bytes: Bytes, key: PublicKey) {
    match key
    case RsaPk(k) => arcs == [1, 2, 840, 113549, 1, 1, 1] && FromPkcs1Der(bytes) == Some(k)
    case EcPk(curve, point) =>
      && arcs == [1, 2, 840, 10045, 2, 1] && ec.fromParams(params) == Some(curve) && point == bytes
      && (|bytes| == 1 + 2 * ec.fieldLen(curve) || (|bytes| == 1 + ec.fieldLen(curve) && ec.takesCompressedPoints(curve)))
  }

  datatype SpkiParts = SpkiParts(alg: Bytes, oid: Bytes, params: Bytes, arcs: seq<nat>, bytes: Bytes, more: Bytes)

  /** SubjectPublicKeyInfo (section 4.1 of RFC 5280): the algorithm and the key's BIT STRING, without unused bits. */
  ghost predicate IsSpki(spki: Bytes, s: SpkiParts) {
    && Der.Fits32(s.alg) && Der.Fits32([0x00] + s.bytes)
    && spki == Then(Der.SEQUENCE, s.alg, Then(Der.BIT_STRING, [0x00] + s.bytes, s.more))
    && Identifies(s.alg, s.oid, s.params, s.arcs)
  }

  ghost predicate HoldsKey(ec: EllipticCurves, spki: Bytes, key: PublicKey) {
    exists s :: IsSpki(spki, s) && NamesPublicKey(ec, s.arcs, s.params, s.bytes, key)
  }

  /** The parser once the pieces are taken apart. */
  lemma SpkiByParts(ec: EllipticCurves, spki: Bytes, s: SpkiParts, key: PublicKey)
    requires IsSpki(spki, s)
    ensures ParseSpki(ec, spki) == Ok(key) <==> NamesPublicKey(ec, s.arcs, s.params, s.bytes, key)
  {
    ThenExact(spki, Der.SEQUENCE, s.alg, Then(Der.BIT_STRING, [0x00] + s.bytes, s.more));
    ThenExact(s.alg, Der.OID, s.oid, s.params);
    ThenExact(Then(Der.BIT_STRING, [0x00] + s.bytes, s.more), Der.BIT_STRING, [0x00] + s.bytes, s.more);
  }

  lemma SpkiSplits(ec: EllipticCurves, spki: Bytes) returns (s: SpkiParts)
    requires ParseSpki(ec, spki).Ok?
    ensures IsSpki(spki, s)
  {
    var (alg, afterAlg) := Der.Take(spki, Der.SEQUENCE).value;
    var (oid, params) := Der.Take(alg, Der.OID).value;
    var (bits, more) := Der.Take(afterAlg, Der.BIT_STRING).value;
    ThenExact(spki, Der.SEQUENCE, alg, afterAlg);
    ThenExact(alg, Der.OID, oid, params);
    ThenExact(afterAlg, Der.BIT_STRING, bits, more);
    assert bits == [0x00] + bits[1..];
    s := SpkiParts(alg, oid, params, Der.OidArcs(oid).value, bits[1..], more);
  }

  /** A key is read from exactly the bytes that hold it under its algorithm. */
  lemma SpkiExact(ec: EllipticCurves, spki: Bytes, key: PublicKey)
    ensures ParseSpki(ec, spki) == Ok(key) <==> HoldsKey(ec, spki, key)
  {
    if ParseSpki(ec, spki) == Ok(key) {
      var s := SpkiSplits(ec, spki);
      SpkiByParts(ec, spki, s, key);
    }
    if s :| IsSpki(spki, s) && NamesPublicKey(ec, s.arcs, s.params, s.bytes, key) {
      SpkiByParts(ec, spki, s, key);
    }
  }

  datatype TbsParts = TbsParts(
    version: Option<Bytes>, serial: Bytes, signature: Bytes, issuer: Bytes, validity: Bytes, subject: Bytes, spki: Bytes,
    more: Bytes)

  predicate TbsFits(t: TbsParts) {
    && (t.version.Some? ==> Der.Fits32(t.version.value)) && Der.Fits32(t.serial) && Der.Fits32(t.signature)
    && Der.Fits32(t.issuer) && Der.Fits32(t.validity) && Der.Fits32(t.subject) && Der.Fits32(t.spki)
  }

  /** From the issuer on. */
  function EncodeNames(t: TbsParts): Bytes
    requires TbsFits(t)
  {
    Then(Der.SEQUENCE, t.issuer,
      Then(Der.SEQUENCE, t.validity,
        Then(Der.SEQUENCE, t.subject,
          Then(Der.SEQUENCE, t.spki, t.more))))
  }

  /** TBSCertificate (section 4.1 of RFC 5280): its fields in order. */
  function EncodeTbs(t: TbsParts): Bytes
    requires TbsFits(t)
  {
    OptionalField(CONTEXT_0, t.version)
    + Then(Der.INTEGER, t.serial, Then(Der.SEQUENCE, t.signature, EncodeNames(t)))
  }

  ghost predicate TbsSays(ec: EllipticCurves, t: TbsParts, f: ParsedTbs) {
    && f.serial == t.serial && f.innerSigAlg == t.signature && f.issuer == t.issuer && f.subject == t.subject
    && f.ski == FindSki(t.more) && HoldsKey(ec, t.spki, f.publicKey)
  }

  ghost predicate IsTbs(ec: EllipticCurves, tbs: Bytes, t: TbsParts, f: ParsedTbs) {
    TbsFits(t) && tbs == EncodeTbs(t) && TbsSays(ec, t, f)
  }

  /** The seven reads of the source give back the parts. */
  ghost predicate TbsTaken(tbs: Bytes, t: TbsParts) {
    && Field(tbs, CONTEXT_0).0 == t.version
    && var r0 := Field(tbs, CONTEXT_0).1;
    && Der.Take(r0, Der.INTEGER).Some? && Der.Take(r0, Der.INTEGER).value.0 == t.serial
    && var r1 := Der.Take(r0, Der.INTEGER).value.1;
    && Der.Take(r1, Der.SEQUENCE).Some? && Der.Take(r1, Der.SEQUENCE).value.0 == t.signature
    && NamesTaken(Der.Take(r1, Der.SEQUENCE).value.1, t)
  }

  ghost predicate NamesTaken(r2: Bytes, t: TbsParts) {
    && Der.Take(r2, Der.SEQUENCE).Some? && Der.Take(r2, Der.SEQUENCE).value.0 == t.issuer
    && var r3 := Der.Take(r2, Der.SEQUENCE).value.1;
    && Der.Take(r3, Der.SEQUENCE).Some? && Der.Take(r3, Der.SEQUENCE).value.0 == t.validity
    && var r4 := Der.Take(r3, Der.SEQUENCE).value.1;
    && Der.Take(r4, Der.SEQUENCE).Some? && Der.Take(r4, Der.SEQUENCE).value.0 == t.subject
    && var r5 := Der.Take(r4, Der.SEQUENCE).value.1;
    && Der.Take(r5, Der.SEQUENCE) == Some((t.spki, t.more))
  }

  lemma NamesExact(r2: Bytes, t: TbsParts)
    ensures NamesTaken(r2, t) <==>
      && Der.Fits32(t.issuer) && Der.Fits32(t.validity) && Der.Fits32(t.subject) && Der.Fits32(t.spki)
      && r2 == Then(Der.SEQUENCE, t.issuer,
                 Then(Der.SEQUENCE, t.validity, Then(Der.SEQUENCE, t.subject, Then(Der.SEQUENCE, t.spki, t.more))))
  {
    if NamesTaken(r2, t) {
      var r3 := Der.Take(r2, Der.SEQUENCE).value.1;
      var r4 := Der.Take(r3, Der.SEQUENCE).value.1;
      var r5 := Der.Take(r4, Der.SEQUENCE).value.1;
      ThenExact(r2, Der.SEQUENCE, t.issuer, r3);
      ThenExact(r3, Der.SEQUENCE, t.validity, r4);
      ThenExact(r4, Der.SEQUENCE, t.subject, r5);
      ThenExact(r5, Der.SEQUENCE, t.spki, t.more);
    }
    if Der.Fits32(t.issuer) && Der.Fits32(t.validity) && Der.Fits32(t.subject) && Der.Fits32(t.spki) {
      var r5 := Then(Der.SEQUENCE, t.spki, t.more);
      var r4 := Then(Der.SEQUENCE, t.subject, r5);
      var r3 := Then(Der.SEQUENCE, t.validity, r4);
      ThenExact(r2, Der.SEQUENCE, t.issuer, r3);
      ThenExact(r3, Der.SEQUENCE, t.validity, r4);
      ThenExact(r4, Der.SEQUENCE, t.subject, r5);
      ThenExact(r5, Der.SEQUENCE, t.spki, t.more);
    }
  }

  lemma TbsTakenExact(tbs: Bytes, t: TbsParts)
    ensures TbsTaken(tbs, t) <==> TbsFits(t) && tbs == EncodeTbs(t)
  {
    if TbsTaken(tbs, t) {
      var r0 := Field(tbs, CONTEXT_0).1;
      var r1 := Der.Take(r0, Der.INTEGER).value.1;
      var r2 := Der.Take(r1, Der.SEQUENCE).value.1;
      FieldSplits(CONTEXT_0, tbs);
      ThenExact(r0, Der.INTEGER, t.serial, r1);
      ThenExact(r1, Der.SEQUENCE, t.signature, r2);
      NamesExact(r2, t);
    }
    if TbsFits(t) && tbs == EncodeTbs(t) {
      var r2 := EncodeNames(t);
      var r1 := Then(Der.SEQUENCE, t.signature, r2);
      var r0 := Then(Der.INTEGER, t.serial, r1);
      assert r0[0] == Der.INTEGER;
      FieldReads(CONTEXT_0, t.version, r0);
      ThenExact(r0, Der.INTEGER, t.serial, r1);
      ThenExact(r1, Der.SEQUENCE, t.signature, r2);
      NamesExact(r2, t);
    }
  }

  /** The parser in terms of the parts it takes. */
  lemma TbsByParts(ec: EllipticCurves, tbs: Bytes, t: TbsParts, f: ParsedTbs)
    requires TbsTaken(tbs, t)
    ensures ParseTbs(ec, tbs) == Ok(f)
            <==> ParseSpki(ec, t.spki) == Ok(f.publicKey)
                 && f == ParsedTbs(t.serial, t.signature, t.issuer, t.subject, FindSki(t.more), f.publicKey)
  {
  }

  lemma TbsSplits(ec: EllipticCurves, tbs: Bytes) returns (t: TbsParts)
    requires ParseTbs(ec, tbs).Ok?
    ensures TbsTaken(tbs, t)
  {
    var (version, r0) := Field(tbs, CONTEXT_0);
    var (serial, r1) := Der.Take(r0, Der.INTEGER).value;
    var (signature, r2) := Der.Take(r1, Der.SEQUENCE).value;
    var (issuer, r3) := Der.Take(r2, Der.SEQUENCE).value;
    var (validity, r4) := Der.Take(r3, Der.SEQUENCE).value;
    var (subject, r5) := Der.Take(r4, Der.SEQUENCE).value;
    var (spki, more) := Der.Take(r5, Der.SEQUENCE).value;
    t := TbsParts(version, serial, signature, issuer, validity, subject, spki, more);
  }

  /**
   A TBS parses to its fields exactly when it is an optional version, the serial number,
   the signature algorithm, the issuer, the validity, the subject, the key and a rest, in
   that order, and each field says what stands in its place.
   */
  lemma TbsExact(ec: EllipticCurves, tbs: Bytes, f: ParsedTbs)
    ensures ParseTbs(ec, tbs) == Ok(f) <==> exists t :: IsTbs(ec, tbs, t, f)
  {
    if ParseTbs(ec, tbs) == Ok(f) {
      var t := TbsSplits(ec, tbs);
      TbsTakenExact(tbs, t);
      TbsByParts(ec, tbs, t, f);
      SpkiExact(ec, t.spki, f.publicKey);
      assert IsTbs(ec, tbs, t, f);
    }
    if t :| IsTbs(ec, tbs, t, f) {
      TbsTakenExact(tbs, t);
      TbsByParts(ec, tbs, t, f);
      SpkiExact(ec, t.spki, f.publicKey);
    }
  }

  /** A certificate, from its outermost SEQUENCE to each of its fields. */
  ghost predicate IsCertificate(ec: EllipticCurves, der: Bytes, cert: Certificate) {
    exists frame, t :: SaysCertificate(ec, der, cert, frame, t)
  }

  ghost predicate SaysCertificate(ec: EllipticCurves, der: Bytes, cert: Certificate, frame: Frame, t: TbsParts) {
    && IsFrame(der, frame) && IsTbs(ec, frame.tbsInner, t, cert.fields) && t.signature == frame.alg
    && cert.tbs == frame.tbs && cert.signature == frame.signature
    && IsSignatureAlgorithm(frame.alg, cert.sigScheme, Some(cert.signatureHash))
  }

  /** Certificates are read exactly from the bytes that spell them, and say who issued whom, with which key, how signed. */
  lemma CertificateExact(ec: EllipticCurves, der: Bytes, cert: Certificate)
    ensures ParseCertificate(ec, der) == Ok(cert) <==> IsCertificate(ec, der, cert)
  {
    if ParseCertificate(ec, der) == Ok(cert) {
      var frame := FrameOf(ec, der, cert);
      var t := FieldsOfFrame(ec, cert, frame);
      assert SaysCertificate(ec, der, cert, frame, t);
    }
    if frame, t :| SaysCertificate(ec, der, cert, frame, t) {
      FrameExact(der, frame);
      FrameHasFields(ec, cert, frame, t);
      CertificateByFrame(ec, der, cert, frame);
    }
  }

  lemma CertificateByFrame(ec: EllipticCurves, der: Bytes, cert: Certificate, frame: Frame)
    requires OpenCertificate(der) == Some(frame) && ReadFromFrame(ec, cert, frame)
    ensures ParseCertificate(ec, der) == Ok(cert)
  {
  }

  lemma FieldsOfFrame(ec: EllipticCurves, cert: Certificate, frame: Frame) returns (t: TbsParts)
    requires ReadFromFrame(ec, cert, frame)
    ensures IsTbs(ec, frame.tbsInner, t, cert.fields)
    ensures IsSignatureAlgorithm(frame.alg, cert.sigScheme, Some(cert.signatureHash))
  {
    TbsExact(ec, frame.tbsInner, cert.fields);
    t :| IsTbs(ec, frame.tbsInner, t, cert.fields);
    PinnedExact(frame.alg, cert.sigScheme, cert.signatureHash);
  }

  lemma FrameHasFields(ec: EllipticCurves, cert: Certificate, frame: Frame, t: TbsParts)
    requires IsTbs(ec, frame.tbsInner, t, cert.fields) && t.signature == frame.alg
    requires cert.tbs == frame.tbs && cert.signature == frame.signature
    requires IsSignatureAlgorithm(frame.alg, cert.sigScheme, Some(cert.signatureHash))
    ensures ReadFromFrame(ec, cert, frame)
  {
    TbsExact(ec, frame.tbsInner, cert.fields);
    PinnedExact(frame.alg, cert.sigScheme, cert.signatureHash);
  }

  lemma PinnedExact(alg: Bytes, scheme: SigScheme, hash: HashAlgo)
    ensures PinnedSigAlg(alg) == Ok((scheme, hash)) <==> IsSignatureAlgorithm(alg, scheme, Some(hash))
  {
    SigAlgExact(alg, scheme, Some(hash));
  }
}
