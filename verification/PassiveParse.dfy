/** The structures passive authentication reads: CMS SignedData, certificates, the LDS security object. */
module PassiveParse {
  import opened Wrappers
  import opened ByteStrings
  import opened Hashes
  import opened Rsa
  import Der

  datatype PassiveAuthError =
    | MalformedSod
    | MalformedSecurityObject
    | UnsupportedHash
    | NoSigner
    | MalformedCertificate
    | UnsupportedKey
    | DataGroupHashMismatch(number: Byte)
    | BadDocumentSignature
    | BadSignedAttributes
    | NoDataGroups

  type Parsed<+T> = Result<T, PassiveAuthError>

  const CONTEXT_0: Byte := 0xA0
  const CONTEXT_1: Byte := 0xA1
  const CONTEXT_2: Byte := 0xA2
  const CONTEXT_3: Byte := 0xA3
  const APPLICATION_23: Byte := 0x77
  const SUBJECT_KEY_ID: Byte := 0x80
  const BOOLEAN: Byte := 0x01

  const OID_SIGNED_DATA: seq<nat> := [1, 2, 840, 113549, 1, 7, 2]
  const OID_CONTENT_TYPE: seq<nat> := [1, 2, 840, 113549, 1, 9, 3]
  const OID_MESSAGE_DIGEST: seq<nat> := [1, 2, 840, 113549, 1, 9, 4]
  const OID_RSA: seq<nat> := [1, 2, 840, 113549, 1, 1, 1]
  const OID_EC_PUBLIC_KEY: seq<nat> := [1, 2, 840, 10045, 2, 1]
  const OID_LDS_SECURITY_OBJECT: seq<nat> := [2, 23, 136, 1, 1, 1]
  const OID_RSASSA_PSS: seq<nat> := [1, 2, 840, 113549, 1, 1, 10]
  const OID_MGF1: seq<nat> := [1, 2, 840, 113549, 1, 1, 8]
  const OID_RSA_SIG_PREFIX: seq<nat> := [1, 2, 840, 113549, 1, 1]
  const OID_ECDSA_SIG_PREFIX: seq<nat> := [1, 2, 840, 10045, 4]
  const OID_SKI: seq<nat> := [2, 5, 29, 14]

  /** The elliptic-curve code this model does not contain: curve lookup, and verification of a digest. */
  datatype EllipticCurves = EllipticCurves(
    fromParams: Bytes -> Option<nat>,
    fieldLen: nat -> nat,
    takesCompressedPoints: nat -> bool,
    verifies: (nat, Bytes, Bytes, Bytes) -> bool)

  function OkOr<T>(o: Option<T>, e: PassiveAuthError): Parsed<T> {
    match o
    case None => Err(e)
    case Some(v) => Ok(v)
  }

  function Take(input: Bytes, tag: Byte, e: PassiveAuthError): Parsed<(Bytes, Bytes)> {
    OkOr(Der.Take(input, tag), e)
  }

  function Expect(input: Bytes, tag: Byte, e: PassiveAuthError): Parsed<Bytes> {
    OkOr(Der.Expect(input, tag), e)
  }

  function Arcs(oid: Bytes, e: PassiveAuthError): Parsed<seq<nat>> {
    OkOr(Der.OidArcs(oid), e)
  }

  // ----------------------------------------------------------- algorithm identifiers

  function RequireNullOrAbsent(params: Bytes): Parsed<Unit> {
    if params == [] || params == [0x05, 0x00] then Ok(Unit) else Err(UnsupportedHash)
  }

  function AlgoHash(alg: Bytes): Parsed<HashAlgo> {
    var (oid, params) :- Take(alg, Der.OID, UnsupportedHash);
    var _ :- RequireNullOrAbsent(params);
    var arcs :- Arcs(oid, UnsupportedHash);
    OkOr(FromOid(arcs), UnsupportedHash)
  }

  function SigAlgHash(arcs: seq<nat>): Parsed<HashAlgo> {
    if arcs == OID_RSA_SIG_PREFIX + [5] then Ok(Sha1)
    else if arcs == OID_RSA_SIG_PREFIX + [14] then Ok(Sha224)
    else if arcs == OID_RSA_SIG_PREFIX + [11] then Ok(Sha256)
    else if arcs == OID_RSA_SIG_PREFIX + [12] then Ok(Sha384)
    else if arcs == OID_RSA_SIG_PREFIX + [13] then Ok(Sha512)
    else if arcs == OID_ECDSA_SIG_PREFIX + [1] then Ok(Sha1)
    else if arcs == OID_ECDSA_SIG_PREFIX + [3, 1] then Ok(Sha224)
    else if arcs == OID_ECDSA_SIG_PREFIX + [3, 2] then Ok(Sha256)
    else if arcs == OID_ECDSA_SIG_PREFIX + [3, 3] then Ok(Sha384)
    else if arcs == OID_ECDSA_SIG_PREFIX + [3, 4] then Ok(Sha512)
    else Err(UnsupportedHash)
  }

  datatype SigScheme = SchemeRsa | SchemeRsaPss(mgfHash: HashAlgo, saltLen: nat) | SchemeEcdsa

  predicate StartsWith(arcs: seq<nat>, prefix: seq<nat>) {
    |prefix| <= |arcs| && arcs[..|prefix|] == prefix
  }

  function ParseSigAlg(alg: Bytes): Parsed<(SigScheme, Option<HashAlgo>)> {
    var (oid, params) :- Take(alg, Der.OID, MalformedSod);
    var arcs :- Arcs(oid, MalformedSod);
    SchemeOf(arcs, params)
  }

  function SchemeOf(arcs: seq<nat>, params: Bytes): Parsed<(SigScheme, Option<HashAlgo>)> {
    if arcs == OID_RSA then
      var _ :- RequireNullOrAbsent(params);
      Ok((SchemeRsa, None))
    else if arcs == OID_RSASSA_PSS then
      var (hash, mgfHash, saltLen) :- ParsePssParams(params);
      Ok((SchemeRsaPss(mgfHash, saltLen), Some(hash)))
    else if StartsWith(arcs, OID_RSA_SIG_PREFIX) then
      var _ :- RequireNullOrAbsent(params);
      var hash :- SigAlgHash(arcs);
      Ok((SchemeRsa, Some(hash)))
    else if StartsWith(arcs, OID_ECDSA_SIG_PREFIX) then
      var _ :- RequireNullOrAbsent(params);
      var hash :- SigAlgHash(arcs);
      Ok((SchemeEcdsa, Some(hash)))
    else Err(UnsupportedHash)
  }

  /** The next element if it carries `tag`: an optional field and what follows it. */
  function Field(input: Bytes, tag: Byte): (Option<Bytes>, Bytes) {
    match Der.Take(input, tag)
    case Some((body, rest)) => (Some(body), rest)
    case None => (None, input)
  }

  function ParsePssParams(params: Bytes): Parsed<(HashAlgo, HashAlgo, nat)> {
    var r0 :- Expect(params, Der.SEQUENCE, UnsupportedHash);
    var (hashField, r1) := Field(r0, CONTEXT_0);
    var hash :- if hashField.None? then Ok(Sha1) else PssHashField(hashField.value);
    var (mgfField, r2) := Field(r1, CONTEXT_1);
    var mgfHash :- if mgfField.None? then Ok(Sha1) else PssMgfField(mgfField.value);
    var (saltField, r3) := Field(r2, CONTEXT_2);
    var saltLen :- if saltField.None? then Ok(20) else PssUintField(saltField.value);
    var (trailerField, r4) := Field(r3, CONTEXT_3);
    var trailer :- if trailerField.None? then Ok(1) else PssUintField(trailerField.value);
    if trailer != 1 || r4 != [] then Err(UnsupportedHash) else Ok((hash, mgfHash, saltLen))
  }

  function PssHashField(field: Bytes): Parsed<HashAlgo> {
    var alg :- Expect(field, Der.SEQUENCE, UnsupportedHash);
    AlgoHash(alg)
  }

  function PssMgfField(field: Bytes): Parsed<HashAlgo> {
    var mgf :- Expect(field, Der.SEQUENCE, UnsupportedHash);
    var (oid, params) :- Take(mgf, Der.OID, UnsupportedHash);
    if Der.OidArcs(oid) != Some(OID_MGF1) then Err(UnsupportedHash)
    else
      var alg :- Expect(params, Der.SEQUENCE, UnsupportedHash);
      AlgoHash(alg)
  }

  function PssUintField(field: Bytes): Parsed<nat> {
    var contents :- Expect(field, Der.INTEGER, UnsupportedHash);
    OkOr(SmallUint(contents), UnsupportedHash)
  }

  /** Minimal unsigned contents of no more than four bytes. */
  function SmallUint(contents: Bytes): Option<nat> {
    if contents == [] || contents[0] >= 0x80 then None
    else if |contents| >= 2 && contents[0] == 0 && contents[1] < 0x80 then None
    else if |contents| <= 4 then Some(Nat(contents))
    else None
  }

  // ------------------------------------------------------------------- certificates

  datatype PublicKey = RsaPk(key: RsaPublicKey) | EcPk(curve: nat, point: Bytes)

  function SchemeMatchesKey(key: PublicKey, scheme: SigScheme): bool {
    key.EcPk? <==> scheme.SchemeEcdsa?
  }

  /** `PublicKey::verify`: the key and the scheme choose the verifier. */
  function VerifySignature(digest: Digest, ec: EllipticCurves, key: PublicKey, scheme: SigScheme, hash: HashAlgo,
                           message: Bytes, sig: Bytes): bool {
    match key
    case RsaPk(k) =>
      if scheme.SchemeRsaPss? then
        VerifyPss(k, digest, PssParams(hash, scheme.mgfHash, scheme.saltLen), message, sig)
      else VerifyPkcs1v15(k, digest, hash, message, sig)
    case EcPk(curve, point) => ec.verifies(curve, point, digest(hash, message), sig)
  }

  datatype ParsedTbs = ParsedTbs(
    serial: Bytes, innerSigAlg: Bytes, issuer: Bytes, subject: Bytes, ski: Option<Bytes>, publicKey: PublicKey)

  datatype Certificate = Certificate(
    tbs: Bytes, fields: ParsedTbs, sigScheme: SigScheme, signatureHash: HashAlgo, signature: Bytes)

  function ParseSpki(ec: EllipticCurves, spki: Bytes): Parsed<PublicKey> {
    var (alg, afterAlg) :- Take(spki, Der.SEQUENCE, MalformedCertificate);
    var (oid, params) :- Take(alg, Der.OID, MalformedCertificate);
    var arcs :- Arcs(oid, MalformedCertificate);
    var (keyBits, _) :- Take(afterAlg, Der.BIT_STRING, MalformedCertificate);
    var keyBytes :- OkOr(Der.BitStringBytes(keyBits), MalformedCertificate);
    if arcs == OID_RSA then
      var key :- OkOr(FromPkcs1Der(keyBytes), UnsupportedKey);
      Ok(RsaPk(key))
    else if arcs == OID_EC_PUBLIC_KEY then
      var curve :- OkOr(ec.fromParams(params), UnsupportedKey);
      var field := ec.fieldLen(curve);
      if |keyBytes| == 1 + 2 * field || (|keyBytes| == 1 + field && ec.takesCompressedPoints(curve)) then
        Ok(EcPk(curve, keyBytes))
      else Err(UnsupportedKey)
    else Err(UnsupportedKey)
  }

  /** Walk to `extensions [3]`, past whatever unique identifiers precede it. */
  function FindExtensions(rest: Bytes): Option<Bytes>
    decreases |rest|
  {
    var t :- Der.Next(rest);
    if t.tag == CONTEXT_3 then Der.Expect(t.body, Der.SEQUENCE) else FindExtensions(t.rest)
  }

  /** The key identifier of the first subjectKeyIdentifier extension. */
  function FindSkiExtension(rest: Bytes): Option<Bytes>
    decreases |rest|
  {
    var t :- Der.Next(rest);
    if t.tag == Der.SEQUENCE && IsSkiExtension(t.body) then SkiValue(Der.Take(t.body, Der.OID).value.1)
    else FindSkiExtension(t.rest)
  }

  predicate IsSkiExtension(ext: Bytes) {
    var oid := Der.Take(ext, Der.OID);
    oid.Some? && Der.OidArcs(oid.value.0) == Some(OID_SKI)
  }

  function SkiValue(after: Bytes): Option<Bytes> {
    var t :- Der.Next(after);
    var value :- if t.tag == BOOLEAN then Der.Expect(t.rest, Der.OCTET_STRING)
                 else if t.tag == Der.OCTET_STRING then Some(t.body)
                 else None;
    Der.Expect(value, Der.OCTET_STRING)
  }

  function FindSki(afterSpki: Bytes): Option<Bytes> {
    var extensions :- FindExtensions(afterSpki);
    FindSkiExtension(extensions)
  }

  /** `find_ski` as it runs. */
  method SearchSki(afterSpki: Bytes) returns (r: Option<Bytes>)
    ensures r == FindSki(afterSpki)
  {
    var rest := afterSpki;
    var t := Der.Next(rest);
    while t.Some? && t.value.tag != CONTEXT_3
      invariant t == Der.Next(rest) && FindExtensions(rest) == FindExtensions(afterSpki)
      decreases |rest|
    {
      rest := t.value.rest;
      t := Der.Next(rest);
    }
    if t.None? { return None; }
    var extensions := Der.Expect(t.value.body, Der.SEQUENCE);
    if extensions.None? { return None; }
    rest := extensions.value;
    t := Der.Next(rest);
    while t.Some?
      invariant t == Der.Next(rest) && FindSkiExtension(rest) == FindSkiExtension(extensions.value)
      decreases |rest|
    {
      if t.value.tag == Der.SEQUENCE && IsSkiExtension(t.value.body) {
        return SkiValue(Der.Take(t.value.body, Der.OID).value.1);
      }
      rest := t.value.rest;
      t := Der.Next(rest);
    }
    r := None;
  }

  function ParseTbs(ec: EllipticCurves, tbs: Bytes): Parsed<ParsedTbs> {
    var (_, rest) := Field(tbs, CONTEXT_0);
    var (serial, r1) :- Take(rest, Der.INTEGER, MalformedCertificate);
    var (innerSigAlg, r2) :- Take(r1, Der.SEQUENCE, MalformedCertificate);
    var (issuer, r3) :- Take(r2, Der.SEQUENCE, MalformedCertificate);
    var (_, r4) :- Take(r3, Der.SEQUENCE, MalformedCertificate);
    var (subject, r5) :- Take(r4, Der.SEQUENCE, MalformedCertificate);
    var (spki, r6) :- Take(r5, Der.SEQUENCE, MalformedCertificate);
    var publicKey :- ParseSpki(ec, spki);
    Ok(ParsedTbs(serial, innerSigAlg, issuer, subject, FindSki(r6), publicKey))
  }

  /** A signatureAlgorithm that pins a hash, as a certificate's must. */
  function PinnedSigAlg(alg: Bytes): Parsed<(SigScheme, HashAlgo)> {
    match ParseSigAlg(alg)
    case Ok((scheme, Some(hash))) => Ok((scheme, hash))
    case _ => Err(MalformedCertificate)
  }

  /** The wrappers of a certificate: its TBS slice and contents, signature algorithm and signature. */
  datatype Frame = Frame(tbs: Bytes, tbsInner: Bytes, alg: Bytes, signature: Bytes)

  /** What follows the TBS: the algorithm and the signature, and nothing else. */
  function OpenSignature(afterTbs: Bytes): Option<(Bytes, Bytes)> {
    var (alg, afterAlg) :- Der.Take(afterTbs, Der.SEQUENCE);
    var (sigBits, tail) :- Der.Take(afterAlg, Der.BIT_STRING);
    if tail != [] then None
    else
      var signature :- Der.BitStringBytes(sigBits);
      Some((alg, signature))
  }

  function OpenCertificate(der: Bytes): Option<Frame> {
    var body :- Der.Expect(der, Der.SEQUENCE);
    var (tbsInner, afterTbs) :- Der.Take(body, Der.SEQUENCE);
    Der.TakeExact(body, Der.SEQUENCE, tbsInner, afterTbs);
    var (alg, signature) :- OpenSignature(afterTbs);
    Some(Frame(body[..|body| - |afterTbs|], tbsInner, alg, signature))
  }

  function ParseCertificate(ec: EllipticCurves, der: Bytes): Parsed<Certificate> {
    var frame :- OkOr(OpenCertificate(der), MalformedCertificate);
    var (scheme, hash) :- PinnedSigAlg(frame.alg);
    var fields :- ParseTbs(ec, frame.tbsInner);
    if fields.innerSigAlg != frame.alg then Err(MalformedCertificate)
    else Ok(Certificate(frame.tbs, fields, scheme, hash, frame.signature))
  }

  // ------------------------------------------------------------------ CMS SignedData

  datatype SignerId = IssuerAndSerial(issuer: Bytes, serial: Bytes) | Ski(ski: Bytes)

  datatype SignedAttrs = SignedAttrs(der: Bytes, messageDigest: Bytes, contentType: Option<seq<nat>>)

  datatype SignerInfo = SignerInfo(
    sid: SignerId, digestAlgo: HashAlgo, signatureHash: HashAlgo, sigScheme: SigScheme,
    signedAttrs: Option<SignedAttrs>, signature: Bytes)

  datatype SignedData = SignedData(
    signer: SignerInfo, contentType: seq<nat>, encapContent: Bytes, signerCert: Bytes)

  function ParseSid(tag: Byte, body: Bytes): Parsed<SignerId> {
    if tag == Der.SEQUENCE then
      var (issuer, after) :- Take(body, Der.SEQUENCE, NoSigner);
      var (serial, _) :- Take(after, Der.INTEGER, NoSigner);
      Ok(IssuerAndSerial(issuer, serial))
    else if tag == SUBJECT_KEY_ID then Ok(Ski(body))
    else Err(NoSigner)
  }

  /** What the attributes walked so far have said; a later attribute of a type replaces an earlier one. */
  datatype AttrState = AttrState(messageDigest: Option<Bytes>, contentType: Option<seq<nat>>)

  function SetValue(after: Bytes, tag: Byte): Option<Bytes> {
    var v :- Der.Expect(after, Der.SET);
    Der.Expect(v, tag)
  }

  function OidValue(after: Bytes): Option<seq<nat>> {
    var v :- SetValue(after, Der.OID);
    Der.OidArcs(v)
  }

  function OneAttr(st: AttrState, tag: Byte, attr: Bytes): AttrState {
    if tag != Der.SEQUENCE then st
    else
      match Der.Take(attr, Der.OID)
      case None => st
      case Some((oid, after)) =>
        if Der.OidArcs(oid) == Some(OID_MESSAGE_DIGEST) then st.(messageDigest := SetValue(after, Der.OCTET_STRING))
        else if Der.OidArcs(oid) == Some(OID_CONTENT_TYPE) then st.(contentType := OidValue(after))
        else st
  }

  function WalkAttrs(rest: Bytes, st: AttrState): Parsed<AttrState>
    decreases |rest|
  {
    if rest == [] then Ok(st)
    else
      var t :- OkOr(Der.Next(rest), BadSignedAttributes);
      Der.NextShrinks(rest);
      WalkAttrs(t.rest, OneAttr(st, t.tag, t.body))
  }

  /** signedAttrs, re-encoded as the SET OF that is signed (section 5.4 of RFC 5652). */
  function ParseSignedAttrs(implicit: Bytes): Parsed<SignedAttrs> {
    var st :- WalkAttrs(implicit, AttrState(None, None));
    var messageDigest :- OkOr(st.messageDigest, BadSignedAttributes);
    Ok(SignedAttrs(Der.Element(Der.SET, implicit), messageDigest, st.contentType))
  }

  /** `parse_signed_attrs` as it runs. */
  method ReadSignedAttrs(implicit: Bytes) returns (r: Parsed<SignedAttrs>)
    ensures r == ParseSignedAttrs(implicit)
  {
    var st := AttrState(None, None);
    var rest := implicit;
    while rest != []
      invariant WalkAttrs(rest, st) == WalkAttrs(implicit, AttrState(None, None))
      decreases |rest|
    {
      var t := Der.Next(rest);
      if t.None? { return Err(BadSignedAttributes); }
      st := OneAttr(st, t.value.tag, t.value.body);
      rest := t.value.rest;
    }
    var der := [Der.SET] + Der.PushLen(|implicit|) + implicit;
    if st.messageDigest.None? { return Err(BadSignedAttributes); }
    r := Ok(SignedAttrs(der, st.messageDigest.value, st.contentType));
  }

  /** A SignerInfo up to its signed attributes: who signed, under which digest, and the attributes if any. */
  function SignerHead(set_: Bytes): Parsed<(SignerId, HashAlgo, Option<Bytes>, Bytes)> {
    var si :- Expect(set_, Der.SEQUENCE, NoSigner);
    var (_, r1) :- Take(si, Der.INTEGER, NoSigner);
    var sidTlv :- OkOr(Der.Next(r1), NoSigner);
    var sid :- ParseSid(sidTlv.tag, sidTlv.body);
    var (digestAlg, r3) :- Take(sidTlv.rest, Der.SEQUENCE, NoSigner);
    var digestAlgo :- AlgoHash(digestAlg);
    var (attrs, r4) := Field(r3, CONTEXT_0);
    Ok((sid, digestAlgo, attrs, r4))
  }

  function ParseSignerInfo(set_: Bytes): Parsed<SignerInfo> {
    var (sid, digestAlgo, attrs, r4) :- SignerHead(set_);
    SignerTail(sid, digestAlgo, attrs, r4)
  }

  /** The signed attributes, then the signature under an algorithm that agrees with the digest. */
  function SignerTail(sid: SignerId, digestAlgo: HashAlgo, attrs: Option<Bytes>, r4: Bytes): Parsed<SignerInfo> {
    var signedAttrs :- ParseOptionalAttrs(attrs);
    var (sigAlg, r5) :- Take(r4, Der.SEQUENCE, NoSigner);
    var (scheme, sigHash) :- ParseSigAlg(sigAlg);
    if sigHash.Some? && sigHash.value != digestAlgo then Err(UnsupportedHash)
    else
      var (signature, _) :- Take(r5, Der.OCTET_STRING, NoSigner);
      Ok(SignerInfo(sid, digestAlgo, digestAlgo, scheme, signedAttrs, signature))
  }

  function ParseOptionalAttrs(attrs: Option<Bytes>): Parsed<Option<SignedAttrs>> {
    match attrs
    case None => Ok(None)
    case Some(implicit) =>
      var parsed :- ParseSignedAttrs(implicit);
      Ok(Some(parsed))
  }

  predicate Hit(cert: Certificate, sid: SignerId) {
    match sid
    case IssuerAndSerial(issuer, serial) => cert.fields.issuer == issuer && cert.fields.serial == serial
    case Ski(ski) => cert.fields.ski == Some(ski)
  }

  function SelectDsc(ec: EllipticCurves, certs: seq<Bytes>, sid: SignerId): Parsed<Bytes> {
    if certs == [] then Err(MalformedCertificate)
    else
      var cert :- ParseCertificate(ec, certs[0]);
      if Hit(cert, sid) then Ok(certs[0]) else SelectDsc(ec, certs[1..], sid)
  }

  function ParseEncapContent(encap: Bytes): Parsed<(seq<nat>, Bytes)> {
    var (ctype, after) :- Take(encap, Der.OID, MalformedSod);
    var contentType :- Arcs(ctype, MalformedSod);
    var explicit :- Expect(after, CONTEXT_0, MalformedSod);
    var octets :- Expect(explicit, Der.OCTET_STRING, MalformedSod);
    Ok((contentType, octets))
  }

  function CollectCertificates(contents: Bytes): Parsed<seq<Bytes>>
    decreases |contents|
  {
    if contents == [] then Ok([])
    else
      var t :- OkOr(Der.Next(contents), MalformedCertificate);
      Der.NextShrinks(contents);
      var others :- CollectCertificates(t.rest);
      Ok([Der.Element(Der.SEQUENCE, t.body)] + others)
  }

  /** `collect_certificates` as it runs. */
  method GatherCertificates(contents: Bytes) returns (r: Parsed<seq<Bytes>>)
    ensures r == CollectCertificates(contents)
  {
    var certs: seq<Bytes> := [];
    var rest := contents;
    AfterNone(CollectCertificates(contents));
    while rest != []
      invariant CollectCertificates(contents) == After(certs, CollectCertificates(rest))
      decreases |rest|
    {
      var t := Der.Next(rest);
      if t.None? { return Err(MalformedCertificate); }
      var out := [Der.SEQUENCE] + Der.PushLen(|t.value.body|) + t.value.body;
      AfterOne(certs, out, CollectCertificates(t.value.rest));
      certs := certs + [out];
      rest := t.value.rest;
    }
    assert certs + [] == certs;
    r := Ok(certs);
  }

  ghost function After(certs: seq<Bytes>, r: Parsed<seq<Bytes>>): Parsed<seq<Bytes>> {
    match r
    case Err(e) => Err(e)
    case Ok(more) => Ok(certs + more)
  }

  lemma AfterNone(r: Parsed<seq<Bytes>>)
    ensures After([], r) == r
  {
    if r.Ok? { assert [] + r.value == r.value; }
  }

  lemma AfterOne(certs: seq<Bytes>, cert: Bytes, r: Parsed<seq<Bytes>>)
    ensures After(certs, After([cert], r)) == After(certs + [cert], r)
  {
    if r.Ok? { assert certs + ([cert] + r.value) == certs + [cert] + r.value; }
  }

  /** The tail of SignedData: certificates, crls, and the signers' set that ends the search. */
  function ScanSigned(ec: EllipticCurves, rest: Bytes, certs: seq<Bytes>): Parsed<(SignerInfo, Bytes)>
    decreases |rest|
  {
    if rest == [] then Err(NoSigner)
    else
      var t :- OkOr(Der.Next(rest), MalformedSod);
      Der.NextShrinks(rest);
      if t.tag == CONTEXT_0 then
        var collected :- CollectCertificates(t.body);
        ScanSigned(ec, t.rest, collected)
      else if t.tag == Der.SET then
        var si :- ParseSignerInfo(t.body);
        var cert :- SelectDsc(ec, certs, si.sid);
        Ok((si, cert))
      else if t.tag == CONTEXT_1 then ScanSigned(ec, t.rest, certs)
      else Err(MalformedSod)
  }

  /** EF.SOD's wrapper, when it has one. */
  function UnwrapSod(sod: Bytes): Parsed<Bytes> {
    var t :- OkOr(Der.Next(sod), MalformedSod);
    if t.tag != APPLICATION_23 then Ok(sod)
    else if t.rest == [] then Ok(t.body)
    else Err(MalformedSod)
  }

  function SignedDataBody(sod: Bytes): Parsed<Bytes> {
    var cms :- UnwrapSod(sod);
    var ci :- Expect(cms, Der.SEQUENCE, MalformedSod);
    var (oid, afterOid) :- Take(ci, Der.OID, MalformedSod);
    if Der.OidArcs(oid) != Some(OID_SIGNED_DATA) then Err(MalformedSod)
    else
      var explicit :- Expect(afterOid, CONTEXT_0, MalformedSod);
      Expect(explicit, Der.SEQUENCE, MalformedSod)
  }

  /** The content under its type, and the signer and certificate its tail yields. */
  function ContentAndSigner(ec: EllipticCurves, encap: Bytes, r3: Bytes): Parsed<SignedData> {
    var (contentType, encapContent) :- ParseEncapContent(encap);
    var (signer, cert) :- ScanSigned(ec, r3, []);
    Ok(SignedData(signer, contentType, encapContent, cert))
  }

  function ParseSignedData(ec: EllipticCurves, sod: Bytes): Parsed<SignedData> {
    var sd :- SignedDataBody(sod);
    var (_, r1) :- Take(sd, Der.INTEGER, MalformedSod);
    var (_, r2) :- Take(r1, Der.SET, MalformedSod);
    var (encap, r3) :- Take(r2, Der.SEQUENCE, MalformedSod);
    ContentAndSigner(ec, encap, r3)
  }

  /** The loop of `SignedData::parse` as it runs. */
  method SearchSigned(ec: EllipticCurves, r3: Bytes) returns (r: Parsed<(SignerInfo, Bytes)>)
    ensures r == ScanSigned(ec, r3, [])
  {
    var rest := r3;
    var certs: seq<Bytes> := [];
    while rest != []
      invariant ScanSigned(ec, rest, certs) == ScanSigned(ec, r3, [])
      decreases |rest|
    {
      var t := Der.Next(rest);
      if t.None? { return Err(MalformedSod); }
      if t.value.tag == CONTEXT_0 {
        var collected := GatherCertificates(t.value.body);
        if collected.Err? { return Err(collected.error); }
        certs := collected.value;
      } else if t.value.tag == Der.SET {
        var si := ParseSignerInfo(t.value.body);
        if si.Err? { return Err(si.error); }
        var cert := SelectDsc(ec, certs, si.value.sid);
        if cert.Err? { return Err(cert.error); }
        return Ok((si.value, cert.value));
      } else if t.value.tag != CONTEXT_1 {
        return Err(MalformedSod);
      }
      rest := t.value.rest;
    }
    r := Err(NoSigner);
  }

  // ------------------------------------------------------------ LDS security object

  datatype LdsSecurityObject = LdsSecurityObject(hashAlgo: HashAlgo, hashes: map<Byte, Bytes>)

  /** One DataGroupHash: its number and hash, exactly. */
  function ParseGroupHash(dgh: Bytes): Parsed<(Byte, Bytes)> {
    var (num, after) :- Take(dgh, Der.INTEGER, MalformedSecurityObject);
    var (hash, rest) :- Take(after, Der.OCTET_STRING, MalformedSecurityObject);
    if rest != [] then Err(MalformedSecurityObject)
    else if |num| == 1 && 0 < num[0] < 0x80 then Ok((num[0], hash))
    else Err(MalformedSecurityObject)
  }

  function ParseHashes(rest: Bytes, hashes: map<Byte, Bytes>): Parsed<map<Byte, Bytes>>
    decreases |rest|
  {
    if rest == [] then Ok(hashes)
    else
      var (dgh, tail) :- Take(rest, Der.SEQUENCE, MalformedSecurityObject);
      Der.NextShrinks(rest);
      var (n, hash) :- ParseGroupHash(dgh);
      if n in hashes then Err(MalformedSecurityObject) else ParseHashes(tail, hashes[n := hash])
  }

  function ParseLds(bytes: Bytes): Parsed<LdsSecurityObject> {
    var s :- Expect(bytes, Der.SEQUENCE, MalformedSecurityObject);
    var (_, r1) :- Take(s, Der.INTEGER, MalformedSecurityObject);
    var (hashAlg, r2) :- Take(r1, Der.SEQUENCE, MalformedSecurityObject);
    var hashAlgo :- AlgoHash(hashAlg);
    var (list, _) :- Take(r2, Der.SEQUENCE, MalformedSecurityObject);
    var hashes :- ParseHashes(list, map[]);
    if hashes == map[] then Err(MalformedSecurityObject) else Ok(LdsSecurityObject(hashAlgo, hashes))
  }

  /** The loop of `LdsSecurityObject::parse` as it runs. */
  method ReadHashes(list: Bytes) returns (r: Parsed<map<Byte, Bytes>>)
    ensures r == ParseHashes(list, map[])
  {
    var hashes: map<Byte, Bytes> := map[];
    var rest := list;
    while rest != []
      invariant ParseHashes(rest, hashes) == ParseHashes(list, map[])
      decreases |rest|
    {
      var dgh := Take(rest, Der.SEQUENCE, MalformedSecurityObject);
      if dgh.Err? { return Err(dgh.error); }
      var parsed := ParseGroupHash(dgh.value.0);
      if parsed.Err? { return Err(parsed.error); }
      var (n, hash) := parsed.value;
      if n in hashes { return Err(MalformedSecurityObject); }
      Der.NextShrinks(rest);
      hashes := hashes[n := hash];
      rest := dgh.value.1;
    }
    r := Ok(hashes);
  }
}
