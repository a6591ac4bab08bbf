/** Passive authentication: from a trusted CSCA to the bytes of the data groups. */
module PassiveAuth {
  import opened Wrappers
  import opened ByteStrings
  import opened Hashes
  import opened PassiveParse
  import Der

  datatype ChainStatus = Trusted(cscaSubject: Bytes) | Unverified

  datatype Verdict = Verdict(verifiedGroups: seq<Byte>, sodGroups: seq<Byte>, chain: ChainStatus) {
    predicate IsAuthentic() {
      chain.Trusted? && verifiedGroups != []
    }

    predicate CoversAllGroups() {
      IsAuthentic() && verifiedGroups == sodGroups
    }
  }

  datatype TrustAnchor = TrustAnchor(subject: Bytes, key: PublicKey)

  datatype DataGroup = DataGroup(number: Byte, bytes: Bytes)

  function AnchorFromCertificate(ec: EllipticCurves, der: Bytes): Parsed<TrustAnchor> {
    var cert :- ParseCertificate(ec, der);
    Ok(TrustAnchor(cert.fields.subject, cert.fields.publicKey))
  }

  /** The numbers in a set, each once, in ascending order: a BTreeMap's keys, or a sorted and deduplicated list. */
  function Ascending(s: set<Byte>, from: nat): seq<Byte>
    requires from <= 256
    decreases 256 - from
  {
    if from == 256 then []
    else if from in s then [from] + Ascending(s, from + 1)
    else Ascending(s, from + 1)
  }

  function Numbers(groups: seq<DataGroup>): set<Byte> {
    set g | g in groups :: g.number
  }

  /** Every group hashes to what the security object says of its number, or the first that does not. */
  function MatchGroups(digest: Digest, lds: LdsSecurityObject, groups: seq<DataGroup>): Parsed<Unit> {
    if groups == [] then Ok(Unit)
    else
      var g := groups[0];
      if g.number !in lds.hashes || digest(lds.hashAlgo, g.bytes) != lds.hashes[g.number] then
        Err(DataGroupHashMismatch(g.number))
      else MatchGroups(digest, lds, groups[1..])
  }

  /** The bytes the signer signed, once they are bound to the security object. */
  function SignedMessage(digest: Digest, signed: SignedData): Parsed<Bytes> {
    match signed.signer.signedAttrs
    case None => Ok(signed.encapContent)
    case Some(attrs) =>
      if attrs.messageDigest != digest(signed.signer.digestAlgo, signed.encapContent)
         || attrs.contentType != Some(signed.contentType) then Err(BadSignedAttributes)
      else Ok(attrs.der)
  }

  /** The anchor's key signed exactly the certificate's TBS slice, under the scheme it declares. */
  predicate Anchors(digest: Digest, ec: EllipticCurves, anchor: TrustAnchor, dsc: Certificate) {
    && anchor.subject == dsc.fields.issuer
    && SchemeMatchesKey(anchor.key, dsc.sigScheme)
    && VerifySignature(digest, ec, anchor.key, dsc.sigScheme, dsc.signatureHash, dsc.tbs, dsc.signature)
  }

  function Chain(digest: Digest, ec: EllipticCurves, anchors: seq<TrustAnchor>, dsc: Certificate): ChainStatus {
    if anchors == [] then Unverified
    else if Anchors(digest, ec, anchors[0], dsc) then Trusted(anchors[0].subject)
    else Chain(digest, ec, anchors[1..], dsc)
  }

  function CheckSigner(digest: Digest, ec: EllipticCurves, signed: SignedData): Parsed<Certificate> {
    var dsc :- ParseCertificate(ec, signed.signerCert);
    if !SchemeMatchesKey(dsc.fields.publicKey, signed.signer.sigScheme) then Err(BadDocumentSignature)
    else
      var message :- SignedMessage(digest, signed);
      if VerifySignature(digest, ec, dsc.fields.publicKey, signed.signer.sigScheme, signed.signer.signatureHash,
                         message, signed.signer.signature) then Ok(dsc)
      else Err(BadDocumentSignature)
  }

  function Verify(digest: Digest, ec: EllipticCurves, sod: Bytes, groups: seq<DataGroup>, anchors: seq<TrustAnchor>)
    : Parsed<Verdict>
  {
    if groups == [] then Err(NoDataGroups)
    else
      var signed :- ParseSignedData(ec, sod);
      if signed.contentType != OID_LDS_SECURITY_OBJECT then Err(MalformedSod)
      else
        var lds :- ParseLds(signed.encapContent);
        var _ :- MatchGroups(digest, lds, groups);
        var dsc :- CheckSigner(digest, ec, signed);
        Ok(Verdict(Ascending(Numbers(groups), 0), Ascending(lds.hashes.Keys, 0), Chain(digest, ec, anchors, dsc)))
  }

  /** `verify` as it runs: the groups are hashed one by one, and the anchors tried in turn. */
  method RunVerify(digest: Digest, ec: EllipticCurves, sod: Bytes, groups: seq<DataGroup>, anchors: seq<TrustAnchor>)
    returns (r: Parsed<Verdict>)
    ensures r == Verify(digest, ec, sod, groups, anchors)
  {
    if groups == [] { return Err(NoDataGroups); }
    var signed := ParseSignedData(ec, sod);
    if signed.Err? { return Err(signed.error); }
    if signed.value.contentType != OID_LDS_SECURITY_OBJECT { return Err(MalformedSod); }
    var lds := ParseLds(signed.value.encapContent);
    if lds.Err? { return Err(lds.error); }
    var seen: set<Byte> := {};
    for i := 0 to |groups|
      invariant seen == Numbers(groups[..i])
      invariant MatchGroups(digest, lds.value, groups) == MatchGroups(digest, lds.value, groups[i..])
    {
      var g := groups[i];
      assert groups[i..][1..] == groups[i + 1..];
      if g.number !in lds.value.hashes || digest(lds.value.hashAlgo, g.bytes) != lds.value.hashes[g.number] {
        return Err(DataGroupHashMismatch(g.number));
      }
      assert groups[..i + 1] == groups[..i] + [g];
      seen := seen + {g.number};
    }
    assert groups[..|groups|] == groups;
    var dsc := CheckSigner(digest, ec, signed.value);
    if dsc.Err? { return Err(dsc.error); }
    var chain := Unverified;
    for i := 0 to |anchors|
      invariant chain == Unverified
      invariant Chain(digest, ec, anchors, dsc.value) == Chain(digest, ec, anchors[i..], dsc.value)
    {
      assert anchors[i..][1..] == anchors[i + 1..];
      if Anchors(digest, ec, anchors[i], dsc.value) {
        chain := Trusted(anchors[i].subject);
        break;
      }
    }
    r := Ok(Verdict(Ascending(seen, 0), Ascending(lds.value.hashes.Keys, 0), chain));
  }

  // ------------------------------------------------------- what an Ok result means

  lemma {:induction false} MatchedGroups(digest: Digest, lds: LdsSecurityObject, groups: seq<DataGroup>)
    ensures MatchGroups(digest, lds, groups).Ok?
            <==> forall g :: g in groups ==>
                   g.number in lds.hashes && digest(lds.hashAlgo, g.bytes) == lds.hashes[g.number]
  {
    if groups != [] {
      MatchedGroups(digest, lds, groups[1..]);
      assert groups == [groups[0]] + groups[1..];
    }
  }

  lemma {:induction false} ChainExact(digest: Digest, ec: EllipticCurves, anchors: seq<TrustAnchor>, dsc: Certificate)
    ensures Chain(digest, ec, anchors, dsc).Trusted? <==> exists a :: a in anchors && Anchors(digest, ec, a, dsc)
    ensures Chain(digest, ec, anchors, dsc).Trusted? ==>
              exists a :: a in anchors && Anchors(digest, ec, a, dsc)
                          && a.subject == Chain(digest, ec, anchors, dsc).cscaSubject
  {
    if anchors != [] {
      var first, others := anchors[0], anchors[1..];
      assert anchors == [first] + others;
      ChainExact(digest, ec, others, dsc);
      assert Anchors(digest, ec, first, dsc) ==> first in anchors;
    }
  }

  /** A message is bound to the content: it is the content, or attributes that vouch for it. */
  predicate Vouches(digest: Digest, signed: SignedData, message: Bytes) {
    match signed.signer.signedAttrs
    case None => message == signed.encapContent
    case Some(attrs) =>
      && message == attrs.der
      && attrs.messageDigest == digest(signed.signer.digestAlgo, signed.encapContent)
      && attrs.contentType == Some(signed.contentType)
  }

  predicate SignedBy(digest: Digest, ec: EllipticCurves, dsc: Certificate, signer: SignerInfo, message: Bytes) {
    && SchemeMatchesKey(dsc.fields.publicKey, signer.sigScheme)
    && VerifySignature(digest, ec, dsc.fields.publicKey, signer.sigScheme, signer.signatureHash, message, signer.signature)
  }

  /**
   A read is accepted exactly when there are groups, the security object parses, every
   group hashes to what the object says, and the signer's certificate signed a message
   that vouches for that very object.
   */
  lemma AcceptedExactly(digest: Digest, ec: EllipticCurves, sod: Bytes, groups: seq<DataGroup>, anchors: seq<TrustAnchor>)
    ensures Verify(digest, ec, sod, groups, anchors).Ok? <==>
      && groups != []
      && ParseSignedData(ec, sod).Ok?
      && var signed := ParseSignedData(ec, sod).value;
      && signed.contentType == OID_LDS_SECURITY_OBJECT
      && ParseLds(signed.encapContent).Ok?
      && var lds := ParseLds(signed.encapContent).value;
      && (forall g :: g in groups ==> g.number in lds.hashes && digest(lds.hashAlgo, g.bytes) == lds.hashes[g.number])
      && ParseCertificate(ec, signed.signerCert).Ok?
      && exists message :: Vouches(digest, signed, message)
                           && SignedBy(digest, ec, ParseCertificate(ec, signed.signerCert).value, signed.signer, message)
  {
    if ParseSignedData(ec, sod).Ok? {
      var signed := ParseSignedData(ec, sod).value;
      var m := SignedMessage(digest, signed);
      assert m.Ok? ==> Vouches(digest, signed, m.value);
      if ParseLds(signed.encapContent).Ok? {
        MatchedGroups(digest, ParseLds(signed.encapContent).value, groups);
      }
    }
  }

  /** Group i is the first that has no entry or does not hash to it. */
  ghost predicate FirstMismatch(digest: Digest, lds: LdsSecurityObject, groups: seq<DataGroup>, i: nat)
    requires i < |groups|
  {
    && !Matches(digest, lds, groups[i])
    && forall j :: 0 <= j < i ==> Matches(digest, lds, groups[j])
  }

  predicate Matches(digest: Digest, lds: LdsSecurityObject, g: DataGroup) {
    g.number in lds.hashes && digest(lds.hashAlgo, g.bytes) == lds.hashes[g.number]
  }

  lemma {:induction false} MismatchExact(digest: Digest, lds: LdsSecurityObject, groups: seq<DataGroup>)
    ensures MatchGroups(digest, lds, groups).Err? ==>
              exists i: nat :: i < |groups| && FirstMismatch(digest, lds, groups, i)
                               && MatchGroups(digest, lds, groups) == Err(DataGroupHashMismatch(groups[i].number))
  {
    if groups != [] {
      var others := groups[1..];
      MismatchExact(digest, lds, others);
      if !Matches(digest, lds, groups[0]) {
        assert FirstMismatch(digest, lds, groups, 0);
      } else if i: nat :| i < |others| && FirstMismatch(digest, lds, others, i)
                          && MatchGroups(digest, lds, others) == Err(DataGroupHashMismatch(others[i].number)) {
        assert forall j :: 1 <= j < |groups| ==> groups[j] == others[j - 1];
        assert FirstMismatch(digest, lds, groups, i + 1);
      }
    }
  }

  /** Verification has got as far as the groups: there are some, and the object reads. */
  ghost predicate ReachesGroups(ec: EllipticCurves, sod: Bytes, groups: seq<DataGroup>) {
    && groups != [] && ParseSignedData(ec, sod).Ok?
    && ParseSignedData(ec, sod).value.contentType == OID_LDS_SECURITY_OBJECT
    && ParseLds(ParseSignedData(ec, sod).value.encapContent).Ok?
  }

  /**
   A refusal for a group names the first group that does not match; with no groups at all
   that is what is said, before anything is read.
   */
  lemma RefusalsExact(digest: Digest, ec: EllipticCurves, sod: Bytes, groups: seq<DataGroup>, anchors: seq<TrustAnchor>)
    ensures groups == [] ==> Verify(digest, ec, sod, groups, anchors) == Err(NoDataGroups)
    ensures ReachesGroups(ec, sod, groups) ==>
              var lds := ParseLds(ParseSignedData(ec, sod).value.encapContent).value;
              forall i: nat :: i < |groups| && FirstMismatch(digest, lds, groups, i) ==>
                Verify(digest, ec, sod, groups, anchors) == Err(DataGroupHashMismatch(groups[i].number))
  {
    if ReachesGroups(ec, sod, groups) {
      var lds := ParseLds(ParseSignedData(ec, sod).value.encapContent).value;
      MismatchExact(digest, lds, groups);
      MatchedGroups(digest, lds, groups);
      forall i: nat | i < |groups| && FirstMismatch(digest, lds, groups, i)
        ensures MatchGroups(digest, lds, groups) == Err(DataGroupHashMismatch(groups[i].number))
      {
        assert groups[i] in groups;
        var k: nat :| k < |groups| && FirstMismatch(digest, lds, groups, k)
                      && MatchGroups(digest, lds, groups) == Err(DataGroupHashMismatch(groups[k].number));
        assert i == k;
      }
    }
  }

  predicate Hits(ec: EllipticCurves, cert: Bytes, sid: SignerId) {
    var c := ParseCertificate(ec, cert);
    c.Ok? && Hit(c.value, sid)
  }

  predicate Misses(ec: EllipticCurves, cert: Bytes, sid: SignerId) {
    var c := ParseCertificate(ec, cert);
    c.Ok? && !Hit(c.value, sid)
  }

  /** The certificate at `i` is hit by the signer identifier, and all before it parse and are not. */
  predicate FirstHit(ec: EllipticCurves, certs: seq<Bytes>, sid: SignerId, i: nat)
    requires i < |certs|
  {
    && Hits(ec, certs[i], sid)
    && forall j :: 0 <= j < i ==> Misses(ec, certs[j], sid)
  }

  /** The signer's certificate is the first hit, whatever comes after it. */
  lemma {:induction false} SelectsFirstHit(ec: EllipticCurves, certs: seq<Bytes>, sid: SignerId, cert: Bytes)
    ensures SelectDsc(ec, certs, sid) == Ok(cert)
            <==> exists i :: 0 <= i < |certs| && certs[i] == cert && FirstHit(ec, certs, sid, i)
  {
    if certs != [] {
      SelectsFirstHit(ec, certs[1..], sid, cert);
      SelectStep(ec, certs[0], certs[1..], sid);
      assert certs == [certs[0]] + certs[1..];
      if Hits(ec, certs[0], sid) {
        assert FirstHit(ec, certs, sid, 0);
      } else {
        forall i | 0 <= i < |certs| - 1 { FirstHitShifts(ec, certs, sid, i); }
        if i :| 0 <= i < |certs| && certs[i] == cert && FirstHit(ec, certs, sid, i) {
          assert certs[1..][i - 1] == cert && FirstHit(ec, certs[1..], sid, i - 1);
        }
        if i :| 0 <= i < |certs[1..]| && certs[1..][i] == cert && FirstHit(ec, certs[1..], sid, i) {
          assert Misses(ec, certs[0], sid) ==> certs[i + 1] == cert && FirstHit(ec, certs, sid, i + 1);
        }
      }
    }
  }

  lemma SelectStep(ec: EllipticCurves, cert: Bytes, others: seq<Bytes>, sid: SignerId)
    ensures var r := SelectDsc(ec, [cert] + others, sid);
            if Hits(ec, cert, sid) then r == Ok(cert)
            else if Misses(ec, cert, sid) then r == SelectDsc(ec, others, sid)
            else r.Err?
  {
    assert ([cert] + others)[1..] == others;
  }

  lemma FirstHitShifts(ec: EllipticCurves, certs: seq<Bytes>, sid: SignerId, i: nat)
    requires i + 1 < |certs|
    ensures FirstHit(ec, certs, sid, i + 1) <==> Misses(ec, certs[0], sid) && FirstHit(ec, certs[1..], sid, i)
  {
    assert certs[1..][i] == certs[i + 1];
    assert forall j :: 0 <= j < i ==> certs[1..][j] == certs[j + 1];
    assert forall j :: 1 <= j < i + 1 ==> certs[j] == certs[1..][j - 1];
  }

  /** An LDS security object never starts like a set of signed attributes. */
  lemma ContentIsNotAttributes(content: Bytes, implicit: Bytes)
    requires ParseLds(content).Ok?
    ensures content != Der.Element(Der.SET, implicit)
  {
    assert content[0] == Der.SEQUENCE;
  }

  /** The signer and its certificate come from the signers' set and the certificates before it. */
  lemma {:induction false} SignerOrigin(ec: EllipticCurves, rest: Bytes, certs: seq<Bytes>) returns (set_: Bytes)
    requires ScanSigned(ec, rest, certs).Ok?
    ensures ParseSignerInfo(set_) == Ok(ScanSigned(ec, rest, certs).value.0)
    decreases |rest|
  {
    var t := Der.Next(rest).value;
    Der.NextShrinks(rest);
    if t.tag == CONTEXT_0 {
      set_ := SignerOrigin(ec, t.rest, CollectCertificates(t.body).value);
    } else if t.tag == Der.SET {
      set_ := t.body;
    } else {
      set_ := SignerOrigin(ec, t.rest, certs);
    }
  }

  /** Signed attributes come from a string of bytes, and are signed as the SET of it. */
  lemma AttributesOrigin(ec: EllipticCurves, sod: Bytes) returns (implicit: Bytes)
    requires ParseSignedData(ec, sod).Ok? && ParseSignedData(ec, sod).value.signer.signedAttrs.Some?
    ensures ParseSignedAttrs(implicit) == Ok(ParseSignedData(ec, sod).value.signer.signedAttrs.value)
  {
    var sd := SignedDataBody(sod).value;
    var r1 := Take(sd, Der.INTEGER, MalformedSod).value.1;
    var r2 := Take(r1, Der.SET, MalformedSod).value.1;
    var r3 := Take(r2, Der.SEQUENCE, MalformedSod).value.1;
    var set_ := SignerOrigin(ec, r3, []);
    implicit := SignerAttributes(set_);
  }

  lemma SignerAttributes(set_: Bytes) returns (implicit: Bytes)
    requires ParseSignerInfo(set_).Ok? && ParseSignerInfo(set_).value.signedAttrs.Some?
    ensures ParseSignedAttrs(implicit) == Ok(ParseSignerInfo(set_).value.signedAttrs.value)
  {
    implicit := SignerHead(set_).value.2.value;
  }

  /** What verification has established of an accepted security object. */
  lemma AcceptedParts(digest: Digest, ec: EllipticCurves, sod: Bytes, groups: seq<DataGroup>, anchors: seq<TrustAnchor>)
    requires Verify(digest, ec, sod, groups, anchors).Ok?
    ensures ParseSignedData(ec, sod).Ok?
    ensures var signed := ParseSignedData(ec, sod).value;
            && signed.contentType == OID_LDS_SECURITY_OBJECT
            && ParseLds(signed.encapContent).Ok?
            && MatchGroups(digest, ParseLds(signed.encapContent).value, groups).Ok?
            && CheckSigner(digest, ec, signed).Ok?
            && SignedMessage(digest, signed).Ok?
  {
  }

  predicate ReadFrom(attrs: Option<SignedAttrs>, implicit: Bytes) {
    attrs.Some? ==> ParseSignedAttrs(implicit) == Ok(attrs.value)
  }

  lemma MessagesAgree(digest: Digest, s: SignedData, t: SignedData, a: Bytes, b: Bytes)
    requires ReadFrom(s.signer.signedAttrs, a) && ReadFrom(t.signer.signedAttrs, b)
    requires ParseLds(s.encapContent).Ok? && ParseLds(t.encapContent).Ok?
    requires SignedMessage(digest, s).Ok? && SignedMessage(digest, s) == SignedMessage(digest, t)
    ensures if s.signer.signedAttrs.None? then t.signer.signedAttrs.None? && s.encapContent == t.encapContent
            else && t.signer.signedAttrs.Some?
                 && digest(s.signer.digestAlgo, s.encapContent) == digest(t.signer.digestAlgo, t.encapContent)
  {
    ContentIsNotAttributes(s.encapContent, b);
    ContentIsNotAttributes(t.encapContent, a);
    if s.signer.signedAttrs.Some? && t.signer.signedAttrs.Some? {
      Der.ElementInjective(Der.SET, a, b);
    }
  }

  /**
   One signed message vouches for one content. If two security objects verify and what
   their signers signed is the same string of bytes, then either neither has signed
   attributes and their contents are equal, or both do and their contents have one
   digest, each under its signer's digest algorithm. In particular a signature over
   attributes cannot be passed off as one over a content.
   */
  lemma SignedMessageFixesContent(digest: Digest, ec: EllipticCurves, sod: Bytes, sod': Bytes,
                                  groups: seq<DataGroup>, groups': seq<DataGroup>,
                                  anchors: seq<TrustAnchor>, anchors': seq<TrustAnchor>)
    requires Verify(digest, ec, sod, groups, anchors).Ok? && Verify(digest, ec, sod', groups', anchors').Ok?
    requires SignedMessage(digest, ParseSignedData(ec, sod).value) == SignedMessage(digest, ParseSignedData(ec, sod').value)
    ensures var (s, t) := (ParseSignedData(ec, sod).value, ParseSignedData(ec, sod').value);
            if s.signer.signedAttrs.None? then t.signer.signedAttrs.None? && s.encapContent == t.encapContent
            else && t.signer.signedAttrs.Some?
                 && digest(s.signer.digestAlgo, s.encapContent) == digest(t.signer.digestAlgo, t.encapContent)
  {
    var s, t := ParseSignedData(ec, sod).value, ParseSignedData(ec, sod').value;
    AcceptedParts(digest, ec, sod, groups, anchors);
    AcceptedParts(digest, ec, sod', groups', anchors');
    var a: Bytes, b: Bytes := [], [];
    if s.signer.signedAttrs.Some? { a := AttributesOrigin(ec, sod); }
    if t.signer.signedAttrs.Some? { b := AttributesOrigin(ec, sod'); }
    MessagesAgree(digest, s, t, a, b);
  }

  /**
   So one signed message fixes the bytes of every data group it covers, up to a
   collision: if two accepted reads under one signed message disagree on a group both
   supplied, here are two byte strings with one digest. The two signers' algorithms need
   not be asked to agree: digests of different algorithms differ in length.
   */
  lemma DisagreementIsCollision(digest: Digest, ec: EllipticCurves, sod: Bytes, sod': Bytes,
                                groups: seq<DataGroup>, groups': seq<DataGroup>,
                                anchors: seq<TrustAnchor>, anchors': seq<TrustAnchor>, g: DataGroup, g': DataGroup)
    returns (hash: HashAlgo, a: Bytes, b: Bytes)
    requires Verify(digest, ec, sod, groups, anchors).Ok? && Verify(digest, ec, sod', groups', anchors').Ok?
    requires SignedMessage(digest, ParseSignedData(ec, sod).value) == SignedMessage(digest, ParseSignedData(ec, sod').value)
    requires g in groups && g' in groups' && g.number == g'.number && g.bytes != g'.bytes
    ensures a != b && digest(hash, a) == digest(hash, b)
    ensures || (a == g.bytes && b == g'.bytes)
            || (a == ParseSignedData(ec, sod).value.encapContent && b == ParseSignedData(ec, sod').value.encapContent)
  {
    var s, t := ParseSignedData(ec, sod).value, ParseSignedData(ec, sod').value;
    SignedMessageFixesContent(digest, ec, sod, sod', groups, groups', anchors, anchors');
    if s.encapContent != t.encapContent {
      LengthNamesHash(digest, s.signer.digestAlgo, s.encapContent, t.signer.digestAlgo, t.encapContent);
      hash, a, b := s.signer.digestAlgo, s.encapContent, t.encapContent;
    } else {
      var lds := ParseLds(s.encapContent).value;
      MatchedGroups(digest, lds, groups);
      MatchedGroups(digest, lds, groups');
      hash, a, b := lds.hashAlgo, g.bytes, g'.bytes;
    }
  }

  lemma LengthNamesHash(digest: Digest, hash: HashAlgo, a: Bytes, hash': HashAlgo, b: Bytes)
    requires digest(hash, a) == digest(hash', b)
    ensures hash == hash'
  {
    assert |digest(hash, a)| == DigestLen(hash) && |digest(hash', b)| == DigestLen(hash');
  }

  /** With one and the same security object the collision is between the groups themselves. */
  lemma SameObjectDisagreement(digest: Digest, ec: EllipticCurves, sod: Bytes, groups: seq<DataGroup>, groups': seq<DataGroup>,
                               anchors: seq<TrustAnchor>, anchors': seq<TrustAnchor>, g: DataGroup, g': DataGroup)
    requires Verify(digest, ec, sod, groups, anchors).Ok? && Verify(digest, ec, sod, groups', anchors').Ok?
    requires g in groups && g' in groups' && g.number == g'.number
    ensures var lds := ParseLds(ParseSignedData(ec, sod).value.encapContent).value;
            digest(lds.hashAlgo, g.bytes) == digest(lds.hashAlgo, g'.bytes)
  {
    var lds := ParseLds(ParseSignedData(ec, sod).value.encapContent).value;
    MatchedGroups(digest, lds, groups);
    MatchedGroups(digest, lds, groups');
  }

  // ------------------------------------------------------------------------ coverage

  lemma {:induction false} AscendingHolds(s: set<Byte>, from: nat, x: Byte)
    requires from <= 256
    ensures x in Ascending(s, from) <==> x in s && from <= x
    decreases 256 - from
  {
    if from < 256 { AscendingHolds(s, from + 1, x); }
  }

  /** The list is strictly ascending. */
  lemma {:induction false} AscendingSorted(s: set<Byte>, from: nat, i: nat, j: nat)
    requires from <= 256 && i < j < |Ascending(s, from)|
    ensures Ascending(s, from)[i] < Ascending(s, from)[j]
    decreases 256 - from
  {
    if from in s {
      var others := Ascending(s, from + 1);
      if i > 0 {
        AscendingSorted(s, from + 1, i - 1, j - 1);
      } else {
        AscendingHolds(s, from + 1, others[j - 1]);
      }
    } else {
      AscendingSorted(s, from + 1, i, j);
    }
  }

  lemma AscendingInjective(s: set<Byte>, t: set<Byte>)
    ensures Ascending(s, 0) == Ascending(t, 0) <==> s == t
  {
    forall x: Byte ensures x in Ascending(s, 0) <==> x in s { AscendingHolds(s, 0, x); }
    forall x: Byte ensures x in Ascending(t, 0) <==> x in t { AscendingHolds(t, 0, x); }
    if Ascending(s, 0) == Ascending(t, 0) {
      assert forall x: Byte :: x in s <==> x in t;
    }
  }

  /**
   An accepted read vouches for exactly the groups supplied, and reports exactly the
   groups of the security object, all the former among them; each list in ascending order.
   */
  lemma VerifiedGroupsExact(digest: Digest, ec: EllipticCurves, sod: Bytes, groups: seq<DataGroup>,
                            anchors: seq<TrustAnchor>, n: Byte)
    requires Verify(digest, ec, sod, groups, anchors).Ok?
    ensures var v := Verify(digest, ec, sod, groups, anchors).value;
            && (n in v.verifiedGroups <==> exists g :: g in groups && g.number == n)
            && (n in v.sodGroups <==> n in ParseLds(ParseSignedData(ec, sod).value.encapContent).value.hashes)
            && (n in v.verifiedGroups ==> n in v.sodGroups)
            && v.verifiedGroups != []
            && IsAscending(v.verifiedGroups) && IsAscending(v.sodGroups)
  {
    var lds := ParseLds(ParseSignedData(ec, sod).value.encapContent).value;
    MatchedGroups(digest, lds, groups);
    AscendingHolds(Numbers(groups), 0, n);
    AscendingHolds(lds.hashes.Keys, 0, n);
    assert groups[0].number in Numbers(groups);
    AscendingHolds(Numbers(groups), 0, groups[0].number);
    AscendingIsAscending(Numbers(groups));
    AscendingIsAscending(lds.hashes.Keys);
  }

  predicate IsAscending(s: seq<Byte>) {
    forall i, j :: 0 <= i < j < |s| ==> s[i] < s[j]
  }

  lemma AscendingIsAscending(s: set<Byte>)
    ensures IsAscending(Ascending(s, 0))
  {
    forall i, j | 0 <= i < j < |Ascending(s, 0)| ensures Ascending(s, 0)[i] < Ascending(s, 0)[j] {
      AscendingSorted(s, 0, i, j);
    }
  }

  /** Full coverage is reported exactly when an anchor signed and the groups are those of the security object. */
  lemma CoversAllExactly(digest: Digest, ec: EllipticCurves, sod: Bytes, groups: seq<DataGroup>, anchors: seq<TrustAnchor>)
    requires Verify(digest, ec, sod, groups, anchors).Ok?
    ensures var signed := ParseSignedData(ec, sod).value;
            var dsc := ParseCertificate(ec, signed.signerCert).value;
            Verify(digest, ec, sod, groups, anchors).value.CoversAllGroups()
            <==> && (exists a :: a in anchors && Anchors(digest, ec, a, dsc))
                 && Numbers(groups) == ParseLds(signed.encapContent).value.hashes.Keys
  {
    var signed := ParseSignedData(ec, sod).value;
    ChainExact(digest, ec, anchors, ParseCertificate(ec, signed.signerCert).value);
    AscendingInjective(Numbers(groups), ParseLds(signed.encapContent).value.hashes.Keys);
    VerifiedGroupsExact(digest, ec, sod, groups, anchors, 0);
  }
}
