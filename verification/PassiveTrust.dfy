/** What passive authentication vouches for, in terms of bytes, keys and signatures alone. */
module PassiveTrust {
  import opened Wrappers
  import opened ByteStrings
  import opened Modular
  import opened Hashes
  import opened HashNames
  import opened Rsa
  import opened PassiveParse
  import opened PassiveFormats
  import opened PassiveFields
  import PassiveSigned
  import opened PassiveAuth

  // -------------------------------------------------------------------- signatures

  /** EMSA-PKCS1-v1_5 (section 9.2 of RFC 8017): what the signature opens to. */
  ghost predicate OpensToPkcs1(digest: Digest, key: RsaPublicKey, hash: HashAlgo, arcs: seq<nat>, ps: Bytes,
                               message: Bytes, sig: Bytes)
  {
    && FromOid(arcs) == Some(hash) && InfoFits(arcs, digest(hash, message)) && IsPkcs1Padding(ps)
    && RawPublic(key, sig) == Some([0x00, 0x01] + ps + [0x00] + DigestInfo(arcs, digest(hash, message)))
  }

  /** EMSA-PSS (section 9.1 of RFC 8017): the integer the signature opens to. */
  ghost predicate OpensToPss(digest: Digest, key: RsaPublicKey, ps: PssParams, message: Bytes, sig: Bytes) {
    && key.n > 0 && |sig| == key.Size() && Nat(sig) < key.n && PssFits(ps, EmBits(key))
    && exists salt ::
         && |salt| == ps.saltLen
         && Nat(PssEncode(digest, ps, message, salt, EmBits(key))) == ModPow(Nat(sig), key.e, key.n)
  }

  /** A signature of the message under a scheme, by a key that the scheme is for. */
  ghost predicate ValidUnder(digest: Digest, ec: EllipticCurves, key: PublicKey, scheme: SigScheme, hash: HashAlgo,
                             message: Bytes, sig: Bytes)
  {
    match scheme
    case SchemeRsa => key.RsaPk? && exists arcs, ps :: OpensToPkcs1(digest, key.key, hash, arcs, ps, message, sig)
    case SchemeRsaPss(mgfHash, saltLen) =>
      key.RsaPk? && OpensToPss(digest, key.key, PssParams(hash, mgfHash, saltLen), message, sig)
    case SchemeEcdsa => key.EcPk? && ec.verifies(key.curve, key.point, digest(hash, message), sig)
  }

  lemma Pkcs1Opens(digest: Digest, key: RsaPublicKey, hash: HashAlgo, message: Bytes, sig: Bytes)
    ensures VerifyPkcs1v15(key, digest, hash, message, sig)
            <==> exists arcs, ps :: OpensToPkcs1(digest, key, hash, arcs, ps, message, sig)
  {
    if VerifyPkcs1v15(key, digest, hash, message, sig) {
      var arcs := NamedSomehow(hash);
      Pkcs1Exact(key, digest, hash, arcs, message, sig);
      var ps :| IsPkcs1Padding(ps) && RawPublic(key, sig)
          == Some([0x00, 0x01] + ps + [0x00] + DigestInfo(arcs, digest(hash, message)));
      assert OpensToPkcs1(digest, key, hash, arcs, ps, message, sig);
    }
    if arcs, ps :| OpensToPkcs1(digest, key, hash, arcs, ps, message, sig) {
      Pkcs1Exact(key, digest, hash, arcs, message, sig);
    }
  }

  /** The dispatch on key and scheme accepts exactly the valid signatures, and never a key of the other kind. */
  lemma ValidExactly(digest: Digest, ec: EllipticCurves, key: PublicKey, scheme: SigScheme, hash: HashAlgo,
                     message: Bytes, sig: Bytes)
    ensures SchemeMatchesKey(key, scheme) && VerifySignature(digest, ec, key, scheme, hash, message, sig)
            <==> ValidUnder(digest, ec, key, scheme, hash, message, sig)
  {
    if key.RsaPk? {
      if scheme.SchemeRsa? { Pkcs1Opens(digest, key.key, hash, message, sig); }
      if scheme.SchemeRsaPss? {
        VerifyPssExact(key.key, digest, PssParams(hash, scheme.mgfHash, scheme.saltLen), message, sig);
      }
    }
  }

  // ------------------------------------------------------------------- the chain

  /** An anchor is the subject and the key of a CSCA certificate. */
  ghost predicate IsAnchor(ec: EllipticCurves, der: Bytes, anchor: TrustAnchor) {
    exists cert :: IsCertificate(ec, der, cert) && anchor == TrustAnchor(cert.fields.subject, cert.fields.publicKey)
  }

  lemma AnchorExact(ec: EllipticCurves, der: Bytes, anchor: TrustAnchor)
    ensures AnchorFromCertificate(ec, der) == Ok(anchor) <==> IsAnchor(ec, der, anchor)
  {
    if AnchorFromCertificate(ec, der) == Ok(anchor) {
      var cert := ParseCertificate(ec, der).value;
      CertificateExact(ec, der, cert);
    }
    if cert :| IsCertificate(ec, der, cert) && anchor == TrustAnchor(cert.fields.subject, cert.fields.publicKey) {
      CertificateExact(ec, der, cert);
    }
  }

  /** The certificate names the anchor's subject as its issuer, and the anchor's key signed its TBS. */
  ghost predicate IssuedBy(digest: Digest, ec: EllipticCurves, anchor: TrustAnchor, der: Bytes) {
    exists cert :: IsCertificate(ec, der, cert) && anchor.subject == cert.fields.issuer
                   && ValidUnder(digest, ec, anchor.key, cert.sigScheme, cert.signatureHash, cert.tbs, cert.signature)
  }

  lemma IssuedExactly(digest: Digest, ec: EllipticCurves, anchor: TrustAnchor, der: Bytes, dsc: Certificate)
    requires ParseCertificate(ec, der) == Ok(dsc)
    ensures Anchors(digest, ec, anchor, dsc) <==> IssuedBy(digest, ec, anchor, der)
  {
    CertificateExact(ec, der, dsc);
    ValidExactly(digest, ec, anchor.key, dsc.sigScheme, dsc.signatureHash, dsc.tbs, dsc.signature);
    forall cert | IsCertificate(ec, der, cert) ensures cert == dsc { CertificateExact(ec, der, cert); }
  }

  /**
   The chain of an accepted read is trusted exactly when one of the anchors issued the
   signer's certificate, and it names the subject of such an anchor.
   */
  lemma TrustedExactly(digest: Digest, ec: EllipticCurves, sod: Bytes, groups: seq<DataGroup>, anchors: seq<TrustAnchor>)
    requires Verify(digest, ec, sod, groups, anchors).Ok?
    ensures ParseSignedData(ec, sod).Ok?
    ensures var der := ParseSignedData(ec, sod).value.signerCert;
            var chain := Verify(digest, ec, sod, groups, anchors).value.chain;
            && (chain.Trusted? <==> exists a :: a in anchors && IssuedBy(digest, ec, a, der))
            && (chain.Trusted? ==> exists a :: a in anchors && IssuedBy(digest, ec, a, der) && a.subject == chain.cscaSubject)
  {
    var dsc := AcceptedChain(digest, ec, sod, groups, anchors);
    ChainIssued(digest, ec, anchors, ParseSignedData(ec, sod).value.signerCert, dsc);
  }

  lemma AcceptedChain(digest: Digest, ec: EllipticCurves, sod: Bytes, groups: seq<DataGroup>, anchors: seq<TrustAnchor>)
    returns (dsc: Certificate)
    requires Verify(digest, ec, sod, groups, anchors).Ok?
    ensures ParseSignedData(ec, sod).Ok?
    ensures ParseCertificate(ec, ParseSignedData(ec, sod).value.signerCert) == Ok(dsc)
    ensures Verify(digest, ec, sod, groups, anchors).value.chain == Chain(digest, ec, anchors, dsc)
  {
    dsc := ParseCertificate(ec, ParseSignedData(ec, sod).value.signerCert).value;
  }

  lemma ChainIssued(digest: Digest, ec: EllipticCurves, anchors: seq<TrustAnchor>, der: Bytes, dsc: Certificate)
    requires ParseCertificate(ec, der) == Ok(dsc)
    ensures var chain := Chain(digest, ec, anchors, dsc);
            && (chain.Trusted? <==> exists a :: a in anchors && IssuedBy(digest, ec, a, der))
            && (chain.Trusted? ==> exists a :: a in anchors && IssuedBy(digest, ec, a, der) && a.subject == chain.cscaSubject)
  {
    ChainExact(digest, ec, anchors, dsc);
    var chain := Chain(digest, ec, anchors, dsc);
    if chain.Trusted? {
      var a :| a in anchors && Anchors(digest, ec, a, dsc) && a.subject == chain.cscaSubject;
      IssuedExactly(digest, ec, a, der, dsc);
    }
    if a :| a in anchors && IssuedBy(digest, ec, a, der) {
      IssuedExactly(digest, ec, a, der, dsc);
    }
  }

  // -------------------------------------------------------------- the signer's certificate

  /** The certificate a signer identifier names: by its issuer and serial number together, or by its key identifier. */
  ghost predicate Named(ec: EllipticCurves, der: Bytes, sid: SignerId) {
    exists cert :: IsCertificate(ec, der, cert)
                   && match sid
                      case IssuerAndSerial(issuer, serial) => issuer == cert.fields.issuer && serial == cert.fields.serial
                      case Ski(ski) => Some(ski) == cert.fields.ski
  }

  ghost predicate Readable(ec: EllipticCurves, der: Bytes) {
    exists cert :: IsCertificate(ec, der, cert)
  }

  lemma NamedExactly(ec: EllipticCurves, der: Bytes, sid: SignerId)
    ensures Hits(ec, der, sid) <==> Named(ec, der, sid)
    ensures Misses(ec, der, sid) <==> Readable(ec, der) && !Named(ec, der, sid)
  {
    var c := ParseCertificate(ec, der);
    if c.Ok? { CertificateExact(ec, der, c.value); }
    forall cert | IsCertificate(ec, der, cert) ensures c == Ok(cert) { CertificateExact(ec, der, cert); }
  }

  /**
   The signer's certificate is the first in the list that the identifier names, provided
   that every one before it can be read.
   */
  lemma SelectedExactly(ec: EllipticCurves, certs: seq<Bytes>, sid: SignerId, der: Bytes)
    ensures SelectDsc(ec, certs, sid) == Ok(der)
            <==> exists i: nat :: i < |certs| && certs[i] == der && Named(ec, certs[i], sid)
                   && forall j :: 0 <= j < i ==> Readable(ec, certs[j]) && !Named(ec, certs[j], sid)
  {
    SelectsFirstHit(ec, certs, sid, der);
    forall i | 0 <= i < |certs|
      ensures Hits(ec, certs[i], sid) <==> Named(ec, certs[i], sid)
      ensures Misses(ec, certs[i], sid) <==> Readable(ec, certs[i]) && !Named(ec, certs[i], sid)
    {
      NamedExactly(ec, certs[i], sid);
    }
  }

  // ---------------------------------------------------------------- what is accepted

  /** EF.SOD, its content and the signer's certificate, each spelled by the bytes that hold it. */
  ghost predicate Spells(ec: EllipticCurves, sod: Bytes, signed: SignedData, lds: LdsSecurityObject, dsc: Certificate) {
    && (exists d :: PassiveSigned.IsSignedData(ec, sod, d, signed))
    && signed.contentType == [2, 23, 136, 1, 1, 1]
    && (exists version, alg, list, more :: IsLds(signed.encapContent, lds, version, alg, list, more))
    && IsCertificate(ec, signed.signerCert, dsc)
  }

  /** Every group has an entry and hashes to it. */
  ghost predicate Covers(digest: Digest, lds: LdsSecurityObject, groups: seq<DataGroup>) {
    groups != [] && forall g :: g in groups ==> g.number in lds.hashes && digest(lds.hashAlgo, g.bytes) == lds.hashes[g.number]
  }

  ghost predicate SignsObject(digest: Digest, ec: EllipticCurves, signed: SignedData, dsc: Certificate) {
    exists message :: Vouches(digest, signed, message)
                      && ValidUnder(digest, ec, dsc.fields.publicKey, signed.signer.sigScheme, signed.signer.signatureHash,
                                    message, signed.signer.signature)
  }

  lemma SpelledOnce(ec: EllipticCurves, sod: Bytes, signed: SignedData, lds: LdsSecurityObject, dsc: Certificate)
    ensures Spells(ec, sod, signed, lds, dsc)
            <==> && ParseSignedData(ec, sod) == Ok(signed) && signed.contentType == OID_LDS_SECURITY_OBJECT
                 && ParseLds(signed.encapContent) == Ok(lds) && ParseCertificate(ec, signed.signerCert) == Ok(dsc)
  {
    PassiveSigned.SignedDataExact(ec, sod, signed);
    LdsExact(signed.encapContent, lds);
    CertificateExact(ec, signed.signerCert, dsc);
  }

  lemma SignsExactly(digest: Digest, ec: EllipticCurves, signed: SignedData, dsc: Certificate)
    requires ParseCertificate(ec, signed.signerCert) == Ok(dsc)
    ensures SignsObject(digest, ec, signed, dsc)
            <==> exists message :: Vouches(digest, signed, message) && SignedBy(digest, ec, dsc, signed.signer, message)
  {
    forall message ensures SignedBy(digest, ec, dsc, signed.signer, message)
        <==> ValidUnder(digest, ec, dsc.fields.publicKey, signed.signer.sigScheme, signed.signer.signatureHash,
                        message, signed.signer.signature)
    {
      ValidExactly(digest, ec, dsc.fields.publicKey, signed.signer.sigScheme, signed.signer.signatureHash,
                   message, signed.signer.signature);
    }
  }

  /**
   Passive authentication, from the bytes up. A read is accepted exactly when EF.SOD
   spells a security object that covers every group and a certificate whose key made a
   valid signature vouching for that object.
   */
  lemma AuthenticExactly(digest: Digest, ec: EllipticCurves, sod: Bytes, groups: seq<DataGroup>, anchors: seq<TrustAnchor>)
    ensures Verify(digest, ec, sod, groups, anchors).Ok?
            <==> exists signed, lds, dsc ::
                   Spells(ec, sod, signed, lds, dsc) && Covers(digest, lds, groups) && SignsObject(digest, ec, signed, dsc)
  {
    if Verify(digest, ec, sod, groups, anchors).Ok? {
      var signed, lds, dsc := AcceptedSpells(digest, ec, sod, groups, anchors);
    }
    if signed, lds, dsc :|
      Spells(ec, sod, signed, lds, dsc) && Covers(digest, lds, groups) && SignsObject(digest, ec, signed, dsc)
    {
      SpelledIsAccepted(digest, ec, sod, groups, anchors, signed, lds, dsc);
    }
  }

  lemma AcceptedSpells(digest: Digest, ec: EllipticCurves, sod: Bytes, groups: seq<DataGroup>, anchors: seq<TrustAnchor>)
    returns (signed: SignedData, lds: LdsSecurityObject, dsc: Certificate)
    requires Verify(digest, ec, sod, groups, anchors).Ok?
    ensures Spells(ec, sod, signed, lds, dsc) && Covers(digest, lds, groups) && SignsObject(digest, ec, signed, dsc)
  {
    AcceptedExactly(digest, ec, sod, groups, anchors);
    signed := ParseSignedData(ec, sod).value;
    lds, dsc := ParseLds(signed.encapContent).value, ParseCertificate(ec, signed.signerCert).value;
    SpelledOnce(ec, sod, signed, lds, dsc);
    SignsExactly(digest, ec, signed, dsc);
  }

  lemma SpelledIsAccepted(digest: Digest, ec: EllipticCurves, sod: Bytes, groups: seq<DataGroup>, anchors: seq<TrustAnchor>,
                          signed: SignedData, lds: LdsSecurityObject, dsc: Certificate)
    requires Spells(ec, sod, signed, lds, dsc) && Covers(digest, lds, groups) && SignsObject(digest, ec, signed, dsc)
    ensures Verify(digest, ec, sod, groups, anchors).Ok?
  {
    AcceptedExactly(digest, ec, sod, groups, anchors);
    SpelledOnce(ec, sod, signed, lds, dsc);
    SignsExactly(digest, ec, signed, dsc);
  }
}
