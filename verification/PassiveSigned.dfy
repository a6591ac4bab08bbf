/** SignedData and its signer, from the outermost wrapper to each attribute. */
module PassiveSigned {
  import opened Wrappers
  import opened ByteStrings
  import opened Hashes
  import opened PassiveParse
  import opened PassiveFormats
  import opened PassiveFields
  import opened PassiveSearch
  import Der

  // ---------------------------------------------------------------------- attributes

  /** An attribute of the type with these arcs, whatever its values are. */
  predicate OfType(item: Item, arcs: seq<nat>) {
    && item.tag == Der.SEQUENCE
    && var oid := Der.Take(item.body, Der.OID);
    oid.Some? && Der.OidArcs(oid.value.0) == Some(arcs)
  }

  /** The last attribute of a type. */
  function LastOf(items: seq<Item>, arcs: seq<nat>): Option<Item> {
    if items == [] then None
    else if OfType(items[|items| - 1], arcs) then Some(items[|items| - 1])
    else LastOf(items[..|items| - 1], arcs)
  }

  /** An attribute whose SET holds one value, of this tag. */
  ghost predicate Carries(item: Item, arcs: seq<nat>, tag: Byte, value: Bytes) {
    exists oid :: CarriesUnder(item, oid, arcs, tag, value)
  }

  ghost predicate CarriesUnder(item: Item, oid: Bytes, arcs: seq<nat>, tag: Byte, value: Bytes) {
    && item.tag == Der.SEQUENCE && Der.OidArcs(oid) == Some(arcs)
    && Der.Fits32(oid) && Der.Fits32(value) && Der.Fits32(Der.Canonical(tag, value))
    && item.body == Attribute(oid, tag, value)
  }

  lemma SetValueExact(after: Bytes, tag: Byte, value: Bytes)
    ensures SetValue(after, tag) == Some(value)
            <==> && Der.Fits32(value) && Der.Fits32(Der.Canonical(tag, value))
                 && after == Der.Canonical(Der.SET, Der.Canonical(tag, value))
  {
    if SetValue(after, tag) == Some(value) {
      var v := Der.Expect(after, Der.SET).value;
      Der.ExpectExact(after, Der.SET, v);
      Der.ExpectExact(v, tag, value);
    }
    if Der.Fits32(value) && Der.Fits32(Der.Canonical(tag, value)) {
      Der.ExpectExact(after, Der.SET, Der.Canonical(tag, value));
      Der.ExpectExact(Der.Canonical(tag, value), tag, value);
    }
  }

  lemma CarriesExact(item: Item, arcs: seq<nat>, tag: Byte, value: Bytes)
    ensures Carries(item, arcs, tag, value)
            <==> OfType(item, arcs) && SetValue(Der.Take(item.body, Der.OID).value.1, tag) == Some(value)
  {
    if OfType(item, arcs) && SetValue(Der.Take(item.body, Der.OID).value.1, tag) == Some(value) {
      var (oid, after) := Der.Take(item.body, Der.OID).value;
      Der.TakeExact(item.body, Der.OID, oid, after);
      SetValueExact(after, tag, value);
      assert CarriesUnder(item, oid, arcs, tag, value);
    }
    if oid :| CarriesUnder(item, oid, arcs, tag, value) {
      var after := Der.Canonical(Der.SET, Der.Canonical(tag, value));
      Der.TakeExact(item.body, Der.OID, oid, after);
      SetValueExact(after, tag, value);
    }
  }

  /** The digest, when its last attribute reads; the content type, when its last attribute does. */
  ghost predicate DigestRead(items: seq<Item>, digest: Option<Bytes>) {
    var last := LastOf(items, OID_MESSAGE_DIGEST);
    match digest
    case Some(v) => last.Some? && Carries(last.value, OID_MESSAGE_DIGEST, Der.OCTET_STRING, v)
    case None => forall v :: last.Some? ==> !Carries(last.value, OID_MESSAGE_DIGEST, Der.OCTET_STRING, v)
  }

  ghost predicate TypeRead(items: seq<Item>, contentType: Option<seq<nat>>) {
    var last := LastOf(items, OID_CONTENT_TYPE);
    match contentType
    case Some(arcs) =>
      last.Some? && exists v :: Carries(last.value, OID_CONTENT_TYPE, Der.OID, v) && Der.OidArcs(v) == Some(arcs)
    case None =>
      last.Some? ==> forall v :: Carries(last.value, OID_CONTENT_TYPE, Der.OID, v) ==> Der.OidArcs(v).None?
  }

  /** What the walk keeps after these attributes. */
  ghost predicate Kept(items: seq<Item>, st: AttrState) {
    DigestRead(items, st.messageDigest) && TypeRead(items, st.contentType)
  }

  lemma KeptOne(items: seq<Item>, st: AttrState, item: Item)
    requires Kept(items, st)
    ensures Kept(items + [item], OneAttr(st, item.tag, item.body))
  {
    var more := items + [item];
    assert more[|more| - 1] == item && more[..|more| - 1] == items;
    assert LastOf(more, OID_MESSAGE_DIGEST)
        == if OfType(item, OID_MESSAGE_DIGEST) then Some(item) else LastOf(items, OID_MESSAGE_DIGEST);
    assert LastOf(more, OID_CONTENT_TYPE)
        == if OfType(item, OID_CONTENT_TYPE) then Some(item) else LastOf(items, OID_CONTENT_TYPE);
    if OfType(item, OID_MESSAGE_DIGEST) {
      DigestOf(item, st);
    } else if OfType(item, OID_CONTENT_TYPE) {
      TypeOf(item, st);
    }
  }

  lemma DigestOf(item: Item, st: AttrState)
    requires OfType(item, OID_MESSAGE_DIGEST)
    ensures var after := OneAttr(st, item.tag, item.body);
            && after.contentType == st.contentType
            && forall v :: after.messageDigest == Some(v) <==> Carries(item, OID_MESSAGE_DIGEST, Der.OCTET_STRING, v)
  {
    forall v ensures OneAttr(st, item.tag, item.body).messageDigest == Some(v)
                     <==> Carries(item, OID_MESSAGE_DIGEST, Der.OCTET_STRING, v)
    {
      CarriesExact(item, OID_MESSAGE_DIGEST, Der.OCTET_STRING, v);
    }
  }

  lemma TypeOf(item: Item, st: AttrState)
    requires OfType(item, OID_CONTENT_TYPE)
    ensures var after := OneAttr(st, item.tag, item.body);
            && after.messageDigest == st.messageDigest
            && (after.contentType.Some? ==>
                  exists v :: Carries(item, OID_CONTENT_TYPE, Der.OID, v) && Der.OidArcs(v) == after.contentType)
            && (after.contentType.None? ==> forall v :: Carries(item, OID_CONTENT_TYPE, Der.OID, v) ==> Der.OidArcs(v).None?)
  {
    var set_ := SetValue(Der.Take(item.body, Der.OID).value.1, Der.OID);
    forall v ensures set_ == Some(v) <==> Carries(item, OID_CONTENT_TYPE, Der.OID, v) {
      CarriesExact(item, OID_CONTENT_TYPE, Der.OID, v);
    }
  }

  lemma {:induction false} WalkKeeps(before: seq<Item>, items: seq<Item>, rest: Bytes, st: AttrState)
    requires Starts(rest, items, []) && Kept(before, st)
    ensures WalkAttrs(rest, st).Ok? && Kept(before + items, WalkAttrs(rest, st).value)
    decreases |items|
  {
    if items == [] {
      assert before + items == before;
      assert rest == [];
    } else {
      StartsOne(rest, items, []);
      KeptOne(before, st, items[0]);
      var next := EncodeItems(items[1..]) + [];
      WalkKeeps(before + [items[0]], items[1..], next, OneAttr(st, items[0].tag, items[0].body));
      assert before + [items[0]] + items[1..] == before + items;
    }
  }

  lemma {:induction false} WalkSplits(rest: Bytes, st: AttrState) returns (items: seq<Item>)
    requires WalkAttrs(rest, st).Ok?
    ensures Starts(rest, items, [])
    decreases |rest|
  {
    if rest == [] {
      items := [];
    } else {
      var t := Der.Next(rest).value;
      Der.NextShrinks(rest);
      var others := WalkSplits(t.rest, OneAttr(st, t.tag, t.body));
      items := [Item(t.tag, t.body)] + others;
      StartsMore(rest, t, others, []);
    }
  }

  /**
   The signed attributes: a run of elements of which the last messageDigest holds the
   digest and the last content type, if it reads, the type; what is signed is the SET of them.
   */
  ghost predicate AreAttributes(implicit: Bytes, items: seq<Item>, attrs: SignedAttrs) {
    && Starts(implicit, items, [])
    && DigestRead(items, Some(attrs.messageDigest)) && TypeRead(items, attrs.contentType)
    && attrs.der == Der.Element(Der.SET, implicit)
  }

  lemma AttributesExact(implicit: Bytes, attrs: SignedAttrs)
    ensures ParseSignedAttrs(implicit) == Ok(attrs) <==> exists items :: AreAttributes(implicit, items, attrs)
  {
    var none := AttrState(None, None);
    if ParseSignedAttrs(implicit) == Ok(attrs) {
      var items := WalkSplits(implicit, none);
      WalkKeeps([], items, implicit, none);
      assert [] + items == items;
      assert AreAttributes(implicit, items, attrs);
    }
    if items :| AreAttributes(implicit, items, attrs) {
      WalkKeeps([], items, implicit, none);
      assert [] + items == items;
      KeptOnce(items, WalkAttrs(implicit, none).value, AttrState(Some(attrs.messageDigest), attrs.contentType));
    }
  }

  /** What is kept is determined. */
  lemma KeptOnce(items: seq<Item>, st: AttrState, st': AttrState)
    requires Kept(items, st) && Kept(items, st')
    ensures st == st'
  {
    var d, c := LastOf(items, OID_MESSAGE_DIGEST), LastOf(items, OID_CONTENT_TYPE);
    if d.Some? {
      forall v, v' |
        Carries(d.value, OID_MESSAGE_DIGEST, Der.OCTET_STRING, v) && Carries(d.value, OID_MESSAGE_DIGEST, Der.OCTET_STRING, v')
        ensures v == v'
      {
        CarriesExact(d.value, OID_MESSAGE_DIGEST, Der.OCTET_STRING, v);
        CarriesExact(d.value, OID_MESSAGE_DIGEST, Der.OCTET_STRING, v');
      }
    }
    if c.Some? {
      forall v, v' | Carries(c.value, OID_CONTENT_TYPE, Der.OID, v) && Carries(c.value, OID_CONTENT_TYPE, Der.OID, v')
        ensures v == v'
      {
        CarriesExact(c.value, OID_CONTENT_TYPE, Der.OID, v);
        CarriesExact(c.value, OID_CONTENT_TYPE, Der.OID, v');
      }
    }
  }

  // ---------------------------------------------------------------------- the signer

  /** Who the signer says it is: an issuer and a serial number in a SEQUENCE, or a key identifier under [0]. */
  ghost predicate IsSid(tag: Byte, body: Bytes, sid: SignerId) {
    match sid
    case IssuerAndSerial(issuer, serial) =>
      && tag == 0x30 && Der.Fits32(issuer) && Der.Fits32(serial)
      && exists more :: body == Then(Der.SEQUENCE, issuer, Then(Der.INTEGER, serial, more))
    case Ski(ski) => tag == 0x80 && body == ski
  }

  lemma SidExact(tag: Byte, body: Bytes, sid: SignerId)
    ensures ParseSid(tag, body) == Ok(sid) <==> IsSid(tag, body, sid)
  {
    if sid.IssuerAndSerial? {
      if ParseSid(tag, body) == Ok(sid) {
        var after := Der.Take(body, Der.SEQUENCE).value.1;
        var more := Der.Take(after, Der.INTEGER).value.1;
        ThenExact(body, Der.SEQUENCE, sid.issuer, after);
        ThenExact(after, Der.INTEGER, sid.serial, more);
      }
      if IsSid(tag, body, sid) {
        var more :| body == Then(Der.SEQUENCE, sid.issuer, Then(Der.INTEGER, sid.serial, more));
        var after := Then(Der.INTEGER, sid.serial, more);
        ThenExact(body, Der.SEQUENCE, sid.issuer, after);
        ThenExact(after, Der.INTEGER, sid.serial, more);
      }
    }
  }

  datatype SignerParts = SignerParts(
    version: Bytes, sidTag: Byte, sid: Bytes, digestAlg: Bytes, attrs: Option<Bytes>, sigAlg: Bytes, signature: Bytes,
    more: Bytes)

  predicate SignerFits(p: SignerParts) {
    && Der.Fits32(p.version) && Der.Fits32(p.sid) && Der.Fits32(p.digestAlg)
    && (p.attrs.Some? ==> Der.Fits32(p.attrs.value)) && Der.Fits32(p.sigAlg) && Der.Fits32(p.signature)
  }

  function EncodeSignature(p: SignerParts): Bytes
    requires SignerFits(p)
  {
    Then(Der.SEQUENCE, p.sigAlg, Then(Der.OCTET_STRING, p.signature, p.more))
  }

  /** SignerInfo (section 5.3 of RFC 5652): its fields in order. */
  function EncodeSigner(p: SignerParts): Bytes
    requires SignerFits(p)
  {
    Then(Der.INTEGER, p.version,
      Then(p.sidTag, p.sid,
        Then(Der.SEQUENCE, p.digestAlg, OptionalField(CONTEXT_0, p.attrs) + EncodeSignature(p))))
  }

  /** What the parts say: one hash throughout, which the signature algorithm may leave open but not contradict. */
  ghost predicate SignerSays(p: SignerParts, si: SignerInfo) {
    && IsSid(p.sidTag, p.sid, si.sid)
    && IsHashAlgorithm(p.digestAlg, si.digestAlgo) && si.signatureHash == si.digestAlgo
    && (IsSignatureAlgorithm(p.sigAlg, si.sigScheme, None) || IsSignatureAlgorithm(p.sigAlg, si.sigScheme, Some(si.digestAlgo)))
    && (if p.attrs.None? then si.signedAttrs.None?
        else si.signedAttrs.Some? && exists items :: AreAttributes(p.attrs.value, items, si.signedAttrs.value))
    && si.signature == p.signature
  }

  ghost predicate IsSigner(set_: Bytes, p: SignerParts, si: SignerInfo) {
    && SignerFits(p) && Der.Fits32(EncodeSigner(p)) && set_ == Der.Canonical(Der.SEQUENCE, EncodeSigner(p))
    && SignerSays(p, si)
  }

  /** The reads of the source give back the parts up to the attributes … */
  ghost predicate HeadTaken(si: Bytes, p: SignerParts, rest: Bytes) {
    && Der.Take(si, Der.INTEGER).Some? && Der.Take(si, Der.INTEGER).value.0 == p.version
    && var r1 := Der.Take(si, Der.INTEGER).value.1;
    && Der.Next(r1).Some? && Der.Next(r1).value.tag == p.sidTag && Der.Next(r1).value.body == p.sid
    && var r2 := Der.Next(r1).value.rest;
    && Der.Take(r2, Der.SEQUENCE).Some? && Der.Take(r2, Der.SEQUENCE).value.0 == p.digestAlg
    && Field(Der.Take(r2, Der.SEQUENCE).value.1, CONTEXT_0) == (p.attrs, rest)
  }

  /** … and after them. */
  ghost predicate SignatureTaken(rest: Bytes, p: SignerParts) {
    && Der.Take(rest, Der.SEQUENCE).Some? && Der.Take(rest, Der.SEQUENCE).value.0 == p.sigAlg
    && Der.Take(Der.Take(rest, Der.SEQUENCE).value.1, Der.OCTET_STRING) == Some((p.signature, p.more))
  }

  lemma SignatureTakenExact(rest: Bytes, p: SignerParts)
    ensures SignatureTaken(rest, p)
            <==> Der.Fits32(p.sigAlg) && Der.Fits32(p.signature)
                 && rest == Then(Der.SEQUENCE, p.sigAlg, Then(Der.OCTET_STRING, p.signature, p.more))
  {
    if SignatureTaken(rest, p) {
      var r5 := Der.Take(rest, Der.SEQUENCE).value.1;
      ThenExact(rest, Der.SEQUENCE, p.sigAlg, r5);
      ThenExact(r5, Der.OCTET_STRING, p.signature, p.more);
    }
    if Der.Fits32(p.sigAlg) && Der.Fits32(p.signature) {
      var r5 := Then(Der.OCTET_STRING, p.signature, p.more);
      ThenExact(rest, Der.SEQUENCE, p.sigAlg, r5);
      ThenExact(r5, Der.OCTET_STRING, p.signature, p.more);
    }
  }

  lemma HeadSplits(si: Bytes, p: SignerParts, rest: Bytes)
    requires HeadTaken(si, p, rest)
    ensures Der.Fits32(p.version) && Der.Fits32(p.sid) && Der.Fits32(p.digestAlg)
    ensures p.attrs.Some? ==> Der.Fits32(p.attrs.value)
    ensures si == Then(Der.INTEGER, p.version,
                    Then(p.sidTag, p.sid, Then(Der.SEQUENCE, p.digestAlg, OptionalField(CONTEXT_0, p.attrs) + rest)))
  {
    var r1 := Der.Take(si, Der.INTEGER).value.1;
    var r2 := Der.Next(r1).value.rest;
    var r3 := Der.Take(r2, Der.SEQUENCE).value.1;
    ThenExact(si, Der.INTEGER, p.version, r1);
    Der.NextExact(r1, Der.Next(r1).value);
    ThenExact(r2, Der.SEQUENCE, p.digestAlg, r3);
    FieldSplits(CONTEXT_0, r3);
  }

  lemma HeadReads(p: SignerParts)
    requires SignerFits(p)
    ensures HeadTaken(EncodeSigner(p), p, EncodeSignature(p))
  {
    var rest := EncodeSignature(p);
    var r3 := OptionalField(CONTEXT_0, p.attrs) + rest;
    var r2 := Then(Der.SEQUENCE, p.digestAlg, r3);
    var r1 := Then(p.sidTag, p.sid, r2);
    assert rest[0] == Der.SEQUENCE;
    FieldReads(CONTEXT_0, p.attrs, rest);
    ThenExact(EncodeSigner(p), Der.INTEGER, p.version, r1);
    Der.NextExact(r1, Der.Tlv(p.sidTag, p.sid, r2));
    ThenExact(r2, Der.SEQUENCE, p.digestAlg, r3);
  }

  ghost predicate SignerTaken(set_: Bytes, p: SignerParts) {
    && Der.Expect(set_, Der.SEQUENCE).Some?
    && exists rest :: HeadTaken(Der.Expect(set_, Der.SEQUENCE).value, p, rest) && SignatureTaken(rest, p)
  }

  lemma SignerTakenExact(set_: Bytes, p: SignerParts)
    ensures SignerTaken(set_, p)
            <==> SignerFits(p) && Der.Fits32(EncodeSigner(p)) && set_ == Der.Canonical(Der.SEQUENCE, EncodeSigner(p))
  {
    if SignerTaken(set_, p) {
      var si := Der.Expect(set_, Der.SEQUENCE).value;
      var rest :| HeadTaken(si, p, rest) && SignatureTaken(rest, p);
      Der.ExpectExact(set_, Der.SEQUENCE, si);
      HeadSplits(si, p, rest);
      SignatureTakenExact(rest, p);
    }
    if SignerFits(p) && Der.Fits32(EncodeSigner(p)) && set_ == Der.Canonical(Der.SEQUENCE, EncodeSigner(p)) {
      Der.ExpectExact(set_, Der.SEQUENCE, EncodeSigner(p));
      HeadReads(p);
      SignatureTakenExact(EncodeSignature(p), p);
    }
  }

  /** The parser in terms of the parts it takes. */
  ghost predicate SignerParsed(p: SignerParts, si: SignerInfo) {
    && ParseSid(p.sidTag, p.sid) == Ok(si.sid)
    && AlgoHash(p.digestAlg) == Ok(si.digestAlgo) && si.signatureHash == si.digestAlgo
    && (ParseSigAlg(p.sigAlg) == Ok((si.sigScheme, None)) || ParseSigAlg(p.sigAlg) == Ok((si.sigScheme, Some(si.digestAlgo))))
    && ParseOptionalAttrs(p.attrs) == Ok(si.signedAttrs)
    && si.signature == p.signature
  }

  lemma SignerByParts(set_: Bytes, p: SignerParts, rest: Bytes, si: SignerInfo)
    requires Der.Expect(set_, Der.SEQUENCE).Some?
    requires HeadTaken(Der.Expect(set_, Der.SEQUENCE).value, p, rest) && SignatureTaken(rest, p)
    ensures ParseSignerInfo(set_) == Ok(si) <==> SignerParsed(p, si)
  {
    HeadByParts(set_, p, rest);
    if ParseSid(p.sidTag, p.sid).Ok? && AlgoHash(p.digestAlg).Ok? {
      TailByParts(ParseSid(p.sidTag, p.sid).value, AlgoHash(p.digestAlg).value, p, rest, si);
    }
  }

  lemma TailByParts(sid: SignerId, digestAlgo: HashAlgo, p: SignerParts, rest: Bytes, si: SignerInfo)
    requires SignatureTaken(rest, p)
    ensures SignerTail(sid, digestAlgo, p.attrs, rest) == Ok(si) <==>
      && (ParseSigAlg(p.sigAlg) == Ok((si.sigScheme, None)) || ParseSigAlg(p.sigAlg) == Ok((si.sigScheme, Some(digestAlgo))))
      && ParseOptionalAttrs(p.attrs) == Ok(si.signedAttrs)
      && si == SignerInfo(sid, digestAlgo, digestAlgo, si.sigScheme, si.signedAttrs, p.signature)
  {
  }

  lemma HeadByParts(set_: Bytes, p: SignerParts, rest: Bytes)
    requires Der.Expect(set_, Der.SEQUENCE).Some? && HeadTaken(Der.Expect(set_, Der.SEQUENCE).value, p, rest)
    ensures SignerHead(set_).Ok? <==> ParseSid(p.sidTag, p.sid).Ok? && AlgoHash(p.digestAlg).Ok?
    ensures SignerHead(set_).Ok? ==>
              SignerHead(set_).value == (ParseSid(p.sidTag, p.sid).value, AlgoHash(p.digestAlg).value, p.attrs, rest)
  {
  }

  lemma SaysWhatItParses(p: SignerParts, si: SignerInfo)
    ensures SignerParsed(p, si) <==> SignerSays(p, si)
  {
    SidExact(p.sidTag, p.sid, si.sid);
    AlgoHashExact(p.digestAlg, si.digestAlgo);
    SigAlgExact(p.sigAlg, si.sigScheme, None);
    SigAlgExact(p.sigAlg, si.sigScheme, Some(si.digestAlgo));
    if p.attrs.Some? && si.signedAttrs.Some? { AttributesExact(p.attrs.value, si.signedAttrs.value); }
  }

  lemma SignerSplits(set_: Bytes) returns (p: SignerParts, rest: Bytes)
    requires ParseSignerInfo(set_).Ok?
    ensures Der.Expect(set_, Der.SEQUENCE).Some?
    ensures HeadTaken(Der.Expect(set_, Der.SEQUENCE).value, p, rest) && SignatureTaken(rest, p)
  {
    var si := Der.Expect(set_, Der.SEQUENCE).value;
    var (version, r1) := Der.Take(si, Der.INTEGER).value;
    var sid := Der.Next(r1).value;
    var (digestAlg, r3) := Der.Take(sid.rest, Der.SEQUENCE).value;
    var (attrs, r4) := Field(r3, CONTEXT_0);
    var (sigAlg, r5) := Der.Take(r4, Der.SEQUENCE).value;
    var (signature, more) := Der.Take(r5, Der.OCTET_STRING).value;
    p, rest := SignerParts(version, sid.tag, sid.body, digestAlg, attrs, sigAlg, signature, more), r4;
  }

  /**
   A signer is read exactly from a SignerInfo whose fields stand in order: who signed, the
   digest algorithm, the attributes if any, a signature algorithm that agrees with the
   digest algorithm, and the signature.
   */
  lemma SignerInfoExact(set_: Bytes, si: SignerInfo)
    ensures ParseSignerInfo(set_) == Ok(si) <==> exists p :: IsSigner(set_, p, si)
  {
    if ParseSignerInfo(set_) == Ok(si) {
      var p, rest := SignerSplits(set_);
      assert SignerTaken(set_, p);
      SignerTakenExact(set_, p);
      SignerByParts(set_, p, rest, si);
      SaysWhatItParses(p, si);
      assert IsSigner(set_, p, si);
    }
    if p :| IsSigner(set_, p, si) {
      SignerTakenExact(set_, p);
      var rest :| HeadTaken(Der.Expect(set_, Der.SEQUENCE).value, p, rest) && SignatureTaken(rest, p);
      SignerByParts(set_, p, rest, si);
      SaysWhatItParses(p, si);
    }
  }

  // ----------------------------------------------------------------- the signed object

  /** EncapsulatedContentInfo (section 5.2 of RFC 5652). */
  ghost predicate IsEncap(encap: Bytes, oid: Bytes, contentType: seq<nat>, content: Bytes) {
    && Der.Fits32(oid) && Der.OidArcs(oid) == Some(contentType)
    && Der.Fits32(content) && Der.Fits32(Der.Canonical(Der.OCTET_STRING, content))
    && encap == Then(Der.OID, oid, Der.Canonical(CONTEXT_0, Der.Canonical(Der.OCTET_STRING, content)))
  }

  lemma EncapExact(encap: Bytes, contentType: seq<nat>, content: Bytes)
    ensures ParseEncapContent(encap) == Ok((contentType, content)) <==> exists oid :: IsEncap(encap, oid, contentType, content)
  {
    if ParseEncapContent(encap) == Ok((contentType, content)) {
      var (oid, after) := Der.Take(encap, Der.OID).value;
      var explicit := Der.Expect(after, CONTEXT_0).value;
      ThenExact(encap, Der.OID, oid, after);
      Der.ExpectExact(after, CONTEXT_0, explicit);
      Der.ExpectExact(explicit, Der.OCTET_STRING, content);
      assert IsEncap(encap, oid, contentType, content);
    }
    if oid :| IsEncap(encap, oid, contentType, content) {
      var explicit := Der.Canonical(Der.OCTET_STRING, content);
      ThenExact(encap, Der.OID, oid, Der.Canonical(CONTEXT_0, explicit));
      Der.ExpectExact(Der.Canonical(CONTEXT_0, explicit), CONTEXT_0, explicit);
      Der.ExpectExact(explicit, Der.OCTET_STRING, content);
    }
  }

  /** ContentInfo around SignedData (sections 3 and 5.1 of RFC 5652), as it stands or in EF.SOD's wrapper. */
  ghost predicate IsSodBody(sod: Bytes, oid: Bytes, sd: Bytes) {
    && Der.Fits32(oid) && Der.OidArcs(oid) == Some([1, 2, 840, 113549, 1, 7, 2])
    && Der.Fits32(sd) && Der.Fits32(Der.Canonical(Der.SEQUENCE, sd))
    && var ci := Then(Der.OID, oid, Der.Canonical(CONTEXT_0, Der.Canonical(Der.SEQUENCE, sd)));
    && Der.Fits32(ci)
    && var cms := Der.Canonical(Der.SEQUENCE, ci);
    sod == cms || (Der.Fits32(cms) && sod == Der.Canonical(0x77, cms))
  }

  lemma UnwrapExact(sod: Bytes, body: Bytes)
    requires Der.Fits32(body)
    ensures var cms := Der.Canonical(Der.SEQUENCE, body);
            UnwrapSod(sod) == Ok(cms) <==> sod == cms || (Der.Fits32(cms) && sod == Der.Canonical(0x77, cms))
  {
    var cms := Der.Canonical(Der.SEQUENCE, body);
    Der.ExpectExact(cms, Der.SEQUENCE, body);
    Der.ExpectExact(sod, 0x77, cms);
    assert cms[0] == Der.SEQUENCE;
  }

  lemma SodBodyExact(sod: Bytes, sd: Bytes)
    ensures SignedDataBody(sod) == Ok(sd) <==> exists oid :: IsSodBody(sod, oid, sd)
  {
    if SignedDataBody(sod) == Ok(sd) {
      var cms := UnwrapSod(sod).value;
      var ci := Der.Expect(cms, Der.SEQUENCE).value;
      var (oid, afterOid) := Der.Take(ci, Der.OID).value;
      var explicit := Der.Expect(afterOid, CONTEXT_0).value;
      Der.ExpectExact(cms, Der.SEQUENCE, ci);
      ThenExact(ci, Der.OID, oid, afterOid);
      Der.ExpectExact(afterOid, CONTEXT_0, explicit);
      Der.ExpectExact(explicit, Der.SEQUENCE, sd);
      UnwrapExact(sod, ci);
      assert IsSodBody(sod, oid, sd);
    }
    if oid :| IsSodBody(sod, oid, sd) {
      var explicit := Der.Canonical(Der.SEQUENCE, sd);
      var ci := Then(Der.OID, oid, Der.Canonical(CONTEXT_0, explicit));
      UnwrapExact(sod, ci);
      Der.ExpectExact(Der.Canonical(Der.SEQUENCE, ci), Der.SEQUENCE, ci);
      ThenExact(ci, Der.OID, oid, Der.Canonical(CONTEXT_0, explicit));
      Der.ExpectExact(Der.Canonical(CONTEXT_0, explicit), CONTEXT_0, explicit);
      Der.ExpectExact(explicit, Der.SEQUENCE, sd);
    }
  }

  datatype DataParts = DataParts(version: Bytes, digestAlgs: Bytes, encap: Bytes, tail: Bytes)

  predicate DataFits(d: DataParts) {
    Der.Fits32(d.version) && Der.Fits32(d.digestAlgs) && Der.Fits32(d.encap)
  }

  /** SignedData (section 5.1 of RFC 5652) up to the content; certificates, CRLs and signers follow. */
  function EncodeData(d: DataParts): Bytes
    requires DataFits(d)
  {
    Then(Der.INTEGER, d.version, Then(Der.SET, d.digestAlgs, Then(Der.SEQUENCE, d.encap, d.tail)))
  }

  ghost predicate IsSignedData(ec: EllipticCurves, sod: Bytes, d: DataParts, signed: SignedData) {
    && DataFits(d)
    && (exists oid :: IsSodBody(sod, oid, EncodeData(d)))
    && (exists oid :: IsEncap(d.encap, oid, signed.contentType, signed.encapContent))
    && exists items, rest, signers :: SignedBy(ec, d.tail, [], signed.signer, signed.signerCert, items, rest, signers)
  }

  ghost predicate DataTaken(sd: Bytes, d: DataParts) {
    && Der.Take(sd, Der.INTEGER).Some? && Der.Take(sd, Der.INTEGER).value.0 == d.version
    && var r1 := Der.Take(sd, Der.INTEGER).value.1;
    && Der.Take(r1, Der.SET).Some? && Der.Take(r1, Der.SET).value.0 == d.digestAlgs
    && Der.Take(Der.Take(r1, Der.SET).value.1, Der.SEQUENCE) == Some((d.encap, d.tail))
  }

  lemma DataExact(sd: Bytes, d: DataParts)
    ensures DataTaken(sd, d) <==> DataFits(d) && sd == EncodeData(d)
  {
    if DataTaken(sd, d) {
      var r1 := Der.Take(sd, Der.INTEGER).value.1;
      var r2 := Der.Take(r1, Der.SET).value.1;
      ThenExact(sd, Der.INTEGER, d.version, r1);
      ThenExact(r1, Der.SET, d.digestAlgs, r2);
      ThenExact(r2, Der.SEQUENCE, d.encap, d.tail);
    }
    if DataFits(d) && sd == EncodeData(d) {
      var r2 := Then(Der.SEQUENCE, d.encap, d.tail);
      var r1 := Then(Der.SET, d.digestAlgs, r2);
      ThenExact(sd, Der.INTEGER, d.version, r1);
      ThenExact(r1, Der.SET, d.digestAlgs, r2);
      ThenExact(r2, Der.SEQUENCE, d.encap, d.tail);
    }
  }

  /** The parser in terms of the parts it takes. */
  lemma DataByParts(ec: EllipticCurves, sod: Bytes, sd: Bytes, d: DataParts, signed: SignedData)
    requires SignedDataBody(sod) == Ok(sd) && DataTaken(sd, d)
    ensures ParseSignedData(ec, sod) == Ok(signed)
            <==> && ParseEncapContent(d.encap) == Ok((signed.contentType, signed.encapContent))
                 && ScanSigned(ec, d.tail, []) == Ok((signed.signer, signed.signerCert))
  {
    ContentByParts(ec, d, signed);
    FieldsByParts(ec, sod, sd, d);
  }

  lemma FieldsByParts(ec: EllipticCurves, sod: Bytes, sd: Bytes, d: DataParts)
    requires SignedDataBody(sod) == Ok(sd) && DataTaken(sd, d)
    ensures ParseSignedData(ec, sod) == ContentAndSigner(ec, d.encap, d.tail)
  {
  }

  lemma ContentByParts(ec: EllipticCurves, d: DataParts, signed: SignedData)
    ensures ContentAndSigner(ec, d.encap, d.tail) == Ok(signed)
            <==> && ParseEncapContent(d.encap) == Ok((signed.contentType, signed.encapContent))
                 && ScanSigned(ec, d.tail, []) == Ok((signed.signer, signed.signerCert))
  {
    var content, found := ParseEncapContent(d.encap), ScanSigned(ec, d.tail, []);
    if content.Ok? && found.Ok? {
      assert ContentAndSigner(ec, d.encap, d.tail)
          == Ok(SignedData(found.value.0, content.value.0, content.value.1, found.value.1));
    }
  }

  lemma DataSplits(ec: EllipticCurves, sod: Bytes) returns (sd: Bytes, d: DataParts)
    requires ParseSignedData(ec, sod).Ok?
    ensures SignedDataBody(sod) == Ok(sd) && DataTaken(sd, d)
  {
    sd := SignedDataBody(sod).value;
    var (version, r1) := Der.Take(sd, Der.INTEGER).value;
    var (digestAlgs, r2) := Der.Take(r1, Der.SET).value;
    var (encap, tail) := Der.Take(r2, Der.SEQUENCE).value;
    d := DataParts(version, digestAlgs, encap, tail);
  }

  /**
   EF.SOD is read exactly from the bytes that spell it: the wrappers, the version, the
   digest algorithms, the content under its type, and a tail that yields the signer and
   its certificate.
   */
  lemma SignedDataExact(ec: EllipticCurves, sod: Bytes, signed: SignedData)
    ensures ParseSignedData(ec, sod) == Ok(signed) <==> exists d :: IsSignedData(ec, sod, d, signed)
  {
    if ParseSignedData(ec, sod) == Ok(signed) {
      var sd, d := DataSplits(ec, sod);
      DataExact(sd, d);
      DataParses(ec, sod, sd, d, signed);
      assert IsSignedData(ec, sod, d, signed);
    }
    if d :| IsSignedData(ec, sod, d, signed) {
      SodBodyExact(sod, EncodeData(d));
      DataExact(EncodeData(d), d);
      DataParses(ec, sod, EncodeData(d), d, signed);
    }
  }

  lemma DataParses(ec: EllipticCurves, sod: Bytes, sd: Bytes, d: DataParts, signed: SignedData)
    requires SignedDataBody(sod) == Ok(sd) && DataTaken(sd, d) && DataFits(d) && sd == EncodeData(d)
    ensures ParseSignedData(ec, sod) == Ok(signed) <==> IsSignedData(ec, sod, d, signed)
  {
    DataByParts(ec, sod, sd, d, signed);
    SodBodyExact(sod, sd);
    EncapExact(d.encap, signed.contentType, signed.encapContent);
    ScanSignedExact(ec, d.tail, signed.signer, signed.signerCert);
  }
}
