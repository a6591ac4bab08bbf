/** What the parsers of passive authentication accept, in terms of the bytes that spell it. */
module PassiveFormats {
  import opened Wrappers
  import opened ByteStrings
  import opened Hashes
  import opened PassiveParse
  import Der
  import Modular

  // ---------------------------------------------------------- what a certificate signs

  /** The algorithm and signature of a certificate in their DER wrappers. */
  function Signed(alg: Bytes, signature: Bytes): Bytes
    requires Der.Fits32(alg) && Der.Fits32([0x00] + signature)
  {
    Der.Canonical(Der.SEQUENCE, alg) + Der.Canonical(Der.BIT_STRING, [0x00] + signature)
  }

  /** The bytes of a certificate's TBS, algorithm and signature in their DER wrappers. */
  ghost predicate IsFrame(der: Bytes, frame: Frame) {
    && Der.Fits32(frame.tbsInner) && Der.Fits32(frame.alg) && Der.Fits32([0x00] + frame.signature)
    && frame.tbs == Der.Canonical(Der.SEQUENCE, frame.tbsInner)
    && Der.Fits32(frame.tbs + Signed(frame.alg, frame.signature))
    && der == Der.Canonical(Der.SEQUENCE, frame.tbs + Signed(frame.alg, frame.signature))
  }

  lemma SignatureExact(afterTbs: Bytes, alg: Bytes, signature: Bytes)
    ensures OpenSignature(afterTbs) == Some((alg, signature))
            <==> Der.Fits32(alg) && Der.Fits32([0x00] + signature) && afterTbs == Signed(alg, signature)
  {
    var bits := [0x00] + signature;
    if OpenSignature(afterTbs) == Some((alg, signature)) {
      var afterAlg := Der.Take(afterTbs, Der.SEQUENCE).value.1;
      Der.TakeExact(afterTbs, Der.SEQUENCE, alg, afterAlg);
      Der.TakeExact(afterAlg, Der.BIT_STRING, Der.Take(afterAlg, Der.BIT_STRING).value.0, []);
      assert Der.Take(afterAlg, Der.BIT_STRING).value.0 == bits;
      assert afterAlg == Der.Canonical(Der.BIT_STRING, bits);
    }
    if Der.Fits32(alg) && Der.Fits32(bits) && afterTbs == Signed(alg, signature) {
      var afterAlg := Der.Canonical(Der.BIT_STRING, bits);
      assert afterAlg == afterAlg + [];
      Der.TakeExact(afterTbs, Der.SEQUENCE, alg, afterAlg);
      Der.TakeExact(afterAlg, Der.BIT_STRING, bits, []);
    }
  }

  /**
   A certificate opens exactly when it is its TBS slice, an algorithm and a signature in
   their DER wrappers, with nothing left over: the slice is the TBS exactly as carried.
   */
  lemma FrameExact(der: Bytes, frame: Frame)
    ensures OpenCertificate(der) == Some(frame) <==> IsFrame(der, frame)
  {
    if OpenCertificate(der) == Some(frame) { FramePieces(der, frame); }
    if IsFrame(der, frame) { FrameOpens(der, frame); }
  }

  lemma FramePieces(der: Bytes, frame: Frame)
    requires OpenCertificate(der) == Some(frame)
    ensures IsFrame(der, frame)
  {
    var body := Der.Expect(der, Der.SEQUENCE).value;
    var (inner, afterTbs) := Der.Take(body, Der.SEQUENCE).value;
    BodyPieces(der, body, inner, afterTbs);
    SignatureExact(afterTbs, frame.alg, frame.signature);
  }

  lemma BodyPieces(der: Bytes, body: Bytes, inner: Bytes, afterTbs: Bytes)
    requires Der.Expect(der, Der.SEQUENCE) == Some(body)
    requires Der.Take(body, Der.SEQUENCE) == Some((inner, afterTbs))
    ensures Der.Fits32(body) && Der.Fits32(inner) && der == Der.Canonical(Der.SEQUENCE, body)
    ensures |afterTbs| <= |body| && body[..|body| - |afterTbs|] == Der.Canonical(Der.SEQUENCE, inner)
    ensures body == body[..|body| - |afterTbs|] + afterTbs
  {
    Der.ExpectExact(der, Der.SEQUENCE, body);
    Der.TakeExact(body, Der.SEQUENCE, inner, afterTbs);
  }

  lemma FrameOpens(der: Bytes, frame: Frame)
    requires IsFrame(der, frame)
    ensures OpenCertificate(der) == Some(frame)
  {
    var afterTbs := Signed(frame.alg, frame.signature);
    var body := frame.tbs + afterTbs;
    Der.ExpectExact(der, Der.SEQUENCE, body);
    Der.TakeExact(body, Der.SEQUENCE, frame.tbsInner, afterTbs);
    SignatureExact(afterTbs, frame.alg, frame.signature);
    assert body[..|body| - |afterTbs|] == frame.tbs;
  }

  /** The TBS slice fixes everything read from a certificate but the signature itself. */
  lemma TbsFixesCertificate(ec: EllipticCurves, der: Bytes, der': Bytes)
    requires ParseCertificate(ec, der).Ok? && ParseCertificate(ec, der').Ok?
    requires ParseCertificate(ec, der).value.tbs == ParseCertificate(ec, der').value.tbs
    ensures var (c, d) := (ParseCertificate(ec, der).value, ParseCertificate(ec, der').value);
            && c.fields == d.fields && c.sigScheme == d.sigScheme && c.signatureHash == d.signatureHash
            && (c.signature == d.signature ==> der == der')
  {
    var c, d := ParseCertificate(ec, der).value, ParseCertificate(ec, der').value;
    var f := FrameOf(ec, der, c);
    var g := FrameOf(ec, der', d);
    SameSlice(f, g, der, der');
    SameContents(ec, f, g, c, d);
  }

  /** What a certificate says is read from its frame. */
  ghost predicate ReadFromFrame(ec: EllipticCurves, cert: Certificate, frame: Frame) {
    && cert.tbs == frame.tbs && cert.signature == frame.signature && cert.fields.innerSigAlg == frame.alg
    && ParseTbs(ec, frame.tbsInner) == Ok(cert.fields)
    && PinnedSigAlg(frame.alg) == Ok((cert.sigScheme, cert.signatureHash))
  }

  lemma FrameOf(ec: EllipticCurves, der: Bytes, cert: Certificate) returns (frame: Frame)
    requires ParseCertificate(ec, der) == Ok(cert)
    ensures IsFrame(der, frame) && ReadFromFrame(ec, cert, frame)
  {
    frame := OpenCertificate(der).value;
    FrameExact(der, frame);
  }

  lemma SameContents(ec: EllipticCurves, f: Frame, g: Frame, c: Certificate, d: Certificate)
    requires ReadFromFrame(ec, c, f) && ReadFromFrame(ec, d, g) && f.tbsInner == g.tbsInner
    ensures c.fields == d.fields && c.sigScheme == d.sigScheme && c.signatureHash == d.signatureHash
    ensures f.alg == g.alg
  {
  }

  lemma SameSlice(f: Frame, g: Frame, der: Bytes, der': Bytes)
    requires IsFrame(der, f) && IsFrame(der', g) && f.tbs == g.tbs
    ensures f.tbsInner == g.tbsInner
    ensures f.alg == g.alg && f.signature == g.signature ==> der == der'
  {
    Der.ExpectExact(f.tbs, Der.SEQUENCE, f.tbsInner);
    Der.ExpectExact(g.tbs, Der.SEQUENCE, g.tbsInner);
  }

  function Flatten(certs: seq<Bytes>): Bytes {
    if certs == [] then [] else certs[0] + Flatten(certs[1..])
  }

  /** Every element is a SEQUENCE of under 2²⁴ bytes. */
  predicate PlainSequences(contents: Bytes)
    decreases |contents|
  {
    contents == [] || (
      var t := Der.Next(contents);
      && t.Some? && t.value.tag == Der.SEQUENCE && |t.value.body| < 0x100_0000
      && PlainSequences(t.value.rest))
  }

  lemma {:induction false} CollectedLength(contents: Bytes)
    requires CollectCertificates(contents).Ok?
    ensures |Flatten(CollectCertificates(contents).value)| <= |contents|
    decreases |contents|
  {
    if contents != [] {
      var t := Der.Next(contents).value;
      Der.NextShrinks(contents);
      CollectedLength(t.rest);
      ElementLength(contents);
      var certs := CollectCertificates(contents).value;
      assert certs[1..] == CollectCertificates(t.rest).value;
    }
  }

  lemma ElementLength(input: Bytes)
    requires Der.Next(input).Some?
    ensures var t := Der.Next(input).value;
            |Der.Element(Der.SEQUENCE, t.body)| + |t.rest| <= |input|
  {
    var t := Der.Next(input).value;
    Der.NextExact(input, t);
    if |t.body| < 0x100_0000 { Der.PushLenExact(|t.body|); } else { Der.LongLength(|t.body|); }
  }

  /** The certificates are collected byte for byte exactly when each is a SEQUENCE of under 2²⁴ bytes. */
  lemma {:induction false} CertificatesVerbatim(contents: Bytes)
    requires CollectCertificates(contents).Ok?
    ensures Flatten(CollectCertificates(contents).value) == contents <==> PlainSequences(contents)
    decreases |contents|
  {
    if contents != [] {
      var t := Der.Next(contents).value;
      var certs := CollectCertificates(contents).value;
      var e := Der.Element(Der.SEQUENCE, t.body);
      var others := Flatten(certs[1..]);
      assert certs == [e] + CollectCertificates(t.rest).value;
      assert certs[1..] == CollectCertificates(t.rest).value;
      Der.NextShrinks(contents);
      CertificatesVerbatim(t.rest);
      CollectedLength(t.rest);
      ElementLength(contents);
      Der.ReEncodes(contents);
      var k := |contents| - |t.rest|;
      assert contents[k..] == t.rest;
      SplitsAlike(contents, k, e, others);
      assert e[0] == Der.SEQUENCE;
    }
  }

  lemma SplitsAlike(contents: Bytes, k: nat, e: Bytes, others: Bytes)
    requires k <= |contents| && |e| <= k && |others| <= |contents| - k
    ensures e + others == contents <==> others == contents[k..] && e + contents[k..] == contents
  {
    if e + others == contents {
      assert |e| == k && others == contents[k..];
    }
  }

  // --------------------------------------------------------- the hashes of the object

  /** A DataGroupHash: the number and the hash of one group. */
  type Entry = (Byte, Bytes)

  function EncodeEntry(entry: Entry): Bytes
    requires Der.Fits32(entry.1)
  {
    Der.Canonical(Der.INTEGER, [entry.0]) + Der.Canonical(Der.OCTET_STRING, entry.1)
  }

  predicate ValidEntry(entry: Entry) {
    0 < entry.0 < 0x80 && Der.Fits32(entry.1) && Der.Fits32(EncodeEntry(entry))
  }

  lemma EntryExact(dgh: Bytes, entry: Entry)
    ensures ParseGroupHash(dgh) == Ok(entry)
            <==> 0 < entry.0 < 0x80 && Der.Fits32(entry.1) && dgh == EncodeEntry(entry)
  {
    if ParseGroupHash(dgh) == Ok(entry) {
      var (num, after) := Der.Take(dgh, Der.INTEGER).value;
      Der.TakeExact(dgh, Der.INTEGER, num, after);
      Der.TakeExact(after, Der.OCTET_STRING, entry.1, []);
      assert num == [entry.0];
      assert after == Der.Canonical(Der.OCTET_STRING, entry.1);
    }
    if 0 < entry.0 < 0x80 && Der.Fits32(entry.1) && dgh == EncodeEntry(entry) {
      var hash := Der.Canonical(Der.OCTET_STRING, entry.1);
      assert hash == hash + [];
      Der.TakeExact(dgh, Der.INTEGER, [entry.0], hash);
      Der.TakeExact(hash, Der.OCTET_STRING, entry.1, []);
    }
  }

  predicate AllValid(entries: seq<Entry>) {
    forall i :: 0 <= i < |entries| ==> ValidEntry(entries[i])
  }

  predicate DistinctNumbers(entries: seq<Entry>) {
    forall i, j :: 0 <= i < j < |entries| ==> entries[i].0 != entries[j].0
  }

  predicate NoneIn(entries: seq<Entry>, hashes: map<Byte, Bytes>) {
    forall i :: 0 <= i < |entries| ==> entries[i].0 !in hashes
  }

  function EncodeEntries(entries: seq<Entry>): Bytes
    requires AllValid(entries)
  {
    if entries == [] then []
    else Der.Canonical(Der.SEQUENCE, EncodeEntry(entries[0])) + EncodeEntries(entries[1..])
  }

  /** Exactly these hashes, each under its number, besides the ones there were. */
  ghost predicate Adds(entries: seq<Entry>, before: map<Byte, Bytes>, after: map<Byte, Bytes>) {
    && (forall i :: 0 <= i < |entries| ==> entries[i].0 in after && after[entries[i].0] == entries[i].1)
    && (forall n :: n in before ==> n in after && after[n] == before[n])
    && (forall n :: n in after ==> n in before || exists i :: 0 <= i < |entries| && entries[i].0 == n)
  }

  ghost predicate Lists(entries: seq<Entry>, list: Bytes, before: map<Byte, Bytes>) {
    AllValid(entries) && DistinctNumbers(entries) && NoneIn(entries, before) && list == EncodeEntries(entries)
  }

  lemma {:induction false} HashesParse(entries: seq<Entry>, list: Bytes, hashes: map<Byte, Bytes>)
    requires Lists(entries, list, hashes)
    ensures ParseHashes(list, hashes).Ok? && Adds(entries, hashes, ParseHashes(list, hashes).value)
    decreases |entries|
  {
    if entries != [] {
      var e, others := entries[0], entries[1..];
      var more := hashes[e.0 := e.1];
      OthersList(entries, list, hashes);
      HashesParse(others, EncodeEntries(others), more);
      OneMoreEntry(e, EncodeEntries(others), list, hashes);
      AddsOne(e, others, hashes, ParseHashes(list, hashes).value);
      assert [e] + others == entries;
    }
  }

  lemma OthersList(entries: seq<Entry>, list: Bytes, hashes: map<Byte, Bytes>)
    requires Lists(entries, list, hashes) && entries != []
    ensures var (e, others) := (entries[0], entries[1..]);
            && ValidEntry(e) && e.0 !in hashes && AllValid(others)
            && Lists(others, EncodeEntries(others), hashes[e.0 := e.1])
            && list == Der.Canonical(Der.SEQUENCE, EncodeEntry(e)) + EncodeEntries(others)
  {
    var others := entries[1..];
    assert forall i :: 0 <= i < |others| ==> others[i] == entries[i + 1];
  }

  /** One element of the list, and what parsing it comes to. */
  lemma OneMoreEntry(e: Entry, rest: Bytes, list: Bytes, hashes: map<Byte, Bytes>)
    requires ValidEntry(e) && e.0 !in hashes && list == Der.Canonical(Der.SEQUENCE, EncodeEntry(e)) + rest
    ensures ParseHashes(list, hashes) == ParseHashes(rest, hashes[e.0 := e.1])
  {
    Der.TakeExact(list, Der.SEQUENCE, EncodeEntry(e), rest);
    EntryExact(EncodeEntry(e), e);
  }

  lemma AddsOne(e: Entry, others: seq<Entry>, before: map<Byte, Bytes>, after: map<Byte, Bytes>)
    requires e.0 !in before && Adds(others, before[e.0 := e.1], after)
    ensures Adds([e] + others, before, after)
  {
    var entries := [e] + others;
    forall i | 0 <= i < |entries| ensures entries[i].0 in after && after[entries[i].0] == entries[i].1 {
      assert i > 0 ==> entries[i] == others[i - 1];
      assert e.0 in before[e.0 := e.1];
    }
    forall n | n in after ensures n in before || exists i :: 0 <= i < |entries| && entries[i].0 == n {
      if n == e.0 {
        assert entries[0].0 == n;
      } else if n !in before {
        var i :| 0 <= i < |others| && others[i].0 == n;
        assert entries[i + 1].0 == n;
      }
    }
  }

  lemma {:induction false} HashesPieces(list: Bytes, hashes: map<Byte, Bytes>) returns (entries: seq<Entry>)
    requires ParseHashes(list, hashes).Ok?
    ensures Lists(entries, list, hashes)
    decreases |list|
  {
    if list == [] {
      entries := [];
    } else {
      var (dgh, tail) := Der.Take(list, Der.SEQUENCE).value;
      Der.NextShrinks(list);
      var e := ParseGroupHash(dgh).value;
      Der.TakeExact(list, Der.SEQUENCE, dgh, tail);
      EntryExact(dgh, e);
      var others := HashesPieces(tail, hashes[e.0 := e.1]);
      entries := [e] + others;
      ListsOne(e, others, tail, hashes);
    }
  }

  lemma ListsOne(e: Entry, others: seq<Entry>, tail: Bytes, hashes: map<Byte, Bytes>)
    requires ValidEntry(e) && e.0 !in hashes && Lists(others, tail, hashes[e.0 := e.1])
    ensures Lists([e] + others, Der.Canonical(Der.SEQUENCE, EncodeEntry(e)) + tail, hashes)
  {
    var entries := [e] + others;
    assert forall i :: 1 <= i < |entries| ==> entries[i] == others[i - 1];
    assert entries[1..] == others;
    assert AllValid(entries);
    assert forall i :: 0 <= i < |others| ==> others[i].0 != e.0;
  }

  /**
   A list of hashes parses to a map exactly when it encodes entries with distinct numbers
   from 1 to 127 and the map holds exactly those, each under its number.
   */
  lemma HashesExact(list: Bytes, m: map<Byte, Bytes>)
    ensures ParseHashes(list, map[]) == Ok(m) <==> exists entries :: Lists(entries, list, map[]) && Adds(entries, map[], m)
  {
    if ParseHashes(list, map[]) == Ok(m) {
      var entries := HashesPieces(list, map[]);
      HashesParse(entries, list, map[]);
    }
    forall entries | Lists(entries, list, map[]) && Adds(entries, map[], m) ensures ParseHashes(list, map[]) == Ok(m) {
      HashesParse(entries, list, map[]);
      AddsSame(entries, ParseHashes(list, map[]).value, m);
    }
  }

  lemma AddsSame(entries: seq<Entry>, m: map<Byte, Bytes>, m': map<Byte, Bytes>)
    requires Adds(entries, map[], m) && Adds(entries, map[], m')
    ensures m == m'
  {
    forall n ensures (n in m <==> n in m') && (n in m ==> m[n] == m'[n]) {
      if n in m { var i :| 0 <= i < |entries| && entries[i].0 == n; }
      if n in m' { var i :| 0 <= i < |entries| && entries[i].0 == n; }
    }
  }

  /**
   An LDS security object is a SEQUENCE of a version, a hash algorithm and such a list of
   at least one hash, and of whatever follows them.
   */
  lemma LdsExact(bytes: Bytes, lds: LdsSecurityObject)
    ensures ParseLds(bytes) == Ok(lds) <==> exists version, alg, list, more :: IsLds(bytes, lds, version, alg, list, more)
  {
    if ParseLds(bytes) == Ok(lds) {
      var s := Der.Expect(bytes, Der.SEQUENCE).value;
      var (version, r1) := Der.Take(s, Der.INTEGER).value;
      var (alg, r2) := Der.Take(r1, Der.SEQUENCE).value;
      var (list, more) := Der.Take(r2, Der.SEQUENCE).value;
      Der.ExpectExact(bytes, Der.SEQUENCE, s);
      Der.TakeExact(s, Der.INTEGER, version, r1);
      Der.TakeExact(r1, Der.SEQUENCE, alg, r2);
      Der.TakeExact(r2, Der.SEQUENCE, list, more);
      assert IsLds(bytes, lds, version, alg, list, more);
    }
    forall version, alg, list, more | IsLds(bytes, lds, version, alg, list, more) ensures ParseLds(bytes) == Ok(lds) {
      var r2 := Der.Canonical(Der.SEQUENCE, list) + more;
      var r1 := Der.Canonical(Der.SEQUENCE, alg) + r2;
      Der.ExpectExact(bytes, Der.SEQUENCE, Der.Canonical(Der.INTEGER, version) + r1);
      Der.TakeExact(Der.Canonical(Der.INTEGER, version) + r1, Der.INTEGER, version, r1);
      Der.TakeExact(r1, Der.SEQUENCE, alg, r2);
      Der.TakeExact(r2, Der.SEQUENCE, list, more);
    }
  }

  ghost predicate IsLds(bytes: Bytes, lds: LdsSecurityObject, version: Bytes, alg: Bytes, list: Bytes, more: Bytes) {
    && Der.Fits32(version) && Der.Fits32(alg) && Der.Fits32(list)
    && (var body := Der.Canonical(Der.INTEGER, version)
                    + (Der.Canonical(Der.SEQUENCE, alg) + (Der.Canonical(Der.SEQUENCE, list) + more));
        Der.Fits32(body) && bytes == Der.Canonical(Der.SEQUENCE, body))
    && AlgoHash(alg) == Ok(lds.hashAlgo) && ParseHashes(list, map[]) == Ok(lds.hashes) && lds.hashes != map[]
  }

  // ---------------------------------------------------------- attributes and parameters

  /** Attributes are walked in order: one more at the end has the last word. */
  lemma {:induction false} WalkAppends(a: Bytes, tag: Byte, attr: Bytes, st: AttrState)
    requires WalkAttrs(a, st).Ok? && Der.Fits32(attr)
    ensures WalkAttrs(a + Der.Canonical(tag, attr), st) == Ok(OneAttr(WalkAttrs(a, st).value, tag, attr))
    decreases |a|
  {
    var e := Der.Canonical(tag, attr);
    if a == [] {
      assert a + e == e && e == e + [];
      Der.NextExact(e, Der.Tlv(tag, attr, []));
    } else {
      var t := Der.Next(a).value;
      Der.NextShrinks(a);
      NextOfLonger(a, e);
      WalkAppends(t.rest, tag, attr, OneAttr(st, t.tag, t.body));
    }
  }

  lemma NextOfLonger(a: Bytes, e: Bytes)
    requires Der.Next(a).Some?
    ensures var t := Der.Next(a).value;
            Der.Next(a + e) == Some(Der.Tlv(t.tag, t.body, t.rest + e))
  {
    var t := Der.Next(a).value;
    Der.NextExact(a, t);
    var longer := Der.Tlv(t.tag, t.body, t.rest + e);
    Joined(Der.Canonical(t.tag, t.body), t.rest, e);
    Der.NextExact(a + e, longer);
  }

  lemma Joined(a: Bytes, b: Bytes, c: Bytes)
    ensures a + b + c == a + (b + c)
  {
  }

  /** An attribute of one type with one value in its SET. */
  function Attribute(oid: Bytes, tag: Byte, value: Bytes): Bytes
    requires Der.Fits32(oid) && Der.Fits32(value) && Der.Fits32(Der.Canonical(tag, value))
  {
    Der.Canonical(Der.OID, oid) + Der.Canonical(Der.SET, Der.Canonical(tag, value))
  }

  /** When messageDigest is given more than once, the last one is the one that must match. */
  lemma LastDigestDecides(a: Bytes, oid: Bytes, hash: Bytes)
    requires WalkAttrs(a, AttrState(None, None)).Ok? && Der.OidArcs(oid) == Some(OID_MESSAGE_DIGEST)
    requires Der.Fits32(oid) && Der.Fits32(hash) && Der.Fits32(Der.Canonical(Der.OCTET_STRING, hash))
    requires Der.Fits32(Attribute(oid, Der.OCTET_STRING, hash))
    ensures var attr := Der.Canonical(Der.SEQUENCE, Attribute(oid, Der.OCTET_STRING, hash));
            && ParseSignedAttrs(a + attr).Ok?
            && ParseSignedAttrs(a + attr).value.messageDigest == hash
            && ParseSignedAttrs(a + attr).value.contentType == WalkAttrs(a, AttrState(None, None)).value.contentType
  {
    var attr := Attribute(oid, Der.OCTET_STRING, hash);
    WalkAppends(a, Der.SEQUENCE, attr, AttrState(None, None));
    DigestOfAttribute(WalkAttrs(a, AttrState(None, None)).value, oid, hash);
  }

  lemma DigestOfAttribute(st: AttrState, oid: Bytes, hash: Bytes)
    requires Der.OidArcs(oid) == Some(OID_MESSAGE_DIGEST)
    requires Der.Fits32(oid) && Der.Fits32(hash) && Der.Fits32(Der.Canonical(Der.OCTET_STRING, hash))
    ensures OneAttr(st, Der.SEQUENCE, Attribute(oid, Der.OCTET_STRING, hash)) == st.(messageDigest := Some(hash))
  {
    var v := Der.Canonical(Der.OCTET_STRING, hash);
    Der.TakeExact(Attribute(oid, Der.OCTET_STRING, hash), Der.OID, oid, Der.Canonical(Der.SET, v));
    Der.ExpectExact(Der.Canonical(Der.SET, v), Der.SET, v);
    Der.ExpectExact(v, Der.OCTET_STRING, hash);
  }

  /** A small integer reads exactly from the DER contents of a number below 2³¹. */
  lemma SmallUintExact(contents: Bytes, n: nat)
    ensures SmallUint(contents) == Some(n) <==> n < 0x8000_0000 && contents == Der.Uint(n)
  {
    Der.UintExact(contents);
    Der.UintIsUint(n);
    UintLength(n);
  }

  lemma UintLength(n: nat)
    ensures |Der.Uint(n)| <= 4 <==> n < 0x8000_0000
  {
    var m := Minimal(n);
    assert Modular.Pow(256, 3) == 0x100_0000 && Modular.Pow(256, 4) == 0x1_0000_0000;
    MinimalLength(n, 3);
    MinimalLength(n, 4);
    NatOfMinimal(n);
    if |m| == 4 {
      NatLeadingByte(m);
      NatBound(m[1..]);
    }
  }

  // RSASSA-PSS-params (section A.2.3 of RFC 8017), each field present or left to its default

  function OptionalField(tag: Byte, field: Option<Bytes>): Bytes
    requires field.Some? ==> Der.Fits32(field.value)
  {
    match field
    case None => []
    case Some(body) => Der.Canonical(tag, body)
  }

  /** A field that is read is what the bytes start with, and one that is not takes none of them. */
  lemma FieldSplits(tag: Byte, input: Bytes)
    ensures var (field, rest) := Field(input, tag);
            && (field.Some? ==> Der.Fits32(field.value))
            && input == OptionalField(tag, field) + rest
  {
    var (field, rest) := Field(input, tag);
    if field.Some? { Der.TakeExact(input, tag, field.value, rest); }
  }

  lemma FieldReads(tag: Byte, field: Option<Bytes>, rest: Bytes)
    requires field.Some? ==> Der.Fits32(field.value)
    requires rest != [] ==> rest[0] != tag
    ensures Field(OptionalField(tag, field) + rest, tag) == (field, rest)
  {
    match field {
      case Some(body) => Der.TakeExact(Der.Canonical(tag, body) + rest, tag, body, rest);
      case None => assert [] + rest == rest;
    }
  }

  /** An AlgorithmIdentifier with this object identifier and these parameters. */
  ghost predicate IsAlgorithm(alg: Bytes, oid: Bytes, params: Bytes) {
    && Der.Fits32(oid) && Der.Fits32(Der.Canonical(Der.OID, oid) + params)
    && alg == Der.Canonical(Der.SEQUENCE, Der.Canonical(Der.OID, oid) + params)
  }

  lemma AlgorithmReads(alg: Bytes, oid: Bytes, params: Bytes)
    ensures IsAlgorithm(alg, oid, params)
            <==> Der.Expect(alg, Der.SEQUENCE).Some? && Der.Take(Der.Expect(alg, Der.SEQUENCE).value, Der.OID) == Some((oid, params))
  {
    if Der.Expect(alg, Der.SEQUENCE).Some? {
      var body := Der.Expect(alg, Der.SEQUENCE).value;
      Der.ExpectExact(alg, Der.SEQUENCE, body);
      Der.TakeExact(body, Der.OID, oid, params);
    }
    if IsAlgorithm(alg, oid, params) {
      var body := Der.Canonical(Der.OID, oid) + params;
      Der.ExpectExact(alg, Der.SEQUENCE, body);
      Der.TakeExact(body, Der.OID, oid, params);
    }
  }

  predicate NullOrAbsent(params: Bytes) {
    params == [] || params == [0x05, 0x00]
  }

  /** A hash algorithm by its object identifier, with NULL parameters or none. */
  ghost predicate NamesHash(field: Bytes, oid: Bytes, params: Bytes, hash: HashAlgo) {
    && IsAlgorithm(field, oid, params) && NullOrAbsent(params)
    && Der.OidArcs(oid).Some? && FromOid(Der.OidArcs(oid).value) == Some(hash)
  }

  ghost predicate IsHashField(field: Bytes, hash: HashAlgo) {
    exists oid, params :: NamesHash(field, oid, params, hash)
  }

  lemma HashFieldExact(field: Bytes, hash: HashAlgo)
    ensures PssHashField(field) == Ok(hash) <==> IsHashField(field, hash)
  {
    if PssHashField(field) == Ok(hash) {
      var (oid, params) := Der.Take(Der.Expect(field, Der.SEQUENCE).value, Der.OID).value;
      AlgorithmReads(field, oid, params);
      assert NamesHash(field, oid, params, hash);
    }
    forall oid, params | NamesHash(field, oid, params, hash) ensures PssHashField(field) == Ok(hash) {
      AlgorithmReads(field, oid, params);
    }
  }

  /** MGF1, with its hash algorithm as parameter. */
  ghost predicate NamesMgf(field: Bytes, oid: Bytes, inner: Bytes, hash: HashAlgo) {
    IsAlgorithm(field, oid, inner) && Der.OidArcs(oid) == Some(OID_MGF1) && IsHashField(inner, hash)
  }

  ghost predicate IsMgfField(field: Bytes, hash: HashAlgo) {
    exists oid, inner :: NamesMgf(field, oid, inner, hash)
  }

  lemma MgfFieldExact(field: Bytes, hash: HashAlgo)
    ensures PssMgfField(field) == Ok(hash) <==> IsMgfField(field, hash)
  {
    if PssMgfField(field) == Ok(hash) {
      var (oid, inner) := Der.Take(Der.Expect(field, Der.SEQUENCE).value, Der.OID).value;
      AlgorithmReads(field, oid, inner);
      HashFieldExact(inner, hash);
      assert NamesMgf(field, oid, inner, hash);
    }
    forall oid, inner | NamesMgf(field, oid, inner, hash) ensures PssMgfField(field) == Ok(hash) {
      AlgorithmReads(field, oid, inner);
      HashFieldExact(inner, hash);
    }
  }

  ghost predicate IsUintField(field: Bytes, n: nat) {
    n < 0x8000_0000 && Der.Fits32(Der.Uint(n)) && field == Der.Canonical(Der.INTEGER, Der.Uint(n))
  }

  lemma UintFieldExact(field: Bytes, n: nat)
    ensures PssUintField(field) == Ok(n) <==> IsUintField(field, n)
  {
    if PssUintField(field) == Ok(n) {
      var contents := Der.Expect(field, Der.INTEGER).value;
      Der.ExpectExact(field, Der.INTEGER, contents);
      SmallUintExact(contents, n);
    }
    if IsUintField(field, n) {
      Der.ExpectExact(field, Der.INTEGER, Der.Uint(n));
      SmallUintExact(Der.Uint(n), n);
    }
  }

  datatype PssFields = PssFields(hash: Option<Bytes>, mgf: Option<Bytes>, salt: Option<Bytes>, trailer: Option<Bytes>)

  predicate FieldsFit(f: PssFields) {
    && (f.hash.Some? ==> Der.Fits32(f.hash.value)) && (f.mgf.Some? ==> Der.Fits32(f.mgf.value))
    && (f.salt.Some? ==> Der.Fits32(f.salt.value)) && (f.trailer.Some? ==> Der.Fits32(f.trailer.value))
  }

  /** The four fields in order, each under its tag. */
  function EncodeFields(f: PssFields): Bytes
    requires FieldsFit(f)
  {
    OptionalField(CONTEXT_0, f.hash)
    + (OptionalField(CONTEXT_1, f.mgf) + (OptionalField(CONTEXT_2, f.salt) + OptionalField(CONTEXT_3, f.trailer)))
  }

  ghost predicate IsPssParams(params: Bytes, f: PssFields) {
    FieldsFit(f) && Der.Fits32(EncodeFields(f)) && params == Der.Canonical(Der.SEQUENCE, EncodeFields(f))
  }

  /** What the fields say; an absent one says its default, and the trailer is 1 if it is there. */
  ghost predicate FieldsSay(f: PssFields, hash: HashAlgo, mgfHash: HashAlgo, saltLen: nat) {
    && (if f.hash.None? then hash == Sha1 else IsHashField(f.hash.value, hash))
    && (if f.mgf.None? then mgfHash == Sha1 else IsMgfField(f.mgf.value, mgfHash))
    && (if f.salt.None? then saltLen == 20 else IsUintField(f.salt.value, saltLen))
    && (f.trailer.Some? ==> IsUintField(f.trailer.value, 1))
  }

  /** The four reads of the source, as one step. */
  lemma FieldsRead(r0: Bytes, f: PssFields)
    requires FieldsFit(f) && r0 == EncodeFields(f)
    ensures var (h, r1) := Field(r0, CONTEXT_0);
            var (m, r2) := Field(r1, CONTEXT_1);
            var (s, r3) := Field(r2, CONTEXT_2);
            var (t, r4) := Field(r3, CONTEXT_3);
            PssFields(h, m, s, t) == f && r4 == []
  {
    var r3 := OptionalField(CONTEXT_3, f.trailer);
    var r2 := OptionalField(CONTEXT_2, f.salt) + r3;
    var r1 := OptionalField(CONTEXT_1, f.mgf) + r2;
    assert r3 + [] == r3;
    FieldReads(CONTEXT_3, f.trailer, []);
    FieldReads(CONTEXT_2, f.salt, r3);
    FieldReads(CONTEXT_1, f.mgf, r2);
    FieldReads(CONTEXT_0, f.hash, r1);
  }

  lemma FieldsSplit(r0: Bytes) returns (f: PssFields, r4: Bytes)
    ensures var (h, r1) := Field(r0, CONTEXT_0);
            var (m, r2) := Field(r1, CONTEXT_1);
            var (s, r3) := Field(r2, CONTEXT_2);
            Field(r3, CONTEXT_3) == (f.trailer, r4) && f == PssFields(h, m, s, f.trailer)
    ensures FieldsFit(f) && (r4 == [] ==> r0 == EncodeFields(f))
  {
    var (h, r1) := Field(r0, CONTEXT_0);
    var (m, r2) := Field(r1, CONTEXT_1);
    var (s, r3) := Field(r2, CONTEXT_2);
    var (t, rest) := Field(r3, CONTEXT_3);
    f, r4 := PssFields(h, m, s, t), rest;
    FieldSplits(CONTEXT_0, r0);
    FieldSplits(CONTEXT_1, r1);
    FieldSplits(CONTEXT_2, r2);
    FieldSplits(CONTEXT_3, r3);
    assert OptionalField(CONTEXT_3, t) + [] == OptionalField(CONTEXT_3, t);
  }

  /** What the field parsers make of the fields is what they say. */
  lemma FieldsSayExact(f: PssFields, hash: HashAlgo, mgfHash: HashAlgo, saltLen: nat)
    ensures FieldsSay(f, hash, mgfHash, saltLen) <==>
      && (if f.hash.None? then Ok(Sha1) else PssHashField(f.hash.value)) == Ok(hash)
      && (if f.mgf.None? then Ok(Sha1) else PssMgfField(f.mgf.value)) == Ok(mgfHash)
      && (if f.salt.None? then Ok(20) else PssUintField(f.salt.value)) == Ok(saltLen)
      && (if f.trailer.None? then Ok(1) else PssUintField(f.trailer.value)) == Ok(1)
  {
    if f.hash.Some? { HashFieldExact(f.hash.value, hash); }
    if f.mgf.Some? { MgfFieldExact(f.mgf.value, mgfHash); }
    if f.salt.Some? { UintFieldExact(f.salt.value, saltLen); }
    if f.trailer.Some? { UintFieldExact(f.trailer.value, 1); }
  }

  /**
   PSS parameters parse to a hash, a mask hash and a salt length exactly when they are a
   SEQUENCE of the four optional fields, in order and nothing else, that say so.
   */
  lemma PssParamsExact(params: Bytes, hash: HashAlgo, mgfHash: HashAlgo, saltLen: nat)
    ensures ParsePssParams(params) == Ok((hash, mgfHash, saltLen))
            <==> exists f :: IsPssParams(params, f) && FieldsSay(f, hash, mgfHash, saltLen)
  {
    if ParsePssParams(params) == Ok((hash, mgfHash, saltLen)) {
      var f := ParsedFields(params, hash, mgfHash, saltLen);
    }
    forall f | IsPssParams(params, f) && FieldsSay(f, hash, mgfHash, saltLen)
      ensures ParsePssParams(params) == Ok((hash, mgfHash, saltLen))
    {
      FieldsParse(params, f, hash, mgfHash, saltLen);
    }
  }

  /** The parser in terms of the fields it splits off. */
  lemma ParsesByFields(params: Bytes, r0: Bytes, r1: Bytes, r2: Bytes, r3: Bytes, r4: Bytes, f: PssFields,
                       hash: HashAlgo, mgfHash: HashAlgo, saltLen: nat)
    requires Der.Expect(params, Der.SEQUENCE) == Some(r0)
    requires Field(r0, CONTEXT_0) == (f.hash, r1) && Field(r1, CONTEXT_1) == (f.mgf, r2)
    requires Field(r2, CONTEXT_2) == (f.salt, r3) && Field(r3, CONTEXT_3) == (f.trailer, r4)
    ensures ParsePssParams(params) == Ok((hash, mgfHash, saltLen)) <==>
      && (if f.hash.None? then Ok(Sha1) else PssHashField(f.hash.value)) == Ok(hash)
      && (if f.mgf.None? then Ok(Sha1) else PssMgfField(f.mgf.value)) == Ok(mgfHash)
      && (if f.salt.None? then Ok(20) else PssUintField(f.salt.value)) == Ok(saltLen)
      && (if f.trailer.None? then Ok(1) else PssUintField(f.trailer.value)) == Ok(1)
      && r4 == []
  {
  }

  lemma ParsedFields(params: Bytes, hash: HashAlgo, mgfHash: HashAlgo, saltLen: nat) returns (f: PssFields)
    requires ParsePssParams(params) == Ok((hash, mgfHash, saltLen))
    ensures IsPssParams(params, f) && FieldsSay(f, hash, mgfHash, saltLen)
  {
    var r0 := Der.Expect(params, Der.SEQUENCE).value;
    Der.ExpectExact(params, Der.SEQUENCE, r0);
    var r4: Bytes;
    f, r4 := FieldsSplit(r0);
    var r1 := Field(r0, CONTEXT_0).1;
    var r2 := Field(r1, CONTEXT_1).1;
    ParsesByFields(params, r0, r1, r2, Field(r2, CONTEXT_2).1, r4, f, hash, mgfHash, saltLen);
    FieldsSayExact(f, hash, mgfHash, saltLen);
  }

  lemma FieldsParse(params: Bytes, f: PssFields, hash: HashAlgo, mgfHash: HashAlgo, saltLen: nat)
    requires IsPssParams(params, f) && FieldsSay(f, hash, mgfHash, saltLen)
    ensures ParsePssParams(params) == Ok((hash, mgfHash, saltLen))
  {
    var r0 := EncodeFields(f);
    Der.ExpectExact(params, Der.SEQUENCE, r0);
    FieldsRead(r0, f);
    var r1 := Field(r0, CONTEXT_0).1;
    var r2 := Field(r1, CONTEXT_1).1;
    ParsesByFields(params, r0, r1, r2, Field(r2, CONTEXT_2).1, [], f, hash, mgfHash, saltLen);
    FieldsSayExact(f, hash, mgfHash, saltLen);
  }
}
