/** The names hash algorithms go by: object identifiers, DigestInfo prefixes, trailer identifiers. */
module HashNames {
  import opened Wrappers
  import opened ByteStrings
  import opened Hashes
  import Der

  /** The AlgorithmIdentifier of a hash, with NULL parameters, around its object identifier. */
  function HashAlgorithm(oid: Bytes): Bytes
    requires Der.Fits32(oid)
  {
    Der.Canonical(Der.OID, oid) + [0x05, 0x00]
  }

  /** The DER DigestInfo of section 9.2 of RFC 8017. */
  function DigestInfo(arcs: seq<nat>, h: Bytes): Bytes
    requires InfoFits(arcs, h)
  {
    Der.Canonical(Der.SEQUENCE, InfoFields(arcs, h))
  }

  predicate InfoFits(arcs: seq<nat>, h: Bytes) {
    && Der.ValidArcs(arcs) && Der.Fits32(Der.EncodeOid(arcs)) && Der.Fits32(HashAlgorithm(Der.EncodeOid(arcs)))
    && Der.Fits32(h) && Der.Fits32(InfoFields(arcs, h))
  }

  function InfoFields(arcs: seq<nat>, h: Bytes): Bytes
    requires Der.ValidArcs(arcs) && Der.Fits32(Der.EncodeOid(arcs)) && Der.Fits32(HashAlgorithm(Der.EncodeOid(arcs)))
    requires Der.Fits32(h)
  {
    Der.Canonical(Der.SEQUENCE, HashAlgorithm(Der.EncodeOid(arcs))) + Der.Canonical(Der.OCTET_STRING, h)
  }

  /** Subidentifiers below 128 are one byte each. */
  lemma {:induction false} SmallArcs(arcs: Bytes)
    requires forall i :: 0 <= i < |arcs| ==> arcs[i] < 0x80
    ensures Der.EncodeSubidentifiers(arcs) == arcs
  {
    if arcs != [] {
      SmallArcs(arcs[1..]);
      assert Der.Subidentifier(arcs[0]) == Der.Continued(0) + [arcs[0]];
    }
  }

  function Before(v: nat, others: seq<nat>): seq<nat> {
    [v] + others
  }

  /** One more subidentifier before others. */
  lemma OneArc(v: nat, code: Bytes, others: seq<nat>, tail: Bytes)
    requires Der.Subidentifier(v) == code && Der.EncodeSubidentifiers(others) == tail
    ensures Der.EncodeSubidentifiers(Before(v, others)) == code + tail
  {
    assert ([v] + others)[1..] == others;
  }

  /** The identifier's first two arcs are packed into one subidentifier. */
  lemma PackedOid(first: nat, second: nat, code: Bytes, others: seq<nat>, tail: Bytes)
    requires first <= 2 && second < 40
    requires Der.Subidentifier(40 * first + second) == code && Der.EncodeSubidentifiers(others) == tail
    ensures Der.EncodeOid([first, second] + others) == code + tail
    ensures Der.Fits64(others) ==> Der.ValidArcs([first, second] + others)
  {
    assert ([first, second] + others)[2..] == others;
    OneArc(40 * first + second, code, others, tail);
  }

  const SHA1_OID: Bytes := [0x2b, 0x0e, 0x03, 0x02, 0x1a]

  /** The arcs 2.16.840 and 1.2.840, under which NIST and RSADSI register, and 1.2 of ISO members. */
  lemma LongArcs()
    ensures Der.Subidentifier(840) == [0x86, 0x48]
    ensures Der.Subidentifier(113549) == [0x86, 0xf7, 0x0d]
    ensures Der.Subidentifier(10045) == [0xce, 0x3d]
    ensures Der.Subidentifier(136) == [0x81, 0x08]
  {
    assert Der.Continued(6) == Der.Continued(0) + [0x86];
    assert 113549 / 128 == 887 && 887 / 128 == 6;
    assert Der.Continued(887) == Der.Continued(6) + [0xf7];
    assert Der.Continued(78) == Der.Continued(0) + [0xce];
    assert Der.Continued(1) == Der.Continued(0) + [0x81];
  }

  lemma ShortArc(v: Byte)
    requires v < 0x80
    ensures Der.Subidentifier(v) == [v]
  {
    assert Der.Subidentifier(v) == Der.Continued(0) + [v];
  }

  lemma Sha1Oid()
    ensures Der.ValidArcs([1, 3, 14, 3, 2, 26]) && Der.EncodeOid([1, 3, 14, 3, 2, 26]) == SHA1_OID
  {
    ShortArc(43);
    SmallArcs([14, 3, 2, 26]);
    PackedOid(1, 3, [43], [14, 3, 2, 26], [14, 3, 2, 26]);
    assert [1, 3] + [14, 3, 2, 26] == [1, 3, 14, 3, 2, 26];
  }

  /** The arcs under which NIST registers hash algorithms. */
  function NistArcs(arc: nat): seq<nat> {
    [2, 16, 840, 1, 101, 3, 4, 2, arc]
  }

  lemma NistOid(arc: Byte)
    requires arc < 0x80
    ensures Der.ValidArcs(NistArcs(arc)) && Der.EncodeOid(NistArcs(arc)) == NistOidBytes(arc)
  {
    var low: Bytes := [1, 101, 3, 4, 2, arc];
    ShortArc(96);
    LongArcs();
    SmallArcs(low);
    OneArc(840, [0x86, 0x48], low, low);
    PackedOid(2, 16, [96], Before(840, low), [0x86, 0x48] + low);
    NistLists(arc);
  }

  function NistOidBytes(arc: Byte): Bytes {
    [0x60, 0x86, 0x48, 0x01, 0x65, 0x03, 0x04, 0x02, arc]
  }

  lemma NistLists(arc: Byte)
    ensures [2, 16] + Before(840, [1, 101, 3, 4, 2, arc]) == NistArcs(arc)
    ensures [96] + ([0x86, 0x48] + [1, 101, 3, 4, 2, arc]) == NistOidBytes(arc)
    ensures Der.Fits64(Before(840, [1, 101, 3, 4, 2, arc]))
  {
  }

  /** All lengths of a DigestInfo are short, so each takes one byte. */
  lemma ShortInfo(arcs: seq<nat>, h: Bytes)
    requires Der.ValidArcs(arcs) && |Der.EncodeOid(arcs)| <= 16 && |h| <= 64
    ensures InfoFits(arcs, h)
    ensures var oid := Der.EncodeOid(arcs);
            DigestInfo(arcs, h)
            == [0x30, |oid| + |h| + 8, 0x30, |oid| + 4, 0x06, |oid|] + (oid + ([0x05, 0x00, 0x04, |h|] + h))
  {
    var oid := Der.EncodeOid(arcs);
    assert HashAlgorithm(oid) == [0x06, |oid|] + oid + [0x05, 0x00];
    assert InfoFields(arcs, h) == [0x30, |oid| + 4] + ([0x06, |oid|] + oid + [0x05, 0x00]) + ([0x04, |h|] + h);
  }

  lemma PrefixIsDer(arcs: seq<nat>, hash: HashAlgo, h: Bytes)
    requires FromOid(arcs) == Some(hash) && |h| == DigestLen(hash)
    ensures InfoFits(arcs, h) && DigestInfoPrefix(hash) + h == DigestInfo(arcs, h)
  {
    if hash == Sha1 {
      Sha1Oid();
      ShortInfo(arcs, h);
      assert DigestInfoPrefix(hash) == [0x30, |SHA1_OID| + 20 + 8, 0x30, |SHA1_OID| + 4, 0x06, |SHA1_OID|]
          + (SHA1_OID + [0x05, 0x00, 0x04, 20]);
      Attached([0x30, |SHA1_OID| + 20 + 8, 0x30, |SHA1_OID| + 4, 0x06, |SHA1_OID|], SHA1_OID, [0x05, 0x00, 0x04, 20], h);
    } else {
      NistPrefixIsDer(arcs, h, arcs[8]);
    }
  }

  lemma NistPrefixIsDer(arcs: seq<nat>, h: Bytes, arc: Byte)
    requires arcs == NistArcs(arc) && arc < 0x80 && |h| <= 64
    ensures InfoFits(arcs, h) && NistPrefix(|h| + 17, arc, |h|) + h == DigestInfo(arcs, h)
  {
    var oid := NistOidBytes(arc);
    NistOid(arc);
    ShortInfo(arcs, h);
    assert NistPrefix(|h| + 17, arc, |h|)
        == [0x30, |oid| + |h| + 8, 0x30, |oid| + 4, 0x06, |oid|] + (oid + [0x05, 0x00, 0x04, |h|]);
    Attached([0x30, |oid| + |h| + 8, 0x30, |oid| + 4, 0x06, |oid|], oid, [0x05, 0x00, 0x04, |h|], h);
  }

  lemma Attached(a: Bytes, b: Bytes, c: Bytes, h: Bytes)
    ensures a + (b + c) + h == a + (b + (c + h))
  {
  }

  lemma SameInfoSameOid(arcs: seq<nat>, arcs': seq<nat>, h: Bytes)
    requires InfoFits(arcs, h) && InfoFits(arcs', h) && DigestInfo(arcs, h) == DigestInfo(arcs', h)
    ensures arcs == arcs'
  {
    var oid, oid' := Der.EncodeOid(arcs), Der.EncodeOid(arcs');
    var octets := Der.Canonical(Der.OCTET_STRING, h);
    Der.ExpectExact(DigestInfo(arcs, h), Der.SEQUENCE, InfoFields(arcs, h));
    Der.ExpectExact(DigestInfo(arcs, h), Der.SEQUENCE, InfoFields(arcs', h));
    Der.TakeExact(InfoFields(arcs, h), Der.SEQUENCE, HashAlgorithm(oid), octets);
    Der.TakeExact(InfoFields(arcs, h), Der.SEQUENCE, HashAlgorithm(oid'), octets);
    Der.TakeExact(HashAlgorithm(oid), Der.OID, oid, [0x05, 0x00]);
    Der.TakeExact(HashAlgorithm(oid), Der.OID, oid', [0x05, 0x00]);
    Der.OidExact(oid, arcs);
    Der.OidExact(oid', arcs');
  }

  lemma NamedSomehow(hash: HashAlgo) returns (arcs: seq<nat>)
    ensures FromOid(arcs) == Some(hash)
  {
    match hash {
      case Sha1 => arcs := [1, 3, 14, 3, 2, 26];
      case Sha224 => arcs := NistArcs(4);
      case Sha256 => arcs := NistArcs(1);
      case Sha384 => arcs := NistArcs(2);
      case Sha512 => arcs := NistArcs(3);
    }
  }

  /**
   An object identifier names a hash exactly when the hash's PKCS #1 prefix and a digest
   of its length are the DER DigestInfo of that identifier and digest.
   */
  lemma NamesExactly(arcs: seq<nat>, hash: HashAlgo, h: Bytes)
    requires |h| == DigestLen(hash)
    ensures FromOid(arcs) == Some(hash) <==> InfoFits(arcs, h) && DigestInfoPrefix(hash) + h == DigestInfo(arcs, h)
  {
    if FromOid(arcs) == Some(hash) {
      PrefixIsDer(arcs, hash, h);
    }
    if InfoFits(arcs, h) && DigestInfoPrefix(hash) + h == DigestInfo(arcs, h) {
      var known := NamedSomehow(hash);
      PrefixIsDer(known, hash, h);
      SameInfoSameOid(arcs, known, h);
    }
  }

  /** The number of a dedicated hash function in ISO/IEC 10118-3. */
  function DedicatedHashFunction(hash: HashAlgo): Byte {
    match hash
    case Sha1 => 0x33
    case Sha256 => 0x34
    case Sha512 => 0x35
    case Sha384 => 0x36
    case Sha224 => 0x38
  }

  lemma TrailerNamesExactly(id: Byte, hash: HashAlgo)
    ensures FromIso9796Id(id) == Some(hash) <==> id == DedicatedHashFunction(hash)
  {
  }
}
