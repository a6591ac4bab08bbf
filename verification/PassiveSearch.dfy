/** What the walks of passive authentication look for, and which element they settle on. */
module PassiveSearch {
  import opened Wrappers
  import opened ByteStrings
  import opened PassiveParse
  import Der

  // ---------------------------------------------------------------- runs of elements

  datatype Item = Item(tag: Byte, body: Bytes)

  predicate AllFit(items: seq<Item>) {
    forall i :: 0 <= i < |items| ==> Der.Fits32(items[i].body)
  }

  function EncodeItems(items: seq<Item>): Bytes
    requires AllFit(items)
  {
    if items == [] then [] else Der.Canonical(items[0].tag, items[0].body) + EncodeItems(items[1..])
  }

  /** `input` is these elements and then `rest`. */
  ghost predicate Starts(input: Bytes, items: seq<Item>, rest: Bytes) {
    AllFit(items) && input == EncodeItems(items) + rest
  }

  lemma StartsOne(input: Bytes, items: seq<Item>, rest: Bytes)
    requires Starts(input, items, rest) && items != []
    ensures var next := EncodeItems(items[1..]) + rest;
            && Starts(next, items[1..], rest)
            && Der.Next(input) == Some(Der.Tlv(items[0].tag, items[0].body, next))
  {
    var others := items[1..];
    assert forall i :: 0 <= i < |others| ==> others[i] == items[i + 1];
    var next := EncodeItems(others) + rest;
    assert input == Der.Canonical(items[0].tag, items[0].body) + next;
    Der.NextExact(input, Der.Tlv(items[0].tag, items[0].body, next));
  }

  lemma StartsMore(input: Bytes, t: Der.Tlv, others: seq<Item>, rest: Bytes)
    requires Der.Next(input) == Some(t) && Starts(t.rest, others, rest)
    ensures Starts(input, [Item(t.tag, t.body)] + others, rest)
  {
    Der.NextExact(input, t);
    var items := [Item(t.tag, t.body)] + others;
    assert items[1..] == others;
    assert forall i :: 1 <= i < |items| ==> items[i] == others[i - 1];
  }

  lemma StartsNone(input: Bytes)
    ensures Starts(input, [], input)
  {
    assert [] + input == input;
  }

  predicate NoneTagged(items: seq<Item>, tag: Byte) {
    forall i :: 0 <= i < |items| ==> items[i].tag != tag
  }

  // ------------------------------------------------------- the subject key identifier

  /** The bytes after the key hold these extensions, in the first element tagged [3]. */
  ghost predicate HasExtensions(input: Bytes, extensions: Bytes) {
    exists items, rest :: ExtensionsAfter(input, items, rest, extensions)
  }

  ghost predicate ExtensionsAfter(input: Bytes, items: seq<Item>, rest: Bytes, extensions: Bytes) {
    && Starts(input, items, rest) && NoneTagged(items, CONTEXT_3)
    && Der.Next(rest).Some? && Der.Next(rest).value.tag == CONTEXT_3
    && Der.Fits32(extensions) && Der.Next(rest).value.body == Der.Canonical(Der.SEQUENCE, extensions)
  }

  lemma {:induction false} ExtensionsFound(input: Bytes, items: seq<Item>, rest: Bytes, extensions: Bytes)
    requires ExtensionsAfter(input, items, rest, extensions)
    ensures FindExtensions(input) == Some(extensions)
    decreases |items|
  {
    if items == [] {
      assert input == rest;
      Der.ExpectExact(Der.Next(rest).value.body, Der.SEQUENCE, extensions);
    } else {
      StartsOne(input, items, rest);
      assert items[0].tag != CONTEXT_3;
      ExtensionsFound(EncodeItems(items[1..]) + rest, items[1..], rest, extensions);
    }
  }

  lemma {:induction false} ExtensionsSought(input: Bytes) returns (items: seq<Item>, rest: Bytes)
    requires FindExtensions(input).Some?
    ensures ExtensionsAfter(input, items, rest, FindExtensions(input).value)
    decreases |input|
  {
    var t := Der.Next(input).value;
    if t.tag == CONTEXT_3 {
      items, rest := [], input;
      StartsNone(input);
      Der.ExpectExact(t.body, Der.SEQUENCE, FindExtensions(input).value);
    } else {
      Der.NextShrinks(input);
      var others: seq<Item>;
      others, rest := ExtensionsSought(t.rest);
      items := [Item(t.tag, t.body)] + others;
      StartsMore(input, t, others, rest);
    }
  }

  predicate IsSki(item: Item) {
    item.tag == Der.SEQUENCE && IsSkiExtension(item.body)
  }

  /** A subjectKeyIdentifier extension with this identifier, with or without `critical`. */
  ghost predicate NamesKey(ext: Bytes, oid: Bytes, critical: Option<Bytes>, more: Bytes, id: Bytes) {
    && Der.Fits32(oid) && Der.OidArcs(oid) == Some(OID_SKI) && (critical.Some? ==> Der.Fits32(critical.value))
    && Der.Fits32(id) && Der.Fits32(Der.Canonical(Der.OCTET_STRING, id))
    && ext == Der.Canonical(Der.OID, oid) + KeyValue(critical, more, id)
  }

  /** The value of such an extension; only without `critical` is anything allowed to follow it. */
  function KeyValue(critical: Option<Bytes>, more: Bytes, id: Bytes): Bytes
    requires critical.Some? ==> Der.Fits32(critical.value)
    requires Der.Fits32(id) && Der.Fits32(Der.Canonical(Der.OCTET_STRING, id))
  {
    var value := Der.Canonical(Der.OCTET_STRING, Der.Canonical(Der.OCTET_STRING, id));
    match critical
    case None => value + more
    case Some(flag) => Der.Canonical(BOOLEAN, flag) + value
  }

  lemma SkiValueExact(after: Bytes, id: Bytes)
    ensures SkiValue(after) == Some(id) <==>
      && Der.Fits32(id) && Der.Fits32(Der.Canonical(Der.OCTET_STRING, id))
      && exists critical: Option<Bytes>, more ::
           (critical.Some? ==> Der.Fits32(critical.value)) && after == KeyValue(critical, more, id)
  {
    if SkiValue(after) == Some(id) {
      var critical, more := ReadKeyValue(after, id);
    }
    if Der.Fits32(id) && Der.Fits32(Der.Canonical(Der.OCTET_STRING, id)) {
      forall critical: Option<Bytes>, more | (critical.Some? ==> Der.Fits32(critical.value)) && after == KeyValue(critical, more, id)
        ensures SkiValue(after) == Some(id)
      {
        KeyValueReads(critical, more, id);
      }
    }
  }

  lemma ReadKeyValue(after: Bytes, id: Bytes) returns (critical: Option<Bytes>, more: Bytes)
    requires SkiValue(after) == Some(id)
    ensures Der.Fits32(id) && Der.Fits32(Der.Canonical(Der.OCTET_STRING, id))
    ensures (critical.Some? ==> Der.Fits32(critical.value)) && after == KeyValue(critical, more, id)
  {
    var t := Der.Next(after).value;
    Der.NextExact(after, t);
    if t.tag == BOOLEAN {
      var value := Der.Expect(t.rest, Der.OCTET_STRING).value;
      Der.ExpectExact(t.rest, Der.OCTET_STRING, value);
      Der.ExpectExact(value, Der.OCTET_STRING, id);
      critical, more := Some(t.body), [];
    } else {
      Der.ExpectExact(t.body, Der.OCTET_STRING, id);
      critical, more := None, t.rest;
    }
  }

  lemma KeyValueReads(critical: Option<Bytes>, more: Bytes, id: Bytes)
    requires critical.Some? ==> Der.Fits32(critical.value)
    requires Der.Fits32(id) && Der.Fits32(Der.Canonical(Der.OCTET_STRING, id))
    ensures SkiValue(KeyValue(critical, more, id)) == Some(id)
  {
    var inner := Der.Canonical(Der.OCTET_STRING, id);
    var value := Der.Canonical(Der.OCTET_STRING, inner);
    Der.ExpectExact(inner, Der.OCTET_STRING, id);
    match critical {
      case None =>
        Der.NextExact(value + more, Der.Tlv(Der.OCTET_STRING, inner, more));
      case Some(flag) =>
        Der.NextExact(Der.Canonical(BOOLEAN, flag) + value, Der.Tlv(BOOLEAN, flag, value));
        Der.ExpectExact(value, Der.OCTET_STRING, inner);
    }
  }

  /** An extension names its key exactly when it starts with the identifier's OID and its value reads. */
  lemma NamesKeyExact(ext: Bytes, id: Bytes)
    ensures (exists oid, critical, more :: NamesKey(ext, oid, critical, more, id))
            <==> IsSkiExtension(ext) && SkiValue(Der.Take(ext, Der.OID).value.1) == Some(id)
  {
    if IsSkiExtension(ext) {
      var (oid, after) := Der.Take(ext, Der.OID).value;
      Der.TakeExact(ext, Der.OID, oid, after);
      SkiValueExact(after, id);
      if SkiValue(after) == Some(id) {
        var critical: Option<Bytes>, more :|
          (critical.Some? ==> Der.Fits32(critical.value)) && after == KeyValue(critical, more, id);
        assert NamesKey(ext, oid, critical, more, id);
      }
    }
    forall oid, critical, more | NamesKey(ext, oid, critical, more, id)
      ensures IsSkiExtension(ext) && SkiValue(Der.Take(ext, Der.OID).value.1) == Some(id)
    {
      Der.TakeExact(ext, Der.OID, oid, KeyValue(critical, more, id));
      KeyValueReads(critical, more, id);
    }
  }

  /** The first subjectKeyIdentifier among these extensions names this key. */
  ghost predicate FirstKey(extensions: Bytes, id: Bytes) {
    exists items, rest :: KeyAfter(extensions, items, rest, id)
  }

  ghost predicate KeyAfter(extensions: Bytes, items: seq<Item>, rest: Bytes, id: Bytes) {
    && Starts(extensions, items, rest) && (forall i :: 0 <= i < |items| ==> !IsSki(items[i]))
    && Der.Next(rest).Some? && Der.Next(rest).value.tag == Der.SEQUENCE
    && exists oid, critical, more :: NamesKey(Der.Next(rest).value.body, oid, critical, more, id)
  }

  lemma {:induction false} KeyFound(extensions: Bytes, items: seq<Item>, rest: Bytes, id: Bytes)
    requires KeyAfter(extensions, items, rest, id)
    ensures FindSkiExtension(extensions) == Some(id)
    decreases |items|
  {
    if items == [] {
      assert extensions == rest;
      NamesKeyExact(Der.Next(rest).value.body, id);
    } else {
      StartsOne(extensions, items, rest);
      assert !IsSki(items[0]);
      KeyFound(EncodeItems(items[1..]) + rest, items[1..], rest, id);
    }
  }

  lemma {:induction false} KeySought(extensions: Bytes) returns (items: seq<Item>, rest: Bytes)
    requires FindSkiExtension(extensions).Some?
    ensures KeyAfter(extensions, items, rest, FindSkiExtension(extensions).value)
    decreases |extensions|
  {
    var t := Der.Next(extensions).value;
    if IsSki(Item(t.tag, t.body)) {
      items, rest := [], extensions;
      StartsNone(extensions);
      NamesKeyExact(t.body, FindSkiExtension(extensions).value);
    } else {
      Der.NextShrinks(extensions);
      var others: seq<Item>;
      others, rest := KeySought(t.rest);
      items := [Item(t.tag, t.body)] + others;
      StartsMore(extensions, t, others, rest);
    }
  }

  /**
   `find_ski` finds a key identifier exactly when the bytes after the key hold extensions
   under the first [3] and the first subjectKeyIdentifier among them names it; so it finds
   none exactly when there is no [3] or no such extension, or the first one does not read.
   */
  lemma FindSkiExact(afterSpki: Bytes, id: Bytes)
    ensures FindSki(afterSpki) == Some(id)
            <==> exists extensions :: HasExtensions(afterSpki, extensions) && FirstKey(extensions, id)
  {
    if FindSki(afterSpki) == Some(id) {
      var extensions := FindExtensions(afterSpki).value;
      var items, rest := ExtensionsSought(afterSpki);
      var items', rest' := KeySought(extensions);
      assert HasExtensions(afterSpki, extensions) && FirstKey(extensions, id);
    }
    forall extensions | HasExtensions(afterSpki, extensions) && FirstKey(extensions, id)
      ensures FindSki(afterSpki) == Some(id)
    {
      var items, rest :| ExtensionsAfter(afterSpki, items, rest, extensions);
      var items', rest' :| KeyAfter(extensions, items', rest', id);
      ExtensionsFound(afterSpki, items, rest, extensions);
      KeyFound(extensions, items', rest', id);
    }
  }

  // --------------------------------------------------- the signer and its certificates

  /** The certificates of the last [0] among the elements, or those there were before. */
  function LastCertificates(items: seq<Item>, certs: seq<Bytes>): Parsed<seq<Bytes>> {
    if items == [] then Ok(certs)
    else if items[0].tag == CONTEXT_0 then
      var collected :- CollectCertificates(items[0].body);
      LastCertificates(items[1..], collected)
    else LastCertificates(items[1..], certs)
  }

  lemma {:induction false} LastCertificatesExact(items: seq<Item>, certs: seq<Bytes>, i: nat)
    requires i < |items| && items[i].tag == CONTEXT_0 && (forall j :: i < j < |items| ==> items[j].tag != CONTEXT_0)
    requires LastCertificates(items, certs).Ok?
    ensures CollectCertificates(items[i].body) == LastCertificates(items, certs)
  {
    var others := items[1..];
    if i == 0 {
      assert forall j :: 0 <= j < |others| ==> others[j] == items[j + 1];
      NoCertificates(others, CollectCertificates(items[0].body).value);
    } else {
      assert others[i - 1] == items[i];
      assert forall j :: i - 1 < j < |others| ==> others[j] == items[j + 1];
      LastCertificatesExact(others,
        if items[0].tag == CONTEXT_0 then CollectCertificates(items[0].body).value else certs, i - 1);
    }
  }

  lemma {:induction false} NoCertificates(items: seq<Item>, certs: seq<Bytes>)
    requires NoneTagged(items, CONTEXT_0)
    ensures LastCertificates(items, certs) == Ok(certs)
  {
    if items != [] {
      assert items[0].tag != CONTEXT_0;
      assert forall i :: 0 <= i < |items| - 1 ==> items[1..][i] == items[i + 1];
      NoCertificates(items[1..], certs);
    }
  }

  /** Only certificates and CRLs, then the signers' set, whatever follows it. */
  ghost predicate SignersAfter(tail: Bytes, items: seq<Item>, rest: Bytes, signers: Bytes) {
    && Starts(tail, items, rest)
    && (forall i :: 0 <= i < |items| ==> items[i].tag == CONTEXT_0 || items[i].tag == CONTEXT_1)
    && Der.Next(rest).Some? && Der.Next(rest).value.tag == Der.SET && Der.Next(rest).value.body == signers
  }

  /** The signer of the set, and its certificate, selected from `certs`. */
  predicate Selects(ec: EllipticCurves, signers: Bytes, certs: seq<Bytes>, signer: SignerInfo, cert: Bytes) {
    ParseSignerInfo(signers) == Ok(signer) && SelectDsc(ec, certs, signer.sid) == Ok(cert)
  }

  ghost predicate SignedBy(ec: EllipticCurves, tail: Bytes, certs: seq<Bytes>, signer: SignerInfo, cert: Bytes,
                           items: seq<Item>, rest: Bytes, signers: Bytes) {
    && SignersAfter(tail, items, rest, signers)
    && LastCertificates(items, certs).Ok?
    && Selects(ec, signers, LastCertificates(items, certs).value, signer, cert)
  }

  lemma {:induction false} SignerFound(ec: EllipticCurves, tail: Bytes, certs: seq<Bytes>, signer: SignerInfo, cert: Bytes,
                                       items: seq<Item>, rest: Bytes, signers: Bytes)
    requires SignedBy(ec, tail, certs, signer, cert, items, rest, signers)
    ensures ScanSigned(ec, tail, certs) == Ok((signer, cert))
    decreases |items|
  {
    if items == [] {
      assert tail == rest;
    } else {
      StartsOne(tail, items, rest);
      var next := EncodeItems(items[1..]) + rest;
      assert items[0].tag == CONTEXT_0 || items[0].tag == CONTEXT_1;
      assert forall i :: 0 <= i < |items| - 1 ==> items[1..][i] == items[i + 1];
      SignerFound(ec, next, if items[0].tag == CONTEXT_0 then CollectCertificates(items[0].body).value else certs,
                  signer, cert, items[1..], rest, signers);
    }
  }

  lemma {:induction false} SignerSought(ec: EllipticCurves, tail: Bytes, certs: seq<Bytes>)
    returns (items: seq<Item>, rest: Bytes, signers: Bytes)
    requires ScanSigned(ec, tail, certs).Ok?
    ensures var (signer, cert) := ScanSigned(ec, tail, certs).value;
            SignedBy(ec, tail, certs, signer, cert, items, rest, signers)
    decreases |tail|
  {
    var t := Der.Next(tail).value;
    Der.NextShrinks(tail);
    if t.tag == Der.SET {
      items, rest, signers := [], tail, t.body;
      StartsNone(tail);
    } else {
      var others: seq<Item>;
      others, rest, signers :=
        SignerSought(ec, t.rest, if t.tag == CONTEXT_0 then CollectCertificates(t.body).value else certs);
      items := [Item(t.tag, t.body)] + others;
      StartsMore(tail, t, others, rest);
      assert items[1..] == others;
      assert forall i :: 1 <= i < |items| ==> items[i] == others[i - 1];
    }
  }

  /**
   The tail of SignedData yields a signer and a certificate exactly when it is
   certificates and CRLs up to the first SET, the SET's contents parse to the signer, and
   the certificate is the one selected from the last certificates before that SET.
   */
  lemma ScanSignedExact(ec: EllipticCurves, tail: Bytes, signer: SignerInfo, cert: Bytes)
    ensures ScanSigned(ec, tail, []) == Ok((signer, cert))
            <==> exists items, rest, signers :: SignedBy(ec, tail, [], signer, cert, items, rest, signers)
  {
    if ScanSigned(ec, tail, []) == Ok((signer, cert)) {
      var items, rest, signers := SignerSought(ec, tail, []);
    }
    forall items, rest, signers | SignedBy(ec, tail, [], signer, cert, items, rest, signers)
      ensures ScanSigned(ec, tail, []) == Ok((signer, cert))
    {
      SignerFound(ec, tail, [], signer, cert, items, rest, signers);
    }
  }
}
