/** The strict DER reader, and the length writer that is its inverse. */
module Der {
  import opened Modular
  import opened Wrappers
  import opened ByteStrings

  const INTEGER: Byte := 0x02
  const BIT_STRING: Byte := 0x03
  const OCTET_STRING: Byte := 0x04
  const OID: Byte := 0x06
  const SEQUENCE: Byte := 0x30
  const SET: Byte := 0x31

  /** One element: its tag, its contents, and what follows it. */
  datatype Tlv = Tlv(tag: Byte, body: Bytes, rest: Bytes)

  function Split(tag: Byte, len: nat, after: Bytes): Option<Tlv> {
    if |after| < len then None else Some(Tlv(tag, after[..len], after[len..]))
  }

  function Next(input: Bytes): Option<Tlv> {
    if |input| < 2 then None
    else
      var first, after := input[1], input[2..];
      if first < 0x80 then Split(input[0], first, after)
      else
        var n := first - 0x80;
        if n == 0 || n > 4 || |after| < n then None
        else if after[0] == 0 then None
        else
          var len := Nat(after[..n]);
          if len < 0x80 then None else Split(input[0], len, after[n..])
  }

  /** `next` as it runs: the long form is accumulated byte by byte, with checked arithmetic. */
  method ReadNext(input: Bytes, usizeMax: nat) returns (r: Option<Tlv>)
    requires usizeMax >= 0xFFFF_FFFF
    ensures r == Next(input)
  {
    if |input| < 2 { return None; }
    var first, after := input[1], input[2..];
    if first < 0x80 {
      return Split(input[0], first, after);
    }
    var n := first - 0x80;
    if n == 0 || n > 4 || |after| < n || after[0] == 0 { return None; }
    var lenBytes := after[..n];
    var len := 0;
    for i := 0 to n
      invariant len == Nat(lenBytes[..i])
    {
      assert lenBytes[..i + 1][..i] == lenBytes[..i];
      NatBound(lenBytes[..i + 1]);
      PowMonotone(256, i + 1, 4);
      assert Pow(256, 4) == 0x1_0000_0000;
      if len * 256 > usizeMax || len * 256 + lenBytes[i] > usizeMax { return None; }
      len := len * 256 + lenBytes[i];
    }
    assert lenBytes[..n] == lenBytes;
    if len < 0x80 { return None; }
    r := Split(input[0], len, after[n..]);
  }

  /** The next element, if it is tagged `tag`: its contents and the rest. */
  function Take(input: Bytes, tag: Byte): Option<(Bytes, Bytes)> {
    match Next(input)
    case None => None
    case Some(t) => if t.tag == tag then Some((t.body, t.rest)) else None
  }

  /** Contents of the one element that is the whole input. */
  function Expect(input: Bytes, tag: Byte): Option<Bytes> {
    match Next(input)
    case None => None
    case Some(t) => if t.tag == tag && t.rest == [] then Some(t.body) else None
  }

  function BitStringBytes(contents: Bytes): Option<Bytes> {
    if contents == [] || contents[0] != 0 then None else Some(contents[1..])
  }

  // ------------------------------------------------------------------ canonicity

  /** The length octets of section 10.1 of ITU-T X.690: definite, in as few octets as possible. */
  function LengthOctets(len: nat): Bytes
    requires len < 0x1_0000_0000
  {
    if len < 0x80 then [len]
    else
      MinimalLength(len, 4);
      assert Pow(256, 4) == 0x1_0000_0000;
      [0x80 + |Minimal(len)|] + Minimal(len)
  }

  /** Contents short enough for a length of four bytes. */
  predicate Fits32(body: Bytes) {
    |body| < 0x1_0000_0000
  }

  /** The DER encoding of an element. */
  function Canonical(tag: Byte, body: Bytes): Bytes
    requires |body| < 0x1_0000_0000
  {
    [tag] + LengthOctets(|body|) + body
  }

  /** `push_len`, which stops at three length octets and truncates beyond them. */
  function PushLen(len: nat): Bytes {
    if len < 0x80 then [len]
    else if len < 0x100 then [0x81, len]
    else if len < 0x1_0000 then [0x82, len / 256, len % 256]
    else [0x83, len / 65536 % 256, len / 256 % 256, len % 256]
  }

  /** An element as the source writes it. */
  function Element(tag: Byte, body: Bytes): Bytes {
    [tag] + PushLen(|body|) + body
  }

  lemma SplitExact(tag: Byte, len: nat, after: Bytes, t: Tlv)
    ensures Split(tag, len, after) == Some(t)
            <==> t.tag == tag && |t.body| == len && after == t.body + t.rest
  {
    if |after| >= len {
      assert after == after[..len] + after[len..];
    }
    if after == t.body + t.rest && |t.body| == len {
      assert after[..len] == t.body && after[len..] == t.rest;
    }
  }

  lemma ReadsCanonical(input: Bytes, t: Tlv)
    requires Next(input) == Some(t)
    ensures |t.body| < 0x1_0000_0000
    ensures input == Canonical(t.tag, t.body) + t.rest
  {
    var first, after := input[1], input[2..];
    assert input == [input[0], first] + after;
    if first < 0x80 {
      SplitExact(input[0], first, after, t);
      Regrouped(t.tag, first, [], t.body, t.rest);
    } else {
      ReadsLong(input[0], first, after, t);
      Regrouped(t.tag, first, after[..first - 0x80], t.body, t.rest);
    }
  }

  lemma ReadsLong(tag: Byte, first: Byte, after: Bytes, t: Tlv)
    requires first >= 0x80 && Next([tag, first] + after) == Some(t)
    ensures var n := first - 0x80;
            && n <= |after| && t.tag == tag && after == after[..n] + (t.body + t.rest)
            && 0x80 <= |t.body| < 0x1_0000_0000 && LengthOctets(|t.body|) == [first] + after[..n]
  {
    var n := first - 0x80;
    assert ([tag, first] + after)[2..] == after;
    var l := after[..n];
    SplitExact(tag, Nat(l), after[n..], t);
    LengthBound(l);
    MinimalOfNat(l);
  }

  lemma LengthBound(l: Bytes)
    requires |l| <= 4
    ensures Nat(l) < 0x1_0000_0000
  {
    assert Pow(256, 4) == 0x1_0000_0000;
    NatBound(l);
    PowMonotone(256, |l|, 4);
  }

  lemma Regrouped(tag: Byte, first: Byte, l: Bytes, body: Bytes, rest: Bytes)
    ensures [tag] + ([first] + l) + body + rest == [tag, first] + (l + (body + rest))
    ensures [tag] + [first] + body + rest == [tag, first] + (body + rest)
  {
  }

  lemma MinimalLengthOctets(len: nat)
    requires 0x80 <= len < 0x1_0000_0000
    ensures var l := Minimal(len);
            0 < |l| <= 4 && l[0] != 0 && Nat(l) == len
  {
    assert Pow(256, 4) == 0x1_0000_0000;
    MinimalLength(len, 4);
    MinimalLeadingByte(len);
    NatOfMinimal(len);
  }

  lemma CanonicalReads(t: Tlv)
    requires |t.body| < 0x1_0000_0000
    ensures Next(Canonical(t.tag, t.body) + t.rest) == Some(t)
  {
    var len := |t.body|;
    var input := Canonical(t.tag, t.body) + t.rest;
    if len < 0x80 {
      assert input[2..] == t.body + t.rest;
      SplitExact(t.tag, len, input[2..], t);
    } else {
      var l := Minimal(len);
      MinimalLengthOctets(len);
      var after := input[2..];
      assert after == l + (t.body + t.rest);
      assert after[..|l|] == l && after[|l|..] == t.body + t.rest;
      assert after[0] == l[0];
      SplitExact(t.tag, len, after[|l|..], t);
    }
  }

  /**
   `next` accepts exactly the DER encodings: an input yields `t` if and only if it is
   t's tag, the minimal length octets, its contents and its rest.
   */
  lemma NextExact(input: Bytes, t: Tlv)
    ensures Next(input) == Some(t)
            <==> |t.body| < 0x1_0000_0000
                 && input == Canonical(t.tag, t.body) + t.rest
  {
    if Next(input) == Some(t) { ReadsCanonical(input, t); }
    if |t.body| < 0x1_0000_0000 { CanonicalReads(t); }
  }

  lemma TakeExact(input: Bytes, tag: Byte, body: Bytes, rest: Bytes)
    ensures Take(input, tag) == Some((body, rest))
            <==> |body| < 0x1_0000_0000 && input == Canonical(tag, body) + rest
  {
    NextExact(input, Tlv(tag, body, rest));
  }

  lemma ExpectExact(input: Bytes, tag: Byte, body: Bytes)
    ensures Expect(input, tag) == Some(body)
            <==> |body| < 0x1_0000_0000 && input == Canonical(tag, body)
  {
    NextExact(input, Tlv(tag, body, []));
    if |body| < 0x1_0000_0000 { assert Canonical(tag, body) + [] == Canonical(tag, body); }
  }

  /** No two inputs read as the same element and rest. */
  lemma NextInjective(a: Bytes, b: Bytes)
    requires Next(a).Some? && Next(a) == Next(b)
    ensures a == b
  {
    NextExact(a, Next(a).value);
    NextExact(b, Next(b).value);
  }

  /** `push_len` writes the DER length for contents under 2²⁴ bytes, and for no others. */
  lemma PushLenExact(len: nat)
    requires len < 0x1_0000_0000
    ensures PushLen(len) == LengthOctets(len) <==> len < 0x100_0000
  {
    assert Pow(256, 3) == 0x100_0000;
    if len >= 0x80 {
      MinimalLength(len, 3);
      if len >= 0x100_0000 {
        assert |LengthOctets(len)| > 4;
      } else if len >= 0x1_0000 {
        assert Minimal(len) == Minimal(len / 256) + [len % 256];
        assert Minimal(len / 256) == Minimal(len / 256 / 256) + [len / 256 % 256];
        assert Minimal(len / 256 / 256) == [len / 256 / 256];
      } else if len >= 0x100 {
        assert Minimal(len / 256) == [len / 256];
      }
    }
  }

  /** What the source writes reads back as itself exactly when the contents are under 2²⁴ bytes. */
  lemma ReadsBack(tag: Byte, body: Bytes, rest: Bytes)
    ensures Next(Element(tag, body) + rest) == Some(Tlv(tag, body, rest)) <==> |body| < 0x100_0000
  {
    var t := Tlv(tag, body, rest);
    NextExact(Element(tag, body) + rest, t);
    if |body| < 0x1_0000_0000 {
      PushLenExact(|body|);
      if |body| >= 0x100_0000 { LongLength(|body|); }
    }
  }

  lemma LongLength(len: nat)
    requires 0x100_0000 <= len < 0x1_0000_0000
    ensures |PushLen(len)| == 4 && |LengthOctets(len)| == 5
  {
    assert Pow(256, 3) == 0x100_0000;
    assert Pow(256, 4) == 0x1_0000_0000;
    MinimalLength(len, 3);
    MinimalLength(len, 4);
  }

  /** What is read re-encodes to the identical input under the same bound, and not beyond it. */
  lemma ReEncodes(input: Bytes)
    requires Next(input).Some?
    ensures var t := Next(input).value;
            input == Element(t.tag, t.body) + t.rest <==> |t.body| < 0x100_0000
  {
    var t := Next(input).value;
    NextExact(input, t);
    ReadsBack(t.tag, t.body, t.rest);
    PushLenExact(|t.body|);
  }

  /** Even so, no two contents are ever written alike under one tag. */
  lemma ElementInjective(tag: Byte, a: Bytes, b: Bytes)
    requires Element(tag, a) == Element(tag, b)
    ensures a == b
  {
    var e := Element(tag, a);
    assert e[1] == PushLen(|a|)[0] == PushLen(|b|)[0];
    assert |PushLen(|a|)| == |PushLen(|b|)|;
    assert a == e[1 + |PushLen(|a|)|..] && b == e[1 + |PushLen(|b|)|..];
  }

  /** A reader always makes progress. */
  lemma NextShrinks(input: Bytes)
    requires Next(input).Some?
    ensures |Next(input).value.rest| + |Next(input).value.body| + 2 <= |input|
  {
  }

  // ------------------------------------------------------------------------ integers

  /** The contents DER prescribes for a non-negative INTEGER. */
  function Uint(v: nat): Bytes {
    if Minimal(v)[0] >= 0x80 then [0x00] + Minimal(v) else Minimal(v)
  }

  /** Not empty, not negative, and no leading zero that could be left out. */
  predicate IsUint(contents: Bytes) {
    && contents != [] && contents[0] < 0x80
    && (|contents| >= 2 && contents[0] == 0 ==> contents[1] >= 0x80)
  }

  /** Contents are those DER prescribes for the number they spell exactly when they meet these conditions. */
  lemma UintExact(contents: Bytes)
    ensures contents == Uint(Nat(contents)) <==> IsUint(contents)
  {
    if IsUint(contents) {
      if |contents| >= 2 && contents[0] == 0 {
        assert contents == Zeros(1) + contents[1..];
        NatLeadingZeros(1, contents[1..]);
        MinimalOfNat(contents[1..]);
      } else if contents[0] == 0 {
        assert contents == [0] && Nat([0]) == 0;
      } else {
        MinimalOfNat(contents);
      }
    }
    UintIsUint(Nat(contents));
  }

  lemma UintIsUint(v: nat)
    ensures IsUint(Uint(v)) && Nat(Uint(v)) == v
  {
    MinimalLeadingByte(v);
    NatOfMinimal(v);
    NatLeadingZeros(1, Minimal(v));
    assert Zeros(1) + Minimal(v) == [0x00] + Minimal(v);
  }

  // ------------------------------------------------------------ object identifiers

  const U64_MAX: nat := 0xFFFF_FFFF_FFFF_FFFF

  /**
   The base-128 subidentifiers of `s`, continuing one whose value so far is `value`
   unless `opening`.
   */
  function Subidentifiers(s: Bytes, value: nat, opening: bool): Option<seq<nat>> {
    if s == [] then (if opening then Some([]) else None)
    else
      var b := s[0];
      var v := value * 128 + b % 128;
      if opening && b == 0x80 then None
      else if v > U64_MAX then None
      else if b < 0x80 then
        var tail :- Subidentifiers(s[1..], 0, true);
        Some([v] + tail)
      else Subidentifiers(s[1..], v, false)
  }

  function OidArcs(contents: Bytes): Option<seq<nat>> {
    var subids :- Subidentifiers(contents, 0, true);
    SplitFirst(subids)
  }

  function SplitFirst(subids: seq<nat>): Option<seq<nat>> {
    if subids == [] then None
    else
      var first := subids[0];
      Some((if first < 80 then [first / 40, first % 40] else [2, first - 80]) + subids[1..])
  }

  /** `oid_arcs` as it runs. */
  method ReadOid(contents: Bytes) returns (r: Option<seq<nat>>)
    ensures r == OidArcs(contents)
  {
    var subids: seq<nat> := [];
    var value: nat, pending, opening := 0, false, true;
    ghost var whole := Subidentifiers(contents, 0, true);
    PrependNone(whole);
    assert contents[0..] == contents;
    for i := 0 to |contents|
      invariant pending == !opening
      invariant whole == Prepend(subids, Subidentifiers(contents[i..], value, opening))
    {
      var b := contents[i];
      assert contents[i..][1..] == contents[i + 1..];
      if opening && b == 0x80 { return None; }
      opening := b < 0x80;
      if value * 128 > U64_MAX || value * 128 + b % 128 > U64_MAX { return None; }
      value := value * 128 + b % 128;
      if b < 0x80 {
        PrependOne(subids, value, Subidentifiers(contents[i + 1..], 0, true));
        subids := subids + [value];
        value := 0;
        pending := false;
      } else {
        pending := true;
      }
    }
    if pending { return None; }
    assert subids + [] == subids;
    r := SplitFirst(subids);
  }

  ghost function Prepend(head: seq<nat>, tail: Option<seq<nat>>): Option<seq<nat>> {
    match tail
    case None => None
    case Some(t) => Some(head + t)
  }

  lemma PrependNone(tail: Option<seq<nat>>)
    ensures Prepend([], tail) == tail
  {
    if tail.Some? { assert [] + tail.value == tail.value; }
  }

  lemma PrependOne(head: seq<nat>, v: nat, tail: Option<seq<nat>>)
    ensures Prepend(head, Prepend([v], tail)) == Prepend(head + [v], tail)
  {
    if tail.Some? { assert head + ([v] + tail.value) == head + [v] + tail.value; }
  }

  /** All base-128 groups of v carrying the continuation bit; none for 0. */
  function Continued(v: nat): Bytes {
    if v == 0 then [] else Continued(v / 128) + [0x80 + v % 128]
  }

  /** The minimal base-128 subidentifier of section 8.19.2 of ITU-T X.690. */
  function Subidentifier(v: nat): Bytes {
    Continued(v / 128) + [v % 128]
  }

  function EncodeSubidentifiers(subids: seq<nat>): Bytes {
    if subids == [] then [] else Subidentifier(subids[0]) + EncodeSubidentifiers(subids[1..])
  }

  predicate Fits64(subids: seq<nat>) {
    forall i :: 0 <= i < |subids| ==> subids[i] <= U64_MAX
  }

  /** Object identifiers whose packed subidentifiers fit 64 bits (section 8.19.4). */
  predicate ValidArcs(arcs: seq<nat>) {
    && |arcs| >= 2
    && arcs[0] <= 2
    && (arcs[0] < 2 ==> arcs[1] < 40)
    && Fits64([40 * arcs[0] + arcs[1]] + arcs[2..])
  }

  function EncodeOid(arcs: seq<nat>): Bytes
    requires |arcs| >= 2
  {
    EncodeSubidentifiers([40 * arcs[0] + arcs[1]] + arcs[2..])
  }

  lemma {:induction false} ReadContinued(v: nat, tail: Bytes)
    requires 0 < v <= U64_MAX
    ensures Subidentifiers(Continued(v) + tail, 0, true) == Subidentifiers(tail, v, false)
  {
    var high, low: Byte := v / 128, v % 128;
    var last: Byte := 0x80 + low;
    if high > 0 { ReadContinued(high, [last] + tail); }
    assert Continued(v) + tail == Continued(high) + ([last] + tail);
    assert high == 0 ==> Continued(high) + ([last] + tail) == [last] + tail;
    ReadMore(high, low, tail);
  }

  lemma ReadMore(high: nat, low: Byte, tail: Bytes)
    requires low < 128 && 0 < high * 128 + low <= U64_MAX
    ensures Subidentifiers([0x80 + low] + tail, high, high == 0) == Subidentifiers(tail, high * 128 + low, false)
  {
    assert ([0x80 + low] + tail)[1..] == tail;
    assert (0x80 + low) % 128 == low;
  }

  lemma {:induction false} ReadSubidentifiers(subids: seq<nat>)
    requires Fits64(subids)
    ensures Subidentifiers(EncodeSubidentifiers(subids), 0, true) == Some(subids)
  {
    if subids != [] {
      ReadSubidentifiers(subids[1..]);
      ReadSubidentifier(subids[0], EncodeSubidentifiers(subids[1..]));
      assert [subids[0]] + subids[1..] == subids;
    }
  }

  lemma ReadSubidentifier(v: nat, tail: Bytes)
    requires v <= U64_MAX && Subidentifiers(tail, 0, true).Some?
    ensures Subidentifiers(Subidentifier(v) + tail, 0, true)
            == Some([v] + Subidentifiers(tail, 0, true).value)
  {
    var last: Byte := v % 128;
    var high := v / 128;
    assert v == high * 128 + last;
    assert Subidentifier(v) + tail == Continued(high) + ([last] + tail);
    if high > 0 { ReadContinued(high, [last] + tail); }
    assert high == 0 ==> Continued(high) + ([last] + tail) == [last] + tail;
    ReadLast(high, last, tail);
  }

  lemma ReadLast(high: nat, last: Byte, tail: Bytes)
    requires last < 128 && high * 128 + last <= U64_MAX && Subidentifiers(tail, 0, true).Some?
    ensures Subidentifiers([last] + tail, high, high == 0)
            == Some([high * 128 + last] + Subidentifiers(tail, 0, true).value)
  {
    assert ([last] + tail)[1..] == tail;
    assert high * 128 + last % 128 == high * 128 + last;
  }

  lemma NextByte(before: Bytes, s: Bytes)
    requires s != []
    ensures before + [s[0]] + s[1..] == before + s
  {
  }

  lemma {:induction false} WriteSubidentifiers(s: Bytes, value: nat, opening: bool)
    requires opening <==> value == 0
    requires Subidentifiers(s, value, opening).Some?
    ensures var subids := Subidentifiers(s, value, opening).value;
            && Fits64(subids) && (!opening ==> subids != [])
            && EncodeSubidentifiers(subids) == Continued(value) + s
  {
    if s != [] {
      var b := s[0];
      var v := value * 128 + b % 128;
      var subids := Subidentifiers(s, value, opening).value;
      assert v / 128 == value && v % 128 == b % 128;
      if b < 0x80 {
        WriteSubidentifiers(s[1..], 0, true);
        assert subids[0] == v && subids[1..] == Subidentifiers(s[1..], 0, true).value;
        NextByte(Continued(value), s);
      } else {
        WriteSubidentifiers(s[1..], v, false);
        assert Continued(v) == Continued(value) + [b];
        NextByte(Continued(value), s);
      }
    }
  }

  /** `oid_arcs` is a bijection from the strings it accepts to the valid arc lists. */
  lemma OidExact(s: Bytes, arcs: seq<nat>)
    ensures OidArcs(s) == Some(arcs) <==> ValidArcs(arcs) && s == EncodeOid(arcs)
  {
    if OidArcs(s) == Some(arcs) {
      WriteSubidentifiers(s, 0, true);
      SplitFirstExact(Subidentifiers(s, 0, true).value, arcs);
    }
    if ValidArcs(arcs) && s == EncodeOid(arcs) {
      var subids := [40 * arcs[0] + arcs[1]] + arcs[2..];
      ReadSubidentifiers(subids);
      SplitFirstExact(subids, arcs);
    }
  }

  /** The first subidentifier is 40 times the first arc plus the second, and says which is which. */
  lemma SplitFirstExact(subids: seq<nat>, arcs: seq<nat>)
    requires Fits64(subids)
    ensures SplitFirst(subids) == Some(arcs)
            <==> ValidArcs(arcs) && subids == [40 * arcs[0] + arcs[1]] + arcs[2..]
  {
    if SplitFirst(subids) == Some(arcs) {
      assert arcs[2..] == subids[1..];
    }
    if ValidArcs(arcs) && subids == [40 * arcs[0] + arcs[1]] + arcs[2..] {
      assert arcs == [arcs[0], arcs[1]] + arcs[2..];
      assert subids[1..] == arcs[2..];
    }
  }
}
