/** The binary definitions of PAN Secure QR codes: a cursor, a parser and a builder. */
module PanCodec {
  import opened Wrappers
  import opened ByteStrings
  import Modular

  datatype PanQrError =
    | UnexpectedEof(field: string)
    | BadMagic(field: string, expected: Bytes, found: Bytes)
    | TrailingData(field: string)

  type U16 = n: int | 0 <= n < 0x1_0000
  type U32 = n: int | 0 <= n < 0x1_0000_0000

  /** What a reader returns: a value and the bytes after it. */
  type Read<T> = Result<(T, Bytes), PanQrError>

  function Take(s: Bytes, n: nat, field: string): Read<Bytes> {
    if |s| < n then Err(UnexpectedEof(field)) else Ok((s[..n], s[n..]))
  }

  function TakeU8(s: Bytes, field: string): Read<Byte> {
    if |s| < 1 then Err(UnexpectedEof(field)) else Ok((s[0], s[1..]))
  }

  function TakeU16(s: Bytes, field: string): Read<U16> {
    if |s| < 2 then Err(UnexpectedEof(field)) else Ok((s[0] as int * 0x100 + s[1], s[2..]))
  }

  function TakeU32(s: Bytes, field: string): Read<U32> {
    if |s| < 4 then Err(UnexpectedEof(field))
    else Ok((s[0] as int * 0x100_0000 + s[1] as int * 0x1_0000 + s[2] as int * 0x100 + s[3], s[4..]))
  }

  function TakeMagic(s: Bytes, magic: Bytes, field: string): Read<Bytes> {
    var (found, rest) :- Take(s, |magic|, field);
    if found != magic then Err(BadMagic(field, magic, found)) else Ok((found, rest))
  }

  function PutU16(n: U16): (s: Bytes)
    ensures |s| == 2
  {
    [n / 0x100, n % 0x100]
  }

  function PutU32(n: U32): (s: Bytes)
    ensures |s| == 4
  {
    [n / 0x100_0000, n / 0x1_0000 % 0x100, n / 0x100 % 0x100, n % 0x100]
  }

  /** Numbers are written highest byte first. */
  lemma BigEndian(n: U16, m: U32)
    ensures PutU16(n) == Fixed(n, 2) && PutU32(m) == Fixed(m, 4)
  {
    assert Fixed(n, 2) == Fixed(n / 256, 1) + [n % 256];
    assert Fixed(n / 256, 1) == Fixed(n / 256 / 256, 0) + [n / 256 % 256];
    BigEndian32(m);
  }

  lemma BigEndian32(m: U32)
    ensures PutU32(m) == Fixed(m, 4)
  {
    var m1, m2, m3 := m / 256, m / 256 / 256, m / 256 / 256 / 256;
    assert Fixed(m3, 1) == Fixed(m3 / 256, 0) + [m3 % 256];
    assert Fixed(m2, 2) == Fixed(m3, 1) + [m2 % 256];
    assert Fixed(m1, 3) == Fixed(m2, 2) + [m1 % 256];
    assert m2 == m / 0x1_0000 && m3 == m / 0x100_0000;
  }

  lemma TakeExact(s: Bytes, n: nat, field: string, x: Bytes, rest: Bytes)
    ensures Take(s, n, field) == Ok((x, rest)) <==> |x| == n && s == x + rest
  {
    if |s| >= n { assert s == s[..n] + s[n..]; }
    if |x| == n && s == x + rest { assert s[..n] == x && s[n..] == rest; }
  }

  lemma TakeU8Exact(s: Bytes, field: string, b: Byte, rest: Bytes)
    ensures TakeU8(s, field) == Ok((b, rest)) <==> s == [b] + rest
  {
    if |s| >= 1 { assert s == [s[0]] + s[1..]; }
  }

  lemma TakeU16Exact(s: Bytes, field: string, n: U16, rest: Bytes)
    ensures TakeU16(s, field) == Ok((n, rest)) <==> s == PutU16(n) + rest
  {
    if |s| >= 2 { assert s == [s[0], s[1]] + s[2..]; }
  }

  lemma TakeU32Exact(s: Bytes, field: string, n: U32, rest: Bytes)
    ensures TakeU32(s, field) == Ok((n, rest)) <==> s == PutU32(n) + rest
  {
    if |s| >= 4 {
      Bytes32(s[0], s[1], s[2], s[3]);
      assert s == [s[0], s[1], s[2], s[3]] + s[4..];
    }
    if s == PutU32(n) + rest {
      Recombine32(n);
      assert s[4..] == rest;
    }
  }

  lemma Bytes32(a: Byte, b: Byte, c: Byte, d: Byte)
    ensures PutU32(a as int * 0x100_0000 + b as int * 0x1_0000 + c as int * 0x100 + d) == [a, b, c, d]
  {
    var n := a as int * 0x100_0000 + b as int * 0x1_0000 + c as int * 0x100 + d;
    assert n / 0x100 == a as int * 0x1_0000 + b as int * 0x100 + c;
    assert n / 0x1_0000 == a as int * 0x100 + b;
  }

  lemma Recombine32(n: U32)
    ensures n == n / 0x100_0000 * 0x100_0000 + n / 0x1_0000 % 0x100 * 0x1_0000 + n / 0x100 % 0x100 * 0x100 + n % 0x100
  {
    assert n / 0x1_0000 == n / 0x100 / 0x100 && n / 0x100_0000 == n / 0x1_0000 / 0x100;
  }

  // --------------------------------------------------------------------- inner blocks

  datatype Metadata = Metadata(raw: Byte, controlType: nat, exceedLengthFlag: bool, characterSet: nat)

  /** Bit n of a byte. */
  function BitOf(byte: Byte, n: nat): (bit: nat)
    ensures bit < 2
  {
    ShiftRight(byte, n) % 2
  }

  /** The bit stream is read lowest bit first; each field is big-endian within itself. */
  function FromByte(byte: Byte): Metadata {
    Metadata(byte,
             4 * BitOf(byte, 0) + 2 * BitOf(byte, 1) + BitOf(byte, 2),
             BitOf(byte, 3) != 0,
             8 * BitOf(byte, 4) + 4 * BitOf(byte, 5) + 2 * BitOf(byte, 6) + BitOf(byte, 7))
  }

  /** The last `len` binary digits of v, the highest first. */
  function HighFirst(v: nat, len: nat): (bits: seq<nat>)
    ensures |bits| == len
  {
    if len == 0 then [] else HighFirst(v / 2, len - 1) + [v % 2]
  }

  /** The number whose binary digits are these, the lowest first. */
  function LowFirst(bits: seq<nat>): nat {
    if bits == [] then 0 else bits[0] + 2 * LowFirst(bits[1..])
  }

  /** The byte that carries a control type, a length flag and a character set. */
  function MetadataByte(controlType: nat, wide: bool, characterSet: nat): nat {
    LowFirst(HighFirst(controlType, 3) + [if wide then 1 else 0] + HighFirst(characterSet, 4))
  }

  predicate WellFormedMetadata(m: Metadata) {
    && m.controlType < 8 && m.characterSet < 16
    && m.raw == MetadataByte(m.controlType, m.exceedLengthFlag, m.characterSet)
  }

  /**
   The fields of a byte are exactly those that, laid out from the lowest bit up and each
   from its highest bit down, make up the byte.
   */
  lemma FromByteExact(byte: Byte, m: Metadata)
    ensures FromByte(byte) == m <==> m.raw == byte && WellFormedMetadata(m)
  {
    if FromByte(byte) == m { FieldsMakeByte(byte); }
    if m.raw == byte && WellFormedMetadata(m) { ByteHasFields(byte, m); }
  }

  lemma FieldsMakeByte(byte: Byte)
    ensures WellFormedMetadata(FromByte(byte))
  {
    EightBits(byte);
    DigitsMakeByte(byte, BitOf(byte, 0), BitOf(byte, 1), BitOf(byte, 2), BitOf(byte, 3),
                   BitOf(byte, 4), BitOf(byte, 5), BitOf(byte, 6), BitOf(byte, 7));
  }

  lemma DigitsMakeByte(byte: Byte, a: nat, b: nat, c: nat, d: nat, e: nat, f: nat, g: nat, h: nat)
    requires a < 2 && b < 2 && c < 2 && d < 2 && e < 2 && f < 2 && g < 2 && h < 2
    requires LowFirst([a, b, c, d] + [e, f, g, h]) == byte
    ensures WellFormedMetadata(Metadata(byte, 4 * a + 2 * b + c, d != 0, 8 * e + 4 * f + 2 * g + h))
  {
    ThreeBits(a, b, c);
    FourBits(e, f, g, h);
    assert [a, b, c] + [d] + [e, f, g, h] == [a, b, c, d] + [e, f, g, h];
  }

  lemma EightBits(byte: Byte)
    ensures LowFirst([BitOf(byte, 0), BitOf(byte, 1), BitOf(byte, 2), BitOf(byte, 3)]
                     + [BitOf(byte, 4), BitOf(byte, 5), BitOf(byte, 6), BitOf(byte, 7)]) == byte
  {
    assert Modular.Pow(2, 8) == 256 by { Pow256(1); }
    LowFirstOfBits(byte, 8);
    assert [BitOf(byte, 0), BitOf(byte, 1), BitOf(byte, 2), BitOf(byte, 3)]
        + [BitOf(byte, 4), BitOf(byte, 5), BitOf(byte, 6), BitOf(byte, 7)]
        == seq(8, i requires 0 <= i < 8 => ShiftRight(byte, i) % 2);
  }

  lemma ByteHasFields(byte: Byte, m: Metadata)
    requires m.raw == byte && WellFormedMetadata(m)
    ensures FromByte(byte) == m
  {
    var c, s := HighFirst(m.controlType, 3), HighFirst(m.characterSet, 4);
    var bits := c + [if m.exceedLengthFlag then 1 else 0] + s;
    HighFirstIsBits(m.controlType, 3);
    HighFirstIsBits(m.characterSet, 4);
    forall i | 0 <= i < 8 ensures BitOf(byte, i) == bits[i] { BitOfLowFirst(bits, i); }
    ThreeDigits(m.controlType);
    FourDigits(m.characterSet);
  }

  lemma ThreeBits(a: nat, b: nat, c: nat)
    requires a < 2 && b < 2 && c < 2
    ensures HighFirst(4 * a + 2 * b + c, 3) == [a, b, c]
  {
    HighFirstOf(0, a, 0);
    HighFirstOf(a, b, 1);
    HighFirstOf(2 * a + b, c, 2);
  }

  lemma FourBits(a: nat, b: nat, c: nat, d: nat)
    requires a < 2 && b < 2 && c < 2 && d < 2
    ensures HighFirst(8 * a + 4 * b + 2 * c + d, 4) == [a, b, c, d]
  {
    ThreeBits(a, b, c);
    HighFirstOf(4 * a + 2 * b + c, d, 3);
  }

  lemma HighFirstOf(v: nat, bit: nat, len: nat)
    requires bit < 2
    ensures HighFirst(2 * v + bit, len + 1) == HighFirst(v, len) + [bit]
  {
  }

  lemma ThreeDigits(v: nat)
    requires v < 8
    ensures var c := HighFirst(v, 3);
            4 * c[0] + 2 * c[1] + c[2] == v
  {
    ThreeBits(v / 4, v / 2 % 2, v % 2);
  }

  lemma FourDigits(v: nat)
    requires v < 16
    ensures var s := HighFirst(v, 4);
            8 * s[0] + 4 * s[1] + 2 * s[2] + s[3] == v
  {
    ThreeDigits(v / 2);
    HighFirstOf(v / 2, v % 2, 3);
  }

  predicate AllBits(bits: seq<nat>) {
    forall i :: 0 <= i < |bits| ==> bits[i] < 2
  }

  lemma {:induction false} HighFirstIsBits(v: nat, len: nat)
    ensures AllBits(HighFirst(v, len))
  {
    if len > 0 { HighFirstIsBits(v / 2, len - 1); }
  }

  lemma ShiftOneMore(v: nat, n: nat)
    ensures ShiftRight(v, n + 1) == ShiftRight(v / 2, n)
  {
    Modular.PowPositive(2, n);
    HalvedQuotient(v, v / 2, Modular.Pow(2, n));
  }

  lemma HalvedQuotient(v: nat, h: nat, unit: nat)
    requires unit > 0 && h == v / 2
    ensures v / (2 * unit) == h / unit
  {
    var q, r := h / unit, h % unit;
    assert h == unit * q + r;
    assert v == q * (2 * unit) + (2 * r + v % 2) by { assert 2 * (unit * q) == q * (2 * unit); }
    Modular.QuotientUnique(v, 2 * unit, q, 2 * r + v % 2);
  }

  /** Bit n of the number is digit n. */
  lemma {:induction false} BitOfLowFirst(bits: seq<nat>, n: nat)
    requires AllBits(bits) && n < |bits|
    ensures ShiftRight(LowFirst(bits), n) % 2 == bits[n]
  {
    HalfAndParity(bits[0], LowFirst(bits[1..]));
    if n > 0 {
      ShiftOneMore(LowFirst(bits), n - 1);
      BitOfLowFirst(bits[1..], n - 1);
    }
  }

  /** A number below 2ⁿ is made up of its low n bits. */
  lemma {:induction false} LowFirstOfBits(v: nat, n: nat)
    ensures v < Modular.Pow(2, n) ==> LowFirst(seq(n, i requires 0 <= i < n => ShiftRight(v, i) % 2)) == v
  {
    if n > 0 {
      var bits := seq(n, i requires 0 <= i < n => ShiftRight(v, i) % 2);
      forall i: nat | i < n - 1 ensures bits[1..][i] == ShiftRight(v / 2, i) % 2 { ShiftOneMore(v, i); }
      assert bits[1..] == seq(n - 1, i requires 0 <= i < n - 1 => ShiftRight(v / 2, i) % 2);
      LowFirstOfBits(v / 2, n - 1);
    }
  }

  datatype PanInnerBlock = PanInnerBlock(metadata: Metadata, length: U16, data: Bytes)

  function ParseInner(s: Bytes): Read<PanInnerBlock> {
    var (raw, s1) :- TakeU8(s, "PAN_INNER_BLOCK_STRUCT.metadata");
    var metadata := FromByte(raw);
    var (length, s2) :- TakeLength(s1, metadata.exceedLengthFlag);
    var (data, s3) :- Take(s2, length, "PAN_INNER_BLOCK_STRUCT.data");
    Ok((PanInnerBlock(metadata, length, data), s3))
  }

  function TakeLength(s: Bytes, wide: bool): Read<U16> {
    if wide then TakeU16(s, "PAN_INNER_BLOCK_STRUCT.length")
    else
      var (b, rest) :- TakeU8(s, "PAN_INNER_BLOCK_STRUCT.length");
      Ok((b, rest))
  }

  function BuildInner(block: PanInnerBlock): Bytes {
    [block.metadata.raw]
    + (if block.metadata.exceedLengthFlag then PutU16(block.length) else [block.length % 0x100])
    + block.data
  }

  predicate WellFormedBlock(block: PanInnerBlock) {
    && WellFormedMetadata(block.metadata)
    && block.length == |block.data|
    && (block.metadata.exceedLengthFlag || block.length < 0x100)
  }

  lemma TakeLengthExact(s: Bytes, wide: bool, n: U16, rest: Bytes)
    ensures TakeLength(s, wide) == Ok((n, rest))
            <==> (wide || n < 0x100) && s == (if wide then PutU16(n) else [n % 0x100]) + rest
  {
    TakeU16Exact(s, "PAN_INNER_BLOCK_STRUCT.length", n, rest);
    if n < 0x100 { TakeU8Exact(s, "PAN_INNER_BLOCK_STRUCT.length", n, rest); }
  }

  /** A block parses from exactly its own bytes and whatever follows them. */
  lemma ParseInnerExact(s: Bytes, block: PanInnerBlock, rest: Bytes)
    ensures ParseInner(s) == Ok((block, rest)) <==> WellFormedBlock(block) && s == BuildInner(block) + rest
  {
    var raw, wide := block.metadata.raw, block.metadata.exceedLengthFlag;
    var lengthBytes := if wide then PutU16(block.length) else [block.length % 0x100];
    var s2 := block.data + rest;
    var s1 := lengthBytes + s2;
    assert BuildInner(block) + rest == [raw] + s1;
    TakeU8Exact(s, "PAN_INNER_BLOCK_STRUCT.metadata", raw, s1);
    TakeLengthExact(s1, wide, block.length, s2);
    TakeExact(s2, block.length, "PAN_INNER_BLOCK_STRUCT.data", block.data, rest);
    FromByteExact(raw, block.metadata);
    if ParseInner(s) == Ok((block, rest)) { InnerPieces(s, block, rest); }
  }

  lemma Regrouped(first: Byte, l: Bytes, data: Bytes, rest: Bytes)
    ensures [first] + (l + (data + rest)) == [first] + l + data + rest
  {
  }

  lemma InnerPieces(s: Bytes, block: PanInnerBlock, rest: Bytes)
    requires ParseInner(s) == Ok((block, rest))
    ensures WellFormedBlock(block) && s == BuildInner(block) + rest
  {
    var wide := block.metadata.exceedLengthFlag;
    var s1 := s[1..];
    var s2 := TakeLength(s1, wide).value.1;
    TakeU8Exact(s, "PAN_INNER_BLOCK_STRUCT.metadata", s[0], s1);
    TakeLengthExact(s1, wide, block.length, s2);
    TakeExact(s2, block.length, "PAN_INNER_BLOCK_STRUCT.data", block.data, rest);
    FromByteExact(s[0], block.metadata);
    var lengthBytes := if wide then PutU16(block.length) else [block.length % 0x100];
    assert s == [s[0]] + (lengthBytes + (block.data + rest));
    Regrouped(s[0], lengthBytes, block.data, rest);
  }

  function ParseBlocks(s: Bytes, count: nat): Read<seq<PanInnerBlock>> {
    if count == 0 then Ok(([], s))
    else
      var (block, s1) :- ParseInner(s);
      var (blocks, s2) :- ParseBlocks(s1, count - 1);
      Ok(([block] + blocks, s2))
  }

  function BuildBlocks(blocks: seq<PanInnerBlock>): Bytes {
    if blocks == [] then [] else BuildInner(blocks[0]) + BuildBlocks(blocks[1..])
  }

  predicate WellFormedBlocks(blocks: seq<PanInnerBlock>) {
    forall i :: 0 <= i < |blocks| ==> WellFormedBlock(blocks[i])
  }

  lemma ParseBlocksExact(s: Bytes, count: nat, blocks: seq<PanInnerBlock>, rest: Bytes)
    ensures ParseBlocks(s, count) == Ok((blocks, rest))
            <==> |blocks| == count && WellFormedBlocks(blocks) && s == BuildBlocks(blocks) + rest
  {
    if ParseBlocks(s, count) == Ok((blocks, rest)) { BlocksPieces(s, count, blocks, rest); }
    if |blocks| == count && WellFormedBlocks(blocks) && s == BuildBlocks(blocks) + rest {
      BlocksParse(s, blocks, rest);
    }
  }

  lemma {:induction false} BlocksPieces(s: Bytes, count: nat, blocks: seq<PanInnerBlock>, rest: Bytes)
    requires ParseBlocks(s, count) == Ok((blocks, rest))
    ensures |blocks| == count && WellFormedBlocks(blocks) && s == BuildBlocks(blocks) + rest
  {
    if count == 0 {
      assert [] + rest == rest;
    } else {
      var (block, s1) := ParseInner(s).value;
      var (others, _) := ParseBlocks(s1, count - 1).value;
      ParseInnerExact(s, block, s1);
      BlocksPieces(s1, count - 1, others, rest);
      OneMoreBlock(block, others, rest);
    }
  }

  lemma OneMoreBlock(block: PanInnerBlock, others: seq<PanInnerBlock>, rest: Bytes)
    requires WellFormedBlock(block) && WellFormedBlocks(others)
    ensures WellFormedBlocks([block] + others)
    ensures BuildBlocks([block] + others) + rest == BuildInner(block) + (BuildBlocks(others) + rest)
  {
    assert ([block] + others)[1..] == others;
  }

  lemma {:induction false} BlocksParse(s: Bytes, blocks: seq<PanInnerBlock>, rest: Bytes)
    requires WellFormedBlocks(blocks) && s == BuildBlocks(blocks) + rest
    ensures ParseBlocks(s, |blocks|) == Ok((blocks, rest))
  {
    if blocks == [] {
      assert s == rest;
    } else {
      var block, others := blocks[0], blocks[1..];
      assert blocks == [block] + others;
      var s1 := BuildBlocks(others) + rest;
      FirstBlockParses(block, others, rest);
      BlocksParse(s1, others, rest);
      ParseOneMore(s, block, s1, others, rest);
    }
  }

  lemma FirstBlockParses(block: PanInnerBlock, others: seq<PanInnerBlock>, rest: Bytes)
    requires WellFormedBlocks([block] + others)
    ensures WellFormedBlocks(others)
    ensures ParseInner(BuildBlocks([block] + others) + rest) == Ok((block, BuildBlocks(others) + rest))
  {
    assert ([block] + others)[0] == block;
    assert forall i :: 0 <= i < |others| ==> others[i] == ([block] + others)[i + 1];
    OneMoreBlock(block, others, rest);
    ParseInnerExact(BuildBlocks([block] + others) + rest, block, BuildBlocks(others) + rest);
  }

  lemma ParseOneMore(s: Bytes, block: PanInnerBlock, s1: Bytes, others: seq<PanInnerBlock>, rest: Bytes)
    requires ParseInner(s) == Ok((block, s1)) && ParseBlocks(s1, |others|) == Ok((others, rest))
    ensures ParseBlocks(s, |others| + 1) == Ok(([block] + others, rest))
  {
  }

  // ------------------------------------------------------------------------ messages

  datatype PanOuterBlockMessage = PanOuterBlockMessage(
    codeType: Byte, reserved0: Byte, reserved1: U32, reserved2: Byte, reserved3: U16,
    numBlocks1: Byte, blocks1: seq<PanInnerBlock>,
    numBlocks2: Byte, blocks2: seq<PanInnerBlock>)

  /** The fields of a header, with no blocks yet. */
  function ParseHeader(s: Bytes): Read<PanOuterBlockMessage> {
    var (codeType, s1) :- TakeU8(s, "MESSAGE.code_type");
    var (reserved0, s2) :- TakeU8(s1, "MESSAGE.reserved_0");
    var (reserved1, s3) :- TakeU32(s2, "MESSAGE.reserved_1");
    var (reserved2, s4) :- TakeU8(s3, "MESSAGE.reserved_2");
    var (reserved3, s5) :- TakeU16(s4, "MESSAGE.reserved_3");
    var (numBlocks1, s6) :- TakeU8(s5, "MESSAGE.num_blocks_1");
    Ok((PanOuterBlockMessage(codeType, reserved0, reserved1, reserved2, reserved3, numBlocks1, [], 0, []), s6))
  }

  function ParseMessage(s: Bytes): Read<PanOuterBlockMessage> {
    var (header, s6) :- ParseHeader(s);
    var (blocks1, s7) :- ParseBlocks(s6, header.numBlocks1);
    var (numBlocks2, s8) :- TakeU8(s7, "MESSAGE.num_blocks_2");
    var (blocks2, s9) :- ParseBlocks(s8, numBlocks2);
    Ok((header.(blocks1 := blocks1, numBlocks2 := numBlocks2, blocks2 := blocks2), s9))
  }

  /** The ten bytes before a message's blocks. */
  function BuildHeader(m: PanOuterBlockMessage): (s: Bytes)
    ensures |s| == 10
  {
    [m.codeType, m.reserved0] + PutU32(m.reserved1) + [m.reserved2] + PutU16(m.reserved3) + [m.numBlocks1]
  }

  function BuildMessage(m: PanOuterBlockMessage): Bytes {
    BuildHeader(m) + BuildBlocks(m.blocks1) + [m.numBlocks2] + BuildBlocks(m.blocks2)
  }

  predicate WellFormedMessage(m: PanOuterBlockMessage) {
    && m.numBlocks1 == |m.blocks1| && WellFormedBlocks(m.blocks1)
    && m.numBlocks2 == |m.blocks2| && WellFormedBlocks(m.blocks2)
  }

  lemma ParseHeaderExact(s: Bytes, h: PanOuterBlockMessage, rest: Bytes)
    requires h.blocks1 == [] && h.numBlocks2 == 0 && h.blocks2 == []
    ensures ParseHeader(s) == Ok((h, rest)) <==> s == BuildHeader(h) + rest
  {
    if ParseHeader(s) == Ok((h, rest)) { HeaderPieces(s, h, rest); }
    var s5 := [h.numBlocks1] + rest;
    var s4 := PutU16(h.reserved3) + s5;
    var s3 := [h.reserved2] + s4;
    var s2 := PutU32(h.reserved1) + s3;
    var s1 := [h.reserved0] + s2;
    assert BuildHeader(h) + rest == [h.codeType] + s1;
    TakeU8Exact(s, "MESSAGE.code_type", h.codeType, s1);
    TakeU8Exact(s1, "MESSAGE.reserved_0", h.reserved0, s2);
    TakeU32Exact(s2, "MESSAGE.reserved_1", h.reserved1, s3);
    TakeU8Exact(s3, "MESSAGE.reserved_2", h.reserved2, s4);
    TakeU16Exact(s4, "MESSAGE.reserved_3", h.reserved3, s5);
    TakeU8Exact(s5, "MESSAGE.num_blocks_1", h.numBlocks1, rest);
  }

  lemma HeaderPieces(s: Bytes, h: PanOuterBlockMessage, rest: Bytes)
    requires ParseHeader(s) == Ok((h, rest))
    ensures s == BuildHeader(h) + rest
  {
    var s1 := TakeU8(s, "MESSAGE.code_type").value.1;
    var s2 := TakeU8(s1, "MESSAGE.reserved_0").value.1;
    var s3 := TakeU32(s2, "MESSAGE.reserved_1").value.1;
    var s4 := TakeU8(s3, "MESSAGE.reserved_2").value.1;
    var s5 := TakeU16(s4, "MESSAGE.reserved_3").value.1;
    TakeU8Exact(s, "MESSAGE.code_type", h.codeType, s1);
    TakeU8Exact(s1, "MESSAGE.reserved_0", h.reserved0, s2);
    TakeU32Exact(s2, "MESSAGE.reserved_1", h.reserved1, s3);
    TakeU8Exact(s3, "MESSAGE.reserved_2", h.reserved2, s4);
    TakeU16Exact(s4, "MESSAGE.reserved_3", h.reserved3, s5);
    TakeU8Exact(s5, "MESSAGE.num_blocks_1", h.numBlocks1, rest);
  }

  /** A message parses from exactly the bytes it builds to: these are what a signature covers. */
  lemma ParseMessageExact(s: Bytes, m: PanOuterBlockMessage, rest: Bytes)
    ensures ParseMessage(s) == Ok((m, rest)) <==> WellFormedMessage(m) && s == BuildMessage(m) + rest
  {
    if ParseMessage(s) == Ok((m, rest)) { MessagePieces(s, m, rest); }
    if WellFormedMessage(m) && s == BuildMessage(m) + rest {
      var h := m.(blocks1 := [], numBlocks2 := 0, blocks2 := []);
      var s8 := BuildBlocks(m.blocks2) + rest;
      var s7 := [m.numBlocks2] + s8;
      var s6 := BuildBlocks(m.blocks1) + s7;
      MessageOrder(m, rest);
      ParseHeaderExact(s, h, s6);
      ParseBlocksExact(s6, m.numBlocks1, m.blocks1, s7);
      TakeU8Exact(s7, "MESSAGE.num_blocks_2", m.numBlocks2, s8);
      ParseBlocksExact(s8, m.numBlocks2, m.blocks2, rest);
    }
  }

  lemma MessagePieces(s: Bytes, m: PanOuterBlockMessage, rest: Bytes)
    requires ParseMessage(s) == Ok((m, rest))
    ensures WellFormedMessage(m) && s == BuildMessage(m) + rest
  {
    var (h, s6) := ParseHeader(s).value;
    var s7 := ParseBlocks(s6, h.numBlocks1).value.1;
    var s8 := TakeU8(s7, "MESSAGE.num_blocks_2").value.1;
    ParseHeaderExact(s, h, s6);
    ParseBlocksExact(s6, m.numBlocks1, m.blocks1, s7);
    TakeU8Exact(s7, "MESSAGE.num_blocks_2", m.numBlocks2, s8);
    ParseBlocksExact(s8, m.numBlocks2, m.blocks2, rest);
    MessageOrder(m, rest);
  }

  lemma MessageOrder(m: PanOuterBlockMessage, rest: Bytes)
    ensures BuildMessage(m) + rest
            == BuildHeader(m.(blocks1 := [], numBlocks2 := 0, blocks2 := []))
               + (BuildBlocks(m.blocks1) + ([m.numBlocks2] + (BuildBlocks(m.blocks2) + rest)))
  {
  }

  // -------------------------------------------------------------------- outer blocks

  datatype PanOuterBlock = PanOuterBlock(
    message: PanOuterBlockMessage, signatureScheme: Byte, signatureLength: U16, signatureData: Bytes)

  function ParseOuter(data: Bytes): Result<PanOuterBlock, PanQrError> {
    var (message, s1) :- ParseMessage(data);
    ParseTail(message, s1)
  }

  /** The bytes after a message: the marker, the scheme, the padding and the signature. */
  function ParseTail(message: PanOuterBlockMessage, s1: Bytes): Result<PanOuterBlock, PanQrError> {
    var (_, s2) :- TakeMagic(s1, [0x01], "PAN_OUTER_BLOCK_STRUCT.reserved_4");
    var (scheme, s3) :- TakeU8(s2, "PAN_OUTER_BLOCK_STRUCT.signature_scheme");
    var (_, s4) :- Take(s3, 2, "PAN_OUTER_BLOCK_STRUCT.pad");
    var (length, s5) :- TakeU16(s4, "PAN_OUTER_BLOCK_STRUCT.signature_length");
    var (signature, s6) :- Take(s5, length, "PAN_OUTER_BLOCK_STRUCT.signature_data");
    if s6 != Zeros(|s6|) then Err(TrailingData("PAN_OUTER_BLOCK_STRUCT"))
    else Ok(PanOuterBlock(message, scheme, length, signature))
  }

  function BuildTail(o: PanOuterBlock, pad0: Byte, pad1: Byte, zeros: nat): Bytes {
    [0x01] + ([o.signatureScheme] + ([pad0, pad1] + (PutU16(o.signatureLength) + (o.signatureData + Zeros(zeros)))))
  }

  lemma TailPieces(s1: Bytes, o: PanOuterBlock) returns (pad0: Byte, pad1: Byte, zeros: nat)
    requires ParseTail(o.message, s1) == Ok(o)
    ensures o.signatureLength == |o.signatureData| && s1 == BuildTail(o, pad0, pad1, zeros)
  {
    var (magic, s2) := TakeMagic(s1, [0x01], "PAN_OUTER_BLOCK_STRUCT.reserved_4").value;
    var s3 := TakeU8(s2, "PAN_OUTER_BLOCK_STRUCT.signature_scheme").value.1;
    var (pad, s4) := Take(s3, 2, "PAN_OUTER_BLOCK_STRUCT.pad").value;
    var s5 := TakeU16(s4, "PAN_OUTER_BLOCK_STRUCT.signature_length").value.1;
    var s6 := Take(s5, o.signatureLength, "PAN_OUTER_BLOCK_STRUCT.signature_data").value.1;
    TakeExact(s1, 1, "PAN_OUTER_BLOCK_STRUCT.reserved_4", magic, s2);
    TakeU8Exact(s2, "PAN_OUTER_BLOCK_STRUCT.signature_scheme", o.signatureScheme, s3);
    TakeExact(s3, 2, "PAN_OUTER_BLOCK_STRUCT.pad", pad, s4);
    TakeU16Exact(s4, "PAN_OUTER_BLOCK_STRUCT.signature_length", o.signatureLength, s5);
    TakeExact(s5, o.signatureLength, "PAN_OUTER_BLOCK_STRUCT.signature_data", o.signatureData, s6);
    pad0, pad1, zeros := pad[0], pad[1], |s6|;
    assert pad == [pad0, pad1];
  }

  lemma TailParses(o: PanOuterBlock, pad0: Byte, pad1: Byte, zeros: nat)
    requires o.signatureLength == |o.signatureData|
    ensures ParseTail(o.message, BuildTail(o, pad0, pad1, zeros)) == Ok(o)
  {
    var s6 := Zeros(zeros);
    var s5 := o.signatureData + s6;
    var s4 := PutU16(o.signatureLength) + s5;
    var s3 := [pad0, pad1] + s4;
    var s2 := [o.signatureScheme] + s3;
    TakeExact([0x01] + s2, 1, "PAN_OUTER_BLOCK_STRUCT.reserved_4", [0x01], s2);
    TakeU8Exact(s2, "PAN_OUTER_BLOCK_STRUCT.signature_scheme", o.signatureScheme, s3);
    TakeExact(s3, 2, "PAN_OUTER_BLOCK_STRUCT.pad", [pad0, pad1], s4);
    TakeU16Exact(s4, "PAN_OUTER_BLOCK_STRUCT.signature_length", o.signatureLength, s5);
    TakeExact(s5, o.signatureLength, "PAN_OUTER_BLOCK_STRUCT.signature_data", o.signatureData, s6);
  }

  /**
   An outer block parses from exactly: its message's bytes, 01, the scheme, two padding
   bytes, the length, the signature of that length, and zeros.
   */
  lemma ParseOuterExact(data: Bytes, o: PanOuterBlock)
    ensures ParseOuter(data) == Ok(o)
            <==> && WellFormedMessage(o.message) && o.signatureLength == |o.signatureData|
                 && exists pad0, pad1, zeros ::
                      data == BuildMessage(o.message) + BuildTail(o, pad0, pad1, zeros)
  {
    if ParseOuter(data) == Ok(o) {
      var s1 := ParseMessage(data).value.1;
      ParseMessageExact(data, o.message, s1);
      var pad0, pad1, zeros := TailPieces(s1, o);
    }
    if WellFormedMessage(o.message) && o.signatureLength == |o.signatureData| {
      forall pad0: Byte, pad1: Byte, zeros: nat |
        data == BuildMessage(o.message) + BuildTail(o, pad0, pad1, zeros)
        ensures ParseOuter(data) == Ok(o)
      {
        ParseMessageExact(data, o.message, BuildTail(o, pad0, pad1, zeros));
        TailParses(o, pad0, pad1, zeros);
      }
    }
  }

  // ----------------------------------------------------------- the code as it runs

  /** A reader did what `spec` says of the bytes before it, and left the cursor after them. */
  ghost predicate Did<T>(spec: Read<T>, r: Result<T, PanQrError>, after: Bytes) {
    match spec
    case Ok((value, rest)) => r == Ok(value) && after == rest
    case Err(e) => r == Err(e)
  }

  class Cursor {
    const data: Bytes
    var pos: nat

    ghost predicate Valid()
      reads this
    {
      pos <= |data|
    }

    /** All remaining bytes. */
    ghost function Rest(): Bytes
      requires Valid()
      reads this
    {
      data[pos..]
    }

    constructor (data: Bytes)
      ensures Valid() && Rest() == data
    {
      this.data, pos := data, 0;
    }

    method Read(n: nat, field: string) returns (r: Result<Bytes, PanQrError>)
      requires Valid()
      modifies this
      ensures Valid() && Did(Take(old(Rest()), n, field), r, Rest())
    {
      if |data| - pos < n { return Err(UnexpectedEof(field)); }
      var slice := data[pos..pos + n];
      assert slice == data[pos..][..n] && data[pos + n..] == data[pos..][n..];
      pos := pos + n;
      r := Ok(slice);
    }

    method ReadU8(field: string) returns (r: Result<Byte, PanQrError>)
      requires Valid()
      modifies this
      ensures Valid() && Did(TakeU8(old(Rest()), field), r, Rest())
    {
      var b :- Read(1, field);
      r := Ok(b[0]);
    }

    method ReadU16(field: string) returns (r: Result<U16, PanQrError>)
      requires Valid()
      modifies this
      ensures Valid() && Did(TakeU16(old(Rest()), field), r, Rest())
    {
      var b :- Read(2, field);
      r := Ok(b[0] as int * 0x100 + b[1]);
    }

    method ReadU32(field: string) returns (r: Result<U32, PanQrError>)
      requires Valid()
      modifies this
      ensures Valid() && Did(TakeU32(old(Rest()), field), r, Rest())
    {
      var b :- Read(4, field);
      r := Ok(b[0] as int * 0x100_0000 + b[1] as int * 0x1_0000 + b[2] as int * 0x100 + b[3]);
    }

    method Expect(magic: Bytes, field: string) returns (r: Result<Bytes, PanQrError>)
      requires Valid()
      modifies this
      ensures Valid() && Did(TakeMagic(old(Rest()), magic, field), r, Rest())
    {
      var found :- Read(|magic|, field);
      r := if found != magic then Err(BadMagic(field, magic, found)) else Ok(found);
    }

    method Greedy() returns (slice: Bytes)
      requires Valid()
      modifies this
      ensures Valid() && slice == old(Rest()) && Rest() == []
    {
      slice := data[pos..];
      pos := |data|;
    }

    method ReadInner() returns (r: Result<PanInnerBlock, PanQrError>)
      requires Valid()
      modifies this
      ensures Valid() && Did(ParseInner(old(Rest())), r, Rest())
    {
      var raw :- ReadU8("PAN_INNER_BLOCK_STRUCT.metadata");
      var metadata := FromByte(raw);
      var length: U16;
      if metadata.exceedLengthFlag {
        length :- ReadU16("PAN_INNER_BLOCK_STRUCT.length");
      } else {
        length :- ReadU8("PAN_INNER_BLOCK_STRUCT.length");
      }
      var data :- Read(length, "PAN_INNER_BLOCK_STRUCT.data");
      r := Ok(PanInnerBlock(metadata, length, data));
    }

    method ReadBlocks(count: nat) returns (r: Result<seq<PanInnerBlock>, PanQrError>)
      requires Valid()
      modifies this
      ensures Valid() && Did(ParseBlocks(old(Rest()), count), r, Rest())
    {
      var blocks := [];
      ghost var whole := ParseBlocks(Rest(), count);
      AfterNone(whole);
      for i := 0 to count
        invariant Valid() && whole == After(blocks, ParseBlocks(Rest(), count - i))
      {
        AfterOne(blocks, Rest(), count - i);
        var block :- ReadInner();
        blocks := blocks + [block];
      }
      assert blocks + [] == blocks;
      r := Ok(blocks);
    }

    method ReadMessage() returns (r: Result<PanOuterBlockMessage, PanQrError>)
      requires Valid()
      modifies this
      ensures Valid() && Did(ParseMessage(old(Rest())), r, Rest())
    {
      var codeType :- ReadU8("MESSAGE.code_type");
      var reserved0 :- ReadU8("MESSAGE.reserved_0");
      var reserved1 :- ReadU32("MESSAGE.reserved_1");
      var reserved2 :- ReadU8("MESSAGE.reserved_2");
      var reserved3 :- ReadU16("MESSAGE.reserved_3");
      var numBlocks1 :- ReadU8("MESSAGE.num_blocks_1");
      ghost var header := PanOuterBlockMessage(codeType, reserved0, reserved1, reserved2, reserved3, numBlocks1, [], 0, []);
      assert ParseHeader(old(Rest())) == Ok((header, Rest()));
      var blocks1 :- ReadBlocks(numBlocks1);
      var numBlocks2 :- ReadU8("MESSAGE.num_blocks_2");
      var blocks2 :- ReadBlocks(numBlocks2);
      r := Ok(PanOuterBlockMessage(codeType, reserved0, reserved1, reserved2, reserved3,
                                   numBlocks1, blocks1, numBlocks2, blocks2));
    }

    method ReadTail(message: PanOuterBlockMessage) returns (r: Result<PanOuterBlock, PanQrError>)
      requires Valid()
      modifies this
      ensures Valid() && r == ParseTail(message, old(Rest()))
    {
      var _ :- Expect([0x01], "PAN_OUTER_BLOCK_STRUCT.reserved_4");
      var scheme :- ReadU8("PAN_OUTER_BLOCK_STRUCT.signature_scheme");
      var _ :- Read(2, "PAN_OUTER_BLOCK_STRUCT.pad");
      var length :- ReadU16("PAN_OUTER_BLOCK_STRUCT.signature_length");
      var signature :- Read(length, "PAN_OUTER_BLOCK_STRUCT.signature_data");
      var leftover := Greedy();
      var clear := CheckZeros(leftover);
      if !clear { return Err(TrailingData("PAN_OUTER_BLOCK_STRUCT")); }
      r := Ok(PanOuterBlock(message, scheme, length, signature));
    }
  }

  /** Blocks already read, put before what a reader gives. */
  ghost function After(blocks: seq<PanInnerBlock>, r: Read<seq<PanInnerBlock>>): Read<seq<PanInnerBlock>> {
    match r
    case Ok((more, rest)) => Ok((blocks + more, rest))
    case Err(e) => Err(e)
  }

  lemma AfterNone(r: Read<seq<PanInnerBlock>>)
    ensures After([], r) == r
  {
    if r.Ok? { assert [] + r.value.0 == r.value.0; }
  }

  lemma AfterOne(blocks: seq<PanInnerBlock>, s: Bytes, count: nat)
    requires count > 0
    ensures ParseInner(s).Err? ==> After(blocks, ParseBlocks(s, count)) == Err(ParseInner(s).error)
    ensures ParseInner(s).Ok? ==>
              var (block, s1) := ParseInner(s).value;
              After(blocks, ParseBlocks(s, count)) == After(blocks + [block], ParseBlocks(s1, count - 1))
  {
    if ParseInner(s).Ok? {
      var (block, s1) := ParseInner(s).value;
      var tail := ParseBlocks(s1, count - 1);
      if tail.Ok? { assert blocks + ([block] + tail.value.0) == blocks + [block] + tail.value.0; }
    }
  }

  /** `PanOuterBlock::parse` as it runs. */
  method ReadOuter(data: Bytes) returns (r: Result<PanOuterBlock, PanQrError>)
    ensures r == ParseOuter(data)
  {
    var c := new Cursor(data);
    var message :- c.ReadMessage();
    r := c.ReadTail(message);
  }

  method WriteInner(block: PanInnerBlock, before: Bytes) returns (out: Bytes)
    ensures out == before + BuildInner(block)
  {
    out := before + [block.metadata.raw];
    if block.metadata.exceedLengthFlag {
      out := out + PutU16(block.length);
    } else {
      out := out + [block.length % 0x100];
    }
    out := out + block.data;
  }

  method WriteBlocks(blocks: seq<PanInnerBlock>, before: Bytes) returns (out: Bytes)
    ensures out == before + BuildBlocks(blocks)
  {
    out := before;
    for i := 0 to |blocks|
      invariant out + BuildBlocks(blocks[i..]) == before + BuildBlocks(blocks)
    {
      assert blocks[i..][1..] == blocks[i + 1..];
      out := WriteInner(blocks[i], out);
    }
    assert out + [] == out;
  }

  /** `PanOuterBlockMessage::build` as it runs. */
  method WriteMessage(m: PanOuterBlockMessage) returns (out: Bytes)
    ensures out == BuildMessage(m)
  {
    out := [m.codeType, m.reserved0] + PutU32(m.reserved1) + [m.reserved2] + PutU16(m.reserved3) + [m.numBlocks1];
    out := WriteBlocks(m.blocks1, out);
    out := out + [m.numBlocks2];
    out := WriteBlocks(m.blocks2, out);
  }
}
