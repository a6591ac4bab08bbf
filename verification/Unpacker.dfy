/** The bit unpacker of PAN Secure QR codes: a carry state machine that assembles a number. */
module Unpacker {
  import opened Modular
  import opened Wrappers
  import opened ByteStrings

  datatype PanQrError =
    | InvalidBitCount(count: nat)
    | ChunkNotFour(chunk: string)
    | ChunkNotDigits(chunk: string)
    | ChunkTooLarge(chunk: string)

  // ---------------------------------------------------------- little-endian numbers

  function LeNat(s: Bytes): nat {
    if s == [] then 0 else s[0] + 256 * LeNat(s[1..])
  }

  /** The low `len` bytes of n, lowest first. */
  function LeBytes(n: nat, len: nat): (s: Bytes)
    ensures |s| == len
  {
    if len == 0 then [] else [n % 256] + LeBytes(n / 256, len - 1)
  }

  lemma {:induction false} LeNatPush(s: Bytes, b: Byte)
    ensures LeNat(s + [b]) == LeNat(s) + Pow(256, |s|) * b
  {
    if s == [] {
      assert LeNat([b]) == b + 256 * LeNat([]);
    } else {
      LeNatPush(s[1..], b);
      assert (s + [b])[1..] == s[1..] + [b];
      assert 256 * (Pow(256, |s| - 1) * b) == Pow(256, |s|) * b;
    }
  }

  /** A string is the low bytes of anything it spells plus whole multiples of its range. */
  lemma {:induction false} LeBytesOf(s: Bytes, high: nat, n: nat)
    requires n == LeNat(s) + Pow(256, |s|) * high
    ensures LeBytes(n, |s|) == s
  {
    if s != [] {
      var w := Pow(256, |s| - 1);
      PowPositive(256, |s| - 1);
      assert w * high >= 0;
      var rest := LeNat(s[1..]) + w * high;
      assert n == rest * 256 + s[0] by {
        assert 256 * (w * high) == Pow(256, |s|) * high;
      }
      QuotientUnique(n, 256, rest, s[0]);
      LeBytesOf(s[1..], high, rest);
      assert s == [s[0]] + s[1..];
    }
  }

  lemma {:induction false} LeNatOfBytes(n: nat, len: nat)
    requires n < Pow(256, len)
    ensures LeNat(LeBytes(n, len)) == n
  {
    if len > 0 {
      LeNatOfBytes(n / 256, len - 1);
      assert LeBytes(n, len)[1..] == LeBytes(n / 256, len - 1);
    }
  }

  // ------------------------------------------------------------- the number fed in

  /** How many bits a run of calls feeds, each a value and a width. */
  function StreamBits(fed: seq<(nat, nat)>): nat {
    if fed == [] then 0 else StreamBits(fed[..|fed| - 1]) + fed[|fed| - 1].1
  }

  /** Σ (v_j mod 2^w_j)·2^(w_0 + … + w_(j−1)) */
  function StreamValue(fed: seq<(nat, nat)>): nat {
    if fed == [] then 0
    else
      var (v, w) := fed[|fed| - 1];
      var before := fed[..|fed| - 1];
      StreamValue(before) + ShiftLeft(LowBits(v, w), StreamBits(before))
  }

  class BitUnpacker {
    var output: Bytes
    var a: Byte
    var b: nat
    /** Every call accepted so far. */
    ghost var fed: seq<(nat, nat)>

    /** The carry holds b < 8 bits, and output and carry spell exactly the number fed in. */
    ghost predicate Valid()
      reads this
    {
      Pending(output, a, b, 0, 0, fed)
    }

    constructor ()
      ensures Valid() && fed == [] && output == []
    {
      output, a, b, fed := [], 0, 0, [];
      new;
      assert Pow(2, 0) == 1;
    }

    method BitUnpack(value: nat, count: nat) returns (r: Result<Unit, PanQrError>)
      requires Valid() && value < 0x1_0000_0000
      modifies this
      ensures Valid()
      ensures r == if 1 <= count <= 32 then Ok(Unit) else Err(InvalidBitCount(count))
      ensures r.Ok? ==> fed == old(fed) + [(value, count)]
      ensures r.Err? ==> fed == old(fed) && output == old(output) && a == old(a) && b == old(b)
    {
      if !(1 <= count <= 32) { return Err(InvalidBitCount(count)); }
      var v: nat, v1: nat := LowBits(value, count), count;
      ghost var next := fed + [(value, count)];
      StreamExtends(fed, value, count, output, a, b);
      var v2 := b;
      if v2 > 0 && v2 + v1 >= 8 {
        var v3 := Or(a, ShiftLeft(v, v2)) % 256;
        FillStep(output, a, b, v, v1, v3, next);
        v := ShiftRight(v, 8 - v2);
        v1 := v1 - (8 - v2);
        output := output + [v3];
        a := 0;
        b := 0;
      }
      while v1 / 8 > 0
        invariant Pending(output, a, b, v, v1, next)
        invariant b == 0 || b + v1 < 8
      {
        DrainStep(output, a, v, v1, next);
        output := output + [v % 256];
        v := v / 256;
        v1 := v1 - 8;
      }
      KeepStep(output, a, b, v, v1, next);
      if v1 > 0 {
        a := Or(ShiftLeft(v, b), a) % 256;
        b := b + v1;
      }
      fed := next;
      r := Ok(Unit);
    }
  }

  /**
   The bytes written, then the b < 8 bits of the carry a, then n bits v still to be
   placed, together spell the whole stream.
   */
  ghost predicate Pending(output: Bytes, a: nat, b: nat, v: nat, n: nat, fed: seq<(nat, nat)>) {
    Carried(a, b, v, n) && Spells(output, a, b, v, n, fed)
  }

  ghost predicate Carried(a: nat, b: nat, v: nat, n: nat) {
    b < 8 && a < Pow(2, b) && v < Pow(2, n)
  }

  ghost predicate Spells(output: Bytes, a: nat, b: nat, v: nat, n: nat, fed: seq<(nat, nat)>) {
    && 8 * |output| + b + n == StreamBits(fed)
    && LeNat(output) + Pow(256, |output|) * (a + v * Pow(2, b)) == StreamValue(fed)
  }

  lemma StreamExtends(fed: seq<(nat, nat)>, value: nat, count: nat, output: Bytes, a: nat, b: nat)
    requires Pending(output, a, b, 0, 0, fed)
    ensures Pending(output, a, b, LowBits(value, count), count, fed + [(value, count)])
  {
    PowPositive(2, count);
    assert (fed + [(value, count)])[..|fed|] == fed;
    Pow256(|output|);
    PowAdd(2, 8 * |output|, b);
    PowPositive(2, StreamBits(fed));
    Distribute(Pow(256, |output|), a, value % Pow(2, count), Pow(2, b));
  }

  /** Completing the carried byte. */
  lemma FillStep(output: Bytes, a: nat, b: nat, v: nat, n: nat, v3: Byte, fed: seq<(nat, nat)>)
    requires Pending(output, a, b, v, n, fed) && b + n >= 8 && v3 == Or(a, ShiftLeft(v, b)) % 256
    ensures Pending(output + [v3], 0, 0, ShiftRight(v, 8 - b), n - (8 - b), fed)
  {
    PowPositive(2, b);
    PowPositive(2, 8 - b);
    OrDisjoint(a, v, b);
    FillByte(a, v, b);
    ShiftDown(v, n, 8 - b);
    PushKeepsTotal(output, a + v * Pow(2, b), v3, v / Pow(2, 8 - b));
    assert Pow(2, 0) == 1;
  }

  /** Moving a whole byte out; the carry is empty by then. */
  lemma DrainStep(output: Bytes, a: nat, v: nat, n: nat, fed: seq<(nat, nat)>)
    requires Pending(output, a, 0, v, n, fed) && n >= 8
    ensures a == 0 && Pending(output + [v % 256], a, 0, v / 256, n - 8, fed)
  {
    assert Pow(2, 0) == 1;
    assert Pow(2, 8) == 256 by { PowAdd(2, 4, 4); assert Pow(2, 4) == 16; }
    ShiftDown(v, n, 8);
    PushKeepsTotal(output, v, v % 256, v / 256);
  }

  /** Keeping what is left as the carry. */
  lemma KeepStep(output: Bytes, a: nat, b: nat, v: nat, n: nat, fed: seq<(nat, nat)>)
    requires Pending(output, a, b, v, n, fed) && b + n < 8
    ensures n == 0 ==> Pending(output, a, b, 0, 0, fed)
    ensures Pending(output, Or(ShiftLeft(v, b), a) % 256, b + n, 0, 0, fed)
  {
    PowPositive(2, b);
    CarryFits(a, v, b, n);
    OrDisjoint(a, v, b);
    var c := a + v * Pow(2, b);
    SmallRemainder(c, 256);
    NothingPending(output, c, b + n, fed);
    if n == 0 {
      NothingShifted(v, Pow(2, b));
      NothingPending(output, a, b, fed);
    }
  }

  lemma NothingShifted(v: nat, unit: nat)
    requires v < Pow(2, 0)
    ensures v * unit == 0
  {
    assert Pow(2, 0) == 1;
  }

  lemma NothingPending(output: Bytes, c: nat, k: nat, fed: seq<(nat, nat)>)
    requires k < 8 && c < Pow(2, k) && 8 * |output| + k == StreamBits(fed)
    requires LeNat(output) + Pow(256, |output|) * c == StreamValue(fed)
    ensures Pending(output, c, k, 0, 0, fed)
  {
    assert Pow(2, 0) == 1;
    assert 0 * Pow(2, k) == 0;
  }

  lemma Distribute(w: int, a: int, v: int, t: int)
    ensures w * (a + v * t) == w * a + v * (w * t)
  {
    assert v * (w * t) == w * (v * t);
  }

  /** Completing a byte from a carry of k bits takes the low 8 − k bits of v. */
  lemma FillByte(a: nat, v: nat, k: nat)
    requires k <= 8 && a < Pow(2, k) && Pow(2, 8 - k) > 0
    ensures a + v * Pow(2, k) == (a + v * Pow(2, k)) % 256 + 256 * (v / Pow(2, 8 - k))
  {
    var h, l := Pow(2, 8 - k), Pow(2, k);
    assert h * l == 256 by {
      PowAdd(2, 8 - k, k);
      PowAdd(2, 4, 4);
      assert Pow(2, 4) == 16;
    }
    SplitByte(a, v, h, l, v / h, v % h);
  }

  lemma SplitByte(a: nat, v: nat, h: nat, l: nat, q: nat, r: nat)
    requires h * l == 256 && a < l && v == q * h + r && r < h
    ensures a + v * l == (a + v * l) % 256 + 256 * q
  {
    assert v * l == q * 256 + r * l by { assert (q * h) * l == q * (h * l); }
    assert (r + 1) * l <= h * l;
    QuotientUnique(a + v * l, 256, q, a + r * l);
  }

  /** Dropping k of n bits leaves n − k. */
  lemma ShiftDown(v: nat, n: nat, k: nat)
    requires k <= n && v < Pow(2, n) && Pow(2, k) > 0
    ensures v / Pow(2, k) < Pow(2, n - k)
  {
    var h := Pow(2, k);
    PowAdd(2, n - k, k);
    var q := v / h;
    assert q * h <= v;
    MultipleSize(q - Pow(2, n - k), h);
    assert (q - Pow(2, n - k)) * h == q * h - Pow(2, n - k) * h;
  }

  /** Moving a byte from what is pending to the output keeps the number. */
  lemma PushKeepsTotal(output: Bytes, pending: nat, byte: Byte, rest: nat)
    requires pending == byte + 256 * rest
    ensures LeNat(output) + Pow(256, |output|) * pending
            == LeNat(output + [byte]) + Pow(256, |output + [byte]|) * rest
  {
    LeNatPush(output, byte);
    var w := Pow(256, |output|);
    assert Pow(256, |output + [byte]|) == 256 * w;
    PushArithmetic(w, 256 * w, pending, byte, rest);
  }

  lemma PushArithmetic(w: int, next: int, pending: int, byte: int, rest: int)
    requires next == 256 * w && pending == byte + 256 * rest
    ensures w * pending == w * byte + next * rest
  {
    assert w * (byte + 256 * rest) == w * byte + 256 * w * rest;
  }

  lemma CarryFits(a: nat, v: nat, k: nat, n: nat)
    requires a < Pow(2, k) && v < Pow(2, n) && k + n < 8
    ensures a + v * Pow(2, k) < Pow(2, k + n) && Pow(2, k + n) <= 256
  {
    PowAdd(2, n, k);
    PowMonotone(2, k + n, 8);
    assert Pow(2, 8) == 256 by { PowAdd(2, 4, 4); assert Pow(2, 4) == 16; }
    assert (v + 1) * Pow(2, k) <= Pow(2, n) * Pow(2, k);
  }

  /** A state is a function of the stream: its low whole bytes are out, and the rest is carried. */
  lemma OutputDetermined(output: Bytes, a: nat, b: nat, fed: seq<(nat, nat)>)
    requires Pending(output, a, b, 0, 0, fed)
    ensures output == LeBytes(StreamValue(fed), StreamBits(fed) / 8) && b == StreamBits(fed) % 8
  {
    assert 0 * Pow(2, b) == 0;
    EightfoldSplit(StreamBits(fed), |output|, b);
    LeBytesOf(output, a, StreamValue(fed));
  }

  lemma EightfoldSplit(bits: nat, len: nat, b: nat)
    requires 8 * len + b == bits && b < 8
    ensures bits / 8 == len && bits % 8 == b
  {
  }

  // ------------------------------------------------------------- the scanned string

  const MAX_CHUNK_VALUE := 8191

  predicate IsDigit(c: char) { '0' <= c <= '9' }

  predicate AllDigits(s: string) {
    forall c :: c in s ==> IsDigit(c)
  }

  function DigitOf(c: char): (d: nat)
    requires IsDigit(c)
    ensures d <= 9
  {
    c as int - '0' as int
  }

  /** A decimal number, the source's `parse`. */
  function Decimal(s: string): nat
    requires AllDigits(s)
  {
    if s == [] then 0 else Decimal(s[..|s| - 1]) * 10 + DigitOf(s[|s| - 1])
  }

  function ChunkValue(chunk: string): (r: Result<nat, PanQrError>)
    ensures r.Ok? ==> r.value <= MAX_CHUNK_VALUE && |chunk| == 4
  {
    if |chunk| != 4 then Err(ChunkNotFour(chunk))
    else if !AllDigits(chunk) then Err(ChunkNotDigits(chunk))
    else if Decimal(chunk) > MAX_CHUNK_VALUE then Err(ChunkTooLarge(chunk))
    else Ok(Decimal(chunk))
  }

  /** The values of the four-character chunks, or the first chunk's error. */
  function ChunkValues(s: string): Result<seq<nat>, PanQrError> {
    if s == [] then Ok([])
    else
      var n := if |s| < 4 then |s| else 4;
      var v :- ChunkValue(s[..n]);
      var vs :- ChunkValues(s[n..]);
      Ok([v] + vs)
  }

  /** Σ v_i·2^(13i) */
  function Packed(vs: seq<nat>): nat {
    if vs == [] then 0 else Packed(vs[..|vs| - 1]) + ShiftLeft(vs[|vs| - 1], 13 * (|vs| - 1))
  }

  function Unpack(s: string): Result<Bytes, PanQrError> {
    var vs :- ChunkValues(s);
    Ok(LeBytes(Packed(vs), 13 * |vs| / 8))
  }

  function Fields(vs: seq<nat>): seq<(nat, nat)> {
    seq(|vs|, i requires 0 <= i < |vs| => (vs[i], 13))
  }

  predicate Small(vs: seq<nat>) {
    forall i :: 0 <= i < |vs| ==> vs[i] <= MAX_CHUNK_VALUE
  }

  lemma Pow13()
    ensures Pow(2, 13) == 8192
  {
    assert Pow(2, 4) == 16;
    PowAdd(2, 4, 4);
    PowAdd(2, 8, 4);
    PowAdd(2, 12, 1);
    assert Pow(2, 1) == 2 * Pow(2, 0);
  }

  lemma {:induction false} StreamOfFields(vs: seq<nat>)
    requires Small(vs)
    ensures StreamBits(Fields(vs)) == 13 * |vs| && StreamValue(Fields(vs)) == Packed(vs)
  {
    if vs != [] {
      var before, v := vs[..|vs| - 1], vs[|vs| - 1];
      StreamOfFields(before);
      StreamAppends(Fields(before), v, 13);
      assert Fields(vs) == Fields(before) + [(v, 13)];
      LowBitsOfSmall(v);
    }
  }

  lemma StreamAppends(fed: seq<(nat, nat)>, v: nat, w: nat)
    ensures StreamBits(fed + [(v, w)]) == StreamBits(fed) + w
    ensures StreamValue(fed + [(v, w)]) == StreamValue(fed) + ShiftLeft(LowBits(v, w), StreamBits(fed))
  {
    assert (fed + [(v, w)])[..|fed|] == fed;
  }

  lemma LowBitsOfSmall(v: nat)
    requires v <= MAX_CHUNK_VALUE
    ensures LowBits(v, 13) == v
  {
    Pow13();
    SmallRemainder(v, 8192);
  }

  /** `unpack_scanned_string`: the low ⌊13n/8⌋ bytes of Σ v_i·2^(13i), or the first bad chunk. */
  method UnpackScannedString(scanned: string) returns (r: Result<Bytes, PanQrError>)
    ensures r == Unpack(scanned)
  {
    var unpacker := new BitUnpacker();
    ghost var vs: seq<nat> := [];
    var i := 0;
    assert scanned[0..] == scanned;
    PrefixNone(ChunkValues(scanned));
    while i < |scanned|
      invariant 0 <= i <= |scanned|
      invariant unpacker.Valid() && fresh(unpacker)
      invariant Small(vs) && unpacker.fed == Fields(vs)
      invariant ChunkValues(scanned) == Prefixed(vs, ChunkValues(scanned[i..]))
    {
      var n := if |scanned| - i < 4 then |scanned| - i else 4;
      var chunk := scanned[i..i + n];
      ChunkAhead(scanned, i, n, vs);
      var value := ChunkValue(chunk);
      if value.Err? { return Err(value.error); }
      var done := unpacker.BitUnpack(value.value, 13);
      vs := vs + [value.value];
      i := i + n;
    }
    assert vs + [] == vs;
    StreamOfFields(vs);
    OutputDetermined(unpacker.output, unpacker.a, unpacker.b, unpacker.fed);
    r := Ok(unpacker.output);
  }

  ghost function Prefixed(vs: seq<nat>, r: Result<seq<nat>, PanQrError>): Result<seq<nat>, PanQrError> {
    match r
    case Err(e) => Err(e)
    case Ok(ws) => Ok(vs + ws)
  }

  /** Reading the chunk at i: its error is the scan's, and its value comes before those of the rest. */
  lemma ChunkAhead(scanned: string, i: nat, n: nat, vs: seq<nat>)
    requires i < |scanned| && n == if |scanned| - i < 4 then |scanned| - i else 4
    ensures var (value, all) := (ChunkValue(scanned[i..i + n]), Prefixed(vs, ChunkValues(scanned[i..])));
            if value.Err? then all == Err(value.error)
            else all == Prefixed(vs + [value.value], ChunkValues(scanned[i + n..]))
  {
    assert scanned[i..][..n] == scanned[i..i + n] && scanned[i..][n..] == scanned[i + n..];
    var value := ChunkValue(scanned[i..i + n]);
    if value.Ok? { PrefixOne(vs, value.value, ChunkValues(scanned[i + n..])); }
  }

  lemma PrefixNone(r: Result<seq<nat>, PanQrError>)
    ensures Prefixed([], r) == r
  {
    if r.Ok? { assert [] + r.value == r.value; }
  }

  lemma PrefixOne(vs: seq<nat>, v: nat, r: Result<seq<nat>, PanQrError>)
    ensures Prefixed(vs, Prefixed([v], r)) == Prefixed(vs + [v], r)
  {
    if r.Ok? { assert vs + ([v] + r.value) == vs + [v] + r.value; }
  }

  // ------------------------------------------------------------------ injectivity

  lemma ChunkBelow(v: nat, w: nat, low: nat)
    requires v < 8192 && low < w
    ensures low + v * w < 8192 * w
  {
    MulOrder(v + 1, 8192, w);
    assert (v + 1) * w == v * w + w;
  }

  lemma {:induction false} PackedBound(vs: seq<nat>)
    requires Small(vs)
    ensures Packed(vs) < Pow(2, 13 * |vs|)
  {
    if vs != [] {
      var before, v, w := vs[..|vs| - 1], vs[|vs| - 1], Pow(2, 13 * (|vs| - 1));
      PackedBound(before);
      Pow13();
      PowAdd(2, 13, 13 * (|vs| - 1));
      ChunkBelow(v, w, Packed(before));
    } else {
      assert Pow(2, 0) == 1;
    }
  }

  /** Equal packings of equally many small values come from equal values. */
  lemma {:induction false} PackedInjective(vs: seq<nat>, ws: seq<nat>)
    requires Small(vs) && Small(ws) && |vs| == |ws| && Packed(vs) == Packed(ws)
    ensures vs == ws
  {
    if vs != [] {
      var k := |vs| - 1;
      var w := Pow(2, 13 * k);
      PackedBound(vs[..k]);
      PackedBound(ws[..k]);
      QuotientUnique(Packed(vs), w, vs[k], Packed(vs[..k]));
      QuotientUnique(Packed(ws), w, ws[k], Packed(ws[..k]));
      PackedInjective(vs[..k], ws[..k]);
      assert vs == vs[..k] + [vs[k]] && ws == ws[..k] + [ws[k]];
    }
  }

  lemma {:induction false} ValuesInjective(s: string, t: string)
    requires ChunkValues(s).Ok? && ChunkValues(s) == ChunkValues(t)
    ensures s == t
  {
    AcceptedShape(s);
    AcceptedShape(t);
    if s != [] {
      assert ChunkValues(s).value[1..] == ChunkValues(s[4..]).value;
      assert ChunkValues(t).value[1..] == ChunkValues(t[4..]).value;
      ValuesInjective(s[4..], t[4..]);
      DecimalInjective(s[..4], t[..4]);
      assert s == s[..4] + s[4..] && t == t[..4] + t[4..];
    }
  }

  lemma {:induction false} DecimalInjective(s: string, t: string)
    requires |s| == |t| && AllDigits(s) && AllDigits(t) && Decimal(s) == Decimal(t)
    ensures s == t
  {
    if s != [] {
      var k := |s| - 1;
      LastDigit(Decimal(s[..k]), DigitOf(s[k]), Decimal(t[..k]), DigitOf(t[k]));
      DecimalInjective(s[..k], t[..k]);
      assert s == s[..k] + [s[k]] && t == t[..k] + [t[k]];
    }
  }

  lemma LastDigit(u: nat, d: nat, v: nat, e: nat)
    requires d <= 9 && e <= 9 && u * 10 + d == v * 10 + e
    ensures u == v && d == e
  {
  }

  lemma {:induction false} AcceptedShape(s: string)
    requires ChunkValues(s).Ok?
    ensures |s| == 4 * |ChunkValues(s).value| && Small(ChunkValues(s).value)
  {
    if s != [] {
      assert |s[..if |s| < 4 then |s| else 4]| == 4;
      AcceptedShape(s[4..]);
    }
  }

  /** A scan of 8k chunks is determined by the bytes it unpacks to. */
  lemma WholeScansInjective(s: string, t: string)
    requires Unpack(s).Ok? && Unpack(s) == Unpack(t) && |s| / 4 % 8 == 0
    ensures s == t
  {
    AcceptedShape(s);
    AcceptedShape(t);
    var vs, ws := ChunkValues(s).value, ChunkValues(t).value;
    var len := 13 * |vs| / 8;
    assert |LeBytes(Packed(ws), 13 * |ws| / 8)| == len;
    SameCount(|vs|, |ws|);
    WholeBytes(vs);
    WholeBytes(ws);
    PackedInjective(vs, ws);
    ValuesInjective(s, t);
  }

  lemma SameCount(n: nat, m: nat)
    requires n % 8 == 0 && 13 * n / 8 == 13 * m / 8
    ensures n == m
  {
  }

  lemma WholeBytes(vs: seq<nat>)
    requires Small(vs) && |vs| % 8 == 0
    ensures LeNat(LeBytes(Packed(vs), 13 * |vs| / 8)) == Packed(vs)
  {
    var len, bits, packed := 13 * |vs| / 8, 13 * |vs|, Packed(vs);
    EightTimes(|vs|);
    PackedBound(vs);
    Pow256(len);
    assert Pow(2, 8 * len) == Pow(2, bits);
    LeNatOfBytes(packed, len);
  }

  lemma EightTimes(n: nat)
    requires n % 8 == 0
    ensures 8 * (13 * n / 8) == 13 * n
  {
  }

  function ChunkOf(v: nat): (s: string)
    requires v <= 9999
    ensures |s| == 4
  {
    [CharOf(v / 1000), CharOf(v / 100 % 10), CharOf(v / 10 % 10), CharOf(v % 10)]
  }

  function CharOf(d: nat): (c: char)
    requires d <= 9
    ensures IsDigit(c) && DigitOf(c) == d
  {
    (d + '0' as int) as char
  }

  lemma ChunkReads(v: nat)
    requires v <= MAX_CHUNK_VALUE
    ensures ChunkValue(ChunkOf(v)) == Ok(v)
  {
    var s := ChunkOf(v);
    assert s[..3][..2] == s[..2] && s[..2][..1] == s[..1] && s[..1][..0] == [];
    assert Decimal(s[..1]) == v / 1000;
    assert Decimal(s[..2]) == v / 100;
    assert Decimal(s[..3]) == v / 10;
  }

  lemma {:induction false} ValuesAppend(s: string, chunk: string)
    requires ChunkValues(s).Ok? && ChunkValue(chunk).Ok?
    ensures ChunkValues(s + chunk) == Ok(ChunkValues(s).value + [ChunkValue(chunk).value])
  {
    AcceptedShape(s);
    var v := ChunkValue(chunk).value;
    if s == [] {
      ValuesCons(chunk, "");
      assert s + chunk == chunk == chunk + "";
      assert [v] + [] == [] + [v];
    } else {
      var h, t := s[..4], s[4..];
      assert s == h + t && s + chunk == h + (t + chunk);
      ValuesCons(h, t);
      ValuesCons(h, t + chunk);
      ValuesAppend(t, chunk);
      Joined(ChunkValue(h).value, ChunkValues(t).value, v);
    }
  }

  lemma Joined(v: nat, vs: seq<nat>, w: nat)
    ensures [v] + (vs + [w]) == [v] + vs + [w]
  {
  }

  /** Removing the last chunk of an accepted scan. */
  lemma {:induction false} ValuesSplit(s: string)
    requires ChunkValues(s).Ok? && s != []
    ensures |s| >= 4 && ChunkValues(s[..|s| - 4]).Ok? && ChunkValue(s[|s| - 4..]).Ok?
    ensures ChunkValues(s).value == ChunkValues(s[..|s| - 4]).value + [ChunkValue(s[|s| - 4..]).value]
  {
    AcceptedShape(s);
    var h, t := s[..4], s[4..];
    assert s == h + t;
    ValuesCons(h, t);
    if |s| == 4 {
      assert s[..|s| - 4] == "" && s[|s| - 4..] == h;
      assert [ChunkValue(h).value] + [] == [] + [ChunkValue(h).value];
    } else {
      AcceptedShape(t);
      ValuesSplit(t);
      var front := t[..|t| - 4];
      ChunkSlices(s);
      ValuesCons(h, front);
      Joined(ChunkValue(h).value, ChunkValues(front).value, ChunkValue(t[|t| - 4..]).value);
    }
  }

  /** The chunks of a string: its first four characters, and those of the rest. */
  lemma ValuesCons(h: string, t: string)
    requires |h| == 4
    ensures ChunkValues(h + t).Ok? <==> ChunkValue(h).Ok? && ChunkValues(t).Ok?
    ensures ChunkValues(h + t).Ok? ==> ChunkValues(h + t).value == [ChunkValue(h).value] + ChunkValues(t).value
  {
    assert (h + t)[..4] == h && (h + t)[4..] == t;
  }

  lemma ChunkSlices(s: string)
    requires |s| >= 8
    ensures s[..|s| - 4] == s[..4] + s[4..][..|s| - 8] && s[|s| - 4..] == s[4..][|s| - 8..]
  {
  }

  /** Whole multiples of their range do not show in the low bytes. */
  lemma {:induction false} LeBytesLow(n: nat, high: nat, m: nat, len: nat)
    requires m == n + Pow(256, len) * high
    ensures LeBytes(m, len) == LeBytes(n, len)
  {
    if len > 0 {
      var w := Pow(256, len - 1);
      PowPositive(256, len - 1);
      assert m == 256 * (n / 256 + w * high) + n % 256 by {
        assert 256 * (w * high) == Pow(256, len) * high;
      }
      assert w * high >= 0;
      QuotientUnique(m, 256, n / 256 + w * high, n % 256);
      LeBytesLow(n / 256, high, n / 256 + w * high, len - 1);
    }
  }

  /** Setting the top bit of the last chunk does not show when some bits of it are left over. */
  lemma TopBitHidden(before: seq<nat>, low: nat)
    requires low < 4096 && (|before| + 1) % 8 != 0
    ensures var len := 13 * (|before| + 1) / 8;
            LeBytes(Packed(before + [low]), len) == LeBytes(Packed(before + [low + 4096]), len)
  {
    var len := 13 * (|before| + 1) / 8;
    PackedSnoc(before, low);
    PackedSnoc(before, low + 4096);
    LeftoverBits(|before| + 1);
    var high := TopBitWeight(13 * |before|, len);
    AddHidden(Packed(before), low, Pow(2, 13 * |before|), high, len,
              Packed(before + [low]), Packed(before + [low + 4096]));
  }

  lemma LeftoverBits(n: nat)
    requires n % 8 != 0
    ensures 8 * (13 * n / 8) < 13 * n
  {
  }

  lemma PackedSnoc(before: seq<nat>, v: nat)
    ensures Packed(before + [v]) == Packed(before) + v * Pow(2, 13 * |before|)
  {
    assert (before + [v])[..|before|] == before;
  }

  lemma AddHidden(base: nat, low: nat, t: int, high: nat, len: nat, x: nat, y: nat)
    requires 4096 * t == Pow(256, len) * high && x == base + low * t && y == base + (low + 4096) * t
    ensures LeBytes(x, len) == LeBytes(y, len)
  {
    LeBytesLow(x, high, y, len);
  }

  /** 4096·2^k is a multiple of the range of the bytes below it. */
  lemma TopBitWeight(k: nat, len: nat) returns (high: nat)
    requires k + 12 >= 8 * len
    ensures 4096 * Pow(2, k) == Pow(256, len) * high
  {
    Pow13();
    assert Pow(2, 13) == 2 * Pow(2, 12);
    PowAdd(2, 12, k);
    Pow256(len);
    PowAdd(2, 8 * len, k + 12 - 8 * len);
    PowPositive(2, k + 12 - 8 * len);
    high := Pow(2, k + 12 - 8 * len);
  }

  /** A value with its top bit flipped. */
  function Twin(v: nat): (w: nat)
    requires v <= MAX_CHUNK_VALUE
    ensures w <= MAX_CHUNK_VALUE && w != v
  {
    if v < 4096 then v + 4096 else v - 4096
  }

  lemma TwinHidden(before: seq<nat>, v: nat)
    requires v <= MAX_CHUNK_VALUE && (|before| + 1) % 8 != 0
    ensures var len := 13 * (|before| + 1) / 8;
            LeBytes(Packed(before + [v]), len) == LeBytes(Packed(before + [Twin(v)]), len)
  {
    TopBitHidden(before, if v < 4096 then v else Twin(v));
  }

  /** Any other scan has a twin: bits of its last chunk never reach the output. */
  lemma PartialScanHasTwin(s: string) returns (t: string)
    requires Unpack(s).Ok? && |s| / 4 % 8 != 0
    ensures t != s && Unpack(t) == Unpack(s)
  {
    AcceptedShape(s);
    ValuesSplit(s);
    var prefix, v := s[..|s| - 4], ChunkValue(s[|s| - 4..]).value;
    t := TwinScan(prefix, v, ChunkValues(prefix).value);
    assert |ChunkValues(s).value| == |ChunkValues(prefix).value| + 1;
    TwinHidden(ChunkValues(prefix).value, v);
    LastDiffers(ChunkValues(prefix).value, v, Twin(v));
  }

  lemma TwinScan(prefix: string, v: nat, before: seq<nat>) returns (t: string)
    requires ChunkValues(prefix) == Ok(before) && v <= MAX_CHUNK_VALUE
    ensures ChunkValues(t) == Ok(before + [Twin(v)])
  {
    ChunkReads(Twin(v));
    ValuesAppend(prefix, ChunkOf(Twin(v)));
    t := prefix + ChunkOf(Twin(v));
  }

  lemma LastDiffers(before: seq<nat>, v: nat, w: nat)
    requires v != w
    ensures before + [v] != before + [w]
  {
    assert (before + [v])[|before|] == v && (before + [w])[|before|] == w;
  }

  /** A scan is determined by the bytes it unpacks to exactly when its chunks come in eights. */
  lemma ScanDeterminedExactly(s: string)
    requires Unpack(s).Ok?
    ensures (forall t :: Unpack(t) == Unpack(s) ==> t == s) <==> |s| / 4 % 8 == 0
  {
    if |s| / 4 % 8 == 0 {
      forall t | Unpack(t) == Unpack(s) ensures t == s {
        WholeScansInjective(s, t);
      }
    } else {
      var t := PartialScanHasTwin(s);
    }
  }
}
