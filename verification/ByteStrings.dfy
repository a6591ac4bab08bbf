/** Bytes, the big-endian numbers they spell, and bitwise operations on numbers. */
module ByteStrings {
  import opened Modular

  type Byte = b: int | 0 <= b < 256
  type Bytes = seq<Byte>

  // ------------------------------------------------------ big-endian numbers

  /** The number a byte string spells: num-bigint's `from_bytes_be`. */
  function Nat(s: Bytes): nat {
    if s == [] then 0 else Nat(s[..|s| - 1]) * 256 + s[|s| - 1]
  }

  /** The last `len` bytes of n, zero-padded on the left. */
  function Fixed(n: nat, len: nat): (s: Bytes)
    ensures |s| == len
  {
    if len == 0 then [] else Fixed(n / 256, len - 1) + [n % 256]
  }

  /** num-bigint's `to_bytes_be`: no leading zeros, and one zero byte for 0. */
  function Minimal(n: nat): (s: Bytes)
    ensures |s| > 0
  {
    if n < 256 then [n] else Minimal(n / 256) + [n % 256]
  }

  function Zeros(len: nat): (s: Bytes)
    ensures |s| == len
  {
    seq(len, _ => 0)
  }

  method CheckZeros(s: Bytes) returns (clear: bool)
    ensures clear <==> s == Zeros(|s|)
  {
    for i := 0 to |s|
      invariant forall j :: 0 <= j < i ==> s[j] == 0
    {
      if s[i] != 0 {
        assert Zeros(|s|)[i] == 0;
        return false;
      }
    }
    clear := true;
  }

  lemma {:induction false} NatBound(s: Bytes)
    ensures Nat(s) < Pow(256, |s|)
  {
    if s != [] { NatBound(s[..|s| - 1]); }
  }

  lemma {:induction false} NatOfFixed(n: nat, len: nat)
    requires n < Pow(256, len)
    ensures Nat(Fixed(n, len)) == n
  {
    if len > 0 {
      NatOfFixed(n / 256, len - 1);
      var s := Fixed(n, len);
      assert s[..len - 1] == Fixed(n / 256, len - 1);
    }
  }

  lemma {:induction false} FixedOfNat(s: Bytes)
    ensures Fixed(Nat(s), |s|) == s
  {
    if s != [] {
      FixedOfNat(s[..|s| - 1]);
      assert s == s[..|s| - 1] + [s[|s| - 1]];
    }
  }

  /** Strings of one length that spell one number are equal. */
  lemma NatInjective(s: Bytes, t: Bytes)
    requires |s| == |t| && Nat(s) == Nat(t)
    ensures s == t
  {
    FixedOfNat(s);
    FixedOfNat(t);
  }

  lemma {:induction false} NatConcat(s: Bytes, t: Bytes)
    ensures Nat(s + t) == Nat(s) * Pow(256, |t|) + Nat(t)
  {
    if t == [] {
      assert s + t == s;
    } else {
      var u := t[..|t| - 1];
      NatConcat(s, u);
      assert (s + t)[..|s + t| - 1] == s + u;
      assert (Nat(s) * Pow(256, |u|)) * 256 == Nat(s) * (256 * Pow(256, |u|)) by {
        assert Pow(256, |u|) * 256 == 256 * Pow(256, |u|);
      }
    }
  }

  /** The leading byte weighs 256^(length − 1). */
  lemma NatLeadingByte(s: Bytes)
    requires s != []
    ensures Nat(s) == s[0] * Pow(256, |s| - 1) + Nat(s[1..])
  {
    assert s == [s[0]] + s[1..];
    NatConcat([s[0]], s[1..]);
    assert Nat([s[0]]) == s[0] by { assert [s[0]][..0] == []; }
  }

  lemma {:induction false} NatZeros(len: nat)
    ensures Nat(Zeros(len)) == 0
  {
    if len > 0 {
      NatZeros(len - 1);
      assert Zeros(len)[..len - 1] == Zeros(len - 1);
    }
  }

  lemma NatLeadingZeros(len: nat, s: Bytes)
    ensures Nat(Zeros(len) + s) == Nat(s)
  {
    NatConcat(Zeros(len), s);
    NatZeros(len);
  }

  lemma {:induction false} NatOfMinimal(n: nat)
    ensures Nat(Minimal(n)) == n
  {
    var s := Minimal(n);
    if n < 256 {
      assert s[..0] == [];
    } else {
      NatOfMinimal(n / 256);
      assert s[..|s| - 1] == Minimal(n / 256);
    }
  }

  lemma {:induction false} MinimalLength(n: nat, len: nat)
    requires len > 0
    ensures |Minimal(n)| <= len <==> n < Pow(256, len)
  {
    if n < 256 {
      PowPositive(256, len - 1);
    } else if len > 1 {
      MinimalLength(n / 256, len - 1);
    } else {
      assert Pow(256, 1) == 256 * Pow(256, 0);
    }
  }

  lemma {:induction false} MinimalLeadingByte(n: nat)
    ensures n > 0 ==> Minimal(n)[0] != 0
  {
    if n >= 256 { MinimalLeadingByte(n / 256); }
  }

  /** A string without a leading zero is the minimal one for its number. */
  lemma {:induction false} MinimalOfNat(s: Bytes)
    requires s != [] && s[0] != 0
    ensures Minimal(Nat(s)) == s && Nat(s) > 0
  {
    var t := s[..|s| - 1];
    assert s == t + [s[|s| - 1]];
    if t != [] {
      MinimalOfNat(t);
    }
  }

  /** Left-padding `to_bytes_be` to `len` bytes gives the fixed-width form. */
  lemma PaddedMinimal(n: nat, len: nat)
    requires |Minimal(n)| <= len
    ensures Zeros(len - |Minimal(n)|) + Minimal(n) == Fixed(n, len)
  {
    var s := Zeros(len - |Minimal(n)|) + Minimal(n);
    NatLeadingZeros(len - |Minimal(n)|, Minimal(n));
    NatOfMinimal(n);
    FixedOfNat(s);
  }

  // ------------------------------------------------------------ bit lengths

  /** num-bigint's `bits`: how many binary digits n has. */
  function BitLength(n: nat): nat {
    if n == 0 then 0 else 1 + BitLength(n / 2)
  }

  lemma {:induction false} BitLengthBounds(n: nat)
    ensures n < Pow(2, BitLength(n))
    ensures n > 0 ==> Pow(2, BitLength(n) - 1) <= n
  {
    if n > 1 {
      BitLengthBounds(n / 2);
    } else if n == 1 {
      assert BitLength(1) == 1 + BitLength(0);
      assert Pow(2, 1) == 2 * Pow(2, 0);
    }
  }

  lemma {:induction false} PowMonotone(b: nat, e: nat, f: nat)
    requires b >= 1 && e <= f
    ensures Pow(b, e) <= Pow(b, f)
  {
    if e < f {
      PowMonotone(b, e, f - 1);
      PowPositive(b, f - 1);
    }
  }

  lemma {:induction false} Pow256(k: nat)
    ensures Pow(256, k) == Pow(2, 8 * k)
  {
    PowMul(2, 8, k);
    assert Pow(2, 8) == 256 by {
      assert Pow(2, 4) == 16;
      PowAdd(2, 4, 4);
    }
  }

  /** The bytes `bits.div_ceil(8)` are exactly enough. */
  function ByteLength(n: nat): nat {
    (BitLength(n) + 7) / 8
  }

  lemma ByteLengthFits(n: nat)
    ensures n < Pow(256, ByteLength(n))
    ensures n > 0 ==> ByteLength(n) > 0 && Pow(256, ByteLength(n) - 1) <= n
  {
    var k := ByteLength(n);
    BitLengthBounds(n);
    Pow256(k);
    PowMonotone(2, BitLength(n), 8 * k);
    if n > 0 {
      Pow256(k - 1);
      PowMonotone(2, 8 * (k - 1), BitLength(n) - 1);
    }
  }

  // ------------------------------------------------------------ bitwise operations

  /** `v >> k` */
  function ShiftRight(v: nat, k: nat): nat {
    PowPositive(2, k);
    v / Pow(2, k)
  }

  /** `v << k` */
  function ShiftLeft(v: nat, k: nat): nat {
    PowPositive(2, k);
    v * Pow(2, k)
  }

  /** `v & ((1 << k) - 1)` */
  function LowBits(v: nat, k: nat): nat {
    PowPositive(2, k);
    v % Pow(2, k)
  }

  /** Bitwise exclusive or, bit by bit from the lowest. */
  function Xor(a: nat, b: nat): nat {
    if a == 0 && b == 0 then 0 else (a + b) % 2 + 2 * Xor(a / 2, b / 2)
  }

  /** Bitwise or, bit by bit from the lowest. */
  function Or(a: nat, b: nat): nat {
    if a == 0 && b == 0 then 0
    else (if a % 2 == 1 || b % 2 == 1 then 1 else 0) + 2 * Or(a / 2, b / 2)
  }

  lemma XorStep(a: nat, b: nat)
    ensures Xor(a, b) / 2 == Xor(a / 2, b / 2) && Xor(a, b) % 2 == (a + b) % 2
  {
    if a == 0 && b == 0 {
      assert Xor(0 / 2, 0 / 2) == 0;
    } else {
      HalfAndParity((a + b) % 2, Xor(a / 2, b / 2));
    }
  }

  lemma ParityOfSum(a: nat, b: nat, c: nat, d: nat)
    requires a % 2 == c % 2 && b % 2 == d % 2
    ensures (a + b) % 2 == (c + d) % 2
  {
    CongIffSameRemainder(a, c, 2);
    CongIffSameRemainder(b, d, 2);
    CongAdd(a, c, b, d, 2);
    CongIffSameRemainder(a + b, c + d, 2);
  }

  lemma HalfAndParity(bit: nat, h: nat)
    requires bit < 2
    ensures (bit + 2 * h) / 2 == h && (bit + 2 * h) % 2 == bit
  {
  }

  lemma OrStep(a: nat, w: nat)
    ensures Or(a, 2 * w) == a % 2 + 2 * Or(a / 2, w)
    ensures Or(2 * w, a) == a % 2 + 2 * Or(w, a / 2)
  {
    if a == 0 && w == 0 {
      assert Or(0, 0) == 0;
    } else {
      OrUnfolds(a, 2 * w, a % 2, 0);
      OrUnfolds(2 * w, a, 0, a % 2);
    }
  }

  lemma OrUnfolds(a: nat, b: nat, i: nat, j: nat)
    requires a != 0 || b != 0
    requires a % 2 == i && b % 2 == j && i * j == 0
    ensures Or(a, b) == i + j + 2 * Or(a / 2, b / 2)
  {
  }

  lemma HalfBelow(a: nat, h: nat)
    requires a < 2 * h
    ensures a / 2 < h
  {
  }

  lemma DoubleProduct(v: nat, h: nat)
    ensures v * (2 * h) == 2 * (v * h)
  {
  }

  lemma {:induction false} XorCancels(a: nat, b: nat)
    ensures Xor(Xor(a, b), b) == a
  {
    if a != 0 || b != 0 {
      var x := Xor(a, b);
      XorStep(a, b);
      XorStep(x, b);
      XorCancels(a / 2, b / 2);
      ParityCancels(a, b, x);
      SameHalfAndParity(a, Xor(x, b));
    }
  }

  lemma ParityCancels(a: nat, b: nat, x: nat)
    requires x % 2 == (a + b) % 2
    ensures (x + b) % 2 == a % 2
  {
  }

  lemma SameHalfAndParity(a: nat, b: nat)
    requires a / 2 == b / 2 && a % 2 == b % 2
    ensures a == b
  {
  }

  /** Keeping the low k bits commutes with exclusive or. */
  lemma {:induction false} XorLowBits(a: nat, b: nat, k: nat)
    ensures Pow(2, k) > 0
    ensures Xor(a, b) % Pow(2, k) == Xor(a % Pow(2, k), b % Pow(2, k))
  {
    PowPositive(2, k);
    if k == 0 {
      assert Xor(0, 0) == 0;
    } else {
      var h := Pow(2, k - 1);
      PowPositive(2, k - 1);
      XorLowBits(a / 2, b / 2, k - 1);
      HalfOfRemainder(a, h);
      HalfOfRemainder(b, h);
      HalfOfRemainder(Xor(a, b), h);
      XorStep(a, b);
      XorStep(a % (2 * h), b % (2 * h));
      ParityOfSum(a, b, a % (2 * h), b % (2 * h));
    }
  }

  lemma HalfOfRemainder(a: nat, h: nat)
    requires h > 0
    ensures (a % (2 * h)) / 2 == (a / 2) % h && (a % (2 * h)) % 2 == a % 2
  {
    var q := (a / 2) / h;
    var r := (a / 2) % h;
    assert a / 2 == h * q + r;
    assert a == (2 * h) * q + (2 * r + a % 2) by {
      assert 2 * (h * q) == (2 * h) * q;
    }
    CongIntro(a, 2 * r + a % 2, q, 2 * h);
    CongIffSameRemainder(a, 2 * r + a % 2, 2 * h);
    SmallRemainder(2 * r + a % 2, 2 * h);
  }

  lemma XorBelow(a: nat, b: nat, k: nat)
    requires a < Pow(2, k) && b < Pow(2, k)
    ensures Xor(a, b) < Pow(2, k)
  {
    XorLowBits(a, b, k);
    SmallRemainder(a, Pow(2, k));
    SmallRemainder(b, Pow(2, k));
  }

  function XorByte(a: Byte, b: Byte): Byte {
    assert Pow(2, 8) == 256 by { PowAdd(2, 4, 4); assert Pow(2, 4) == 16; }
    XorBelow(a, b, 8);
    Xor(a, b)
  }

  function XorBytes(a: Bytes, b: Bytes): (x: Bytes)
    requires |a| == |b|
    ensures |x| == |a|
  {
    seq(|a|, i requires 0 <= i < |a| => XorByte(a[i], b[i]))
  }

  /** An or of disjoint bit ranges is a sum. */
  lemma {:induction false} OrDisjoint(a: nat, v: nat, k: nat)
    requires a < Pow(2, k)
    ensures Or(a, v * Pow(2, k)) == a + v * Pow(2, k)
    ensures Or(v * Pow(2, k), a) == a + v * Pow(2, k)
  {
    if k == 0 {
      assert a == 0;
      OrZero(v);
      assert v * Pow(2, 0) == v;
    } else {
      var h := Pow(2, k - 1);
      HalfBelow(a, h);
      OrDisjoint(a / 2, v, k - 1);
      DoubleProduct(v, h);
      OrStep(a, v * h);
    }
  }

  lemma {:induction false} OrZero(v: nat)
    ensures Or(0, v) == v && Or(v, 0) == v
  {
    if v != 0 { OrZero(v / 2); }
  }
}
