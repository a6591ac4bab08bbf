/** ISO/IEC 9797-1: Padding Method 2, and MAC Algorithm 3 over single DES. */
module Iso9797 {
  import opened Wrappers
  import opened ByteStrings
  import Modular

  const DES_BLOCK_SIZE := 8

  datatype Iso9797Error =
    | InvalidKeyLength(len: nat)
    | InvalidDataLength(len: nat)
    | InvalidBlockSize
    | UnpadFailed

  // ------------------------------------------------------------------------- padding

  function Pad(data: Bytes, blockSize: nat): Result<Bytes, Iso9797Error> {
    if blockSize == 0 then Err(InvalidBlockSize)
    else
      var padLen := blockSize - |data| % blockSize;
      Ok(data + [0x80] + Zeros(padLen - 1))
  }

  /** `unpad`: skip the trailing zeros, require the marker, and bound the run by one block. */
  method Unpad(data: Bytes, blockSize: nat) returns (r: Result<Bytes, Iso9797Error>)
    ensures r.Ok? ==> IsPadding(data, r.value, blockSize)
    ensures r.Err? ==> r.error == UnpadFailed && forall d :: !IsPadding(data, d, blockSize)
  {
    if blockSize != 0 && (data == [] || |data| % blockSize != 0) { return Err(UnpadFailed); }
    var i := |data|;
    while i > 0 && data[i - 1] == 0x00
      invariant 0 <= i <= |data|
      invariant data[i..] == Zeros(|data| - i)
    {
      i := i - 1;
      assert data[i..] == [0] + data[i + 1..];
    }
    forall d | IsPadding(data, d, blockSize) ensures i > 0 && data[i - 1] == 0x80 && d == data[..i - 1] {
      MarkerUnique(data, d, i);
    }
    if i == 0 || data[i - 1] != 0x80 { return Err(UnpadFailed); }
    var padLen := |data| - (i - 1);
    if blockSize != 0 && padLen > blockSize { return Err(UnpadFailed); }
    r := Ok(data[..i - 1]);
    assert data == data[..i - 1] + [0x80] + data[i..];
  }

  /** `data` is `d`, the marker and zeros; with a block size, whole blocks of which the padding takes at most one. */
  predicate IsPadding(data: Bytes, d: Bytes, blockSize: nat) {
    && |d| < |data|
    && data == d + [0x80] + Zeros(|data| - |d| - 1)
    && (blockSize != 0 ==> |data| % blockSize == 0 && |data| - |d| <= blockSize)
  }

  lemma MarkerUnique(data: Bytes, d: Bytes, i: nat)
    requires |d| < |data| && data == d + [0x80] + Zeros(|data| - |d| - 1)
    requires i <= |data| && data[i..] == Zeros(|data| - i) && (i > 0 ==> data[i - 1] != 0)
    ensures i > 0 && data[i - 1] == 0x80 && d == data[..i - 1]
  {
    assert data[|d|] == 0x80;
    var zeros := Zeros(|data| - |d| - 1);
    assert forall j :: |d| < j < |data| ==> data[j] == zeros[j - |d| - 1];
    assert forall j :: i <= j < |data| ==> data[j] == data[i..][j - i];
  }

  /** The number of zeros method 2 appends is the one that completes a block. */
  lemma PaddingLength(len: nat, total: nat, blockSize: nat)
    requires blockSize > 0
    ensures total % blockSize == 0 && len < total <= len + blockSize
            <==> total == len + (blockSize - len % blockSize)
  {
    var q, r, pad := len / blockSize, len % blockSize, blockSize - len % blockSize;
    assert len == q * blockSize + r;
    assert len + pad == (q + 1) * blockSize;
    Modular.MultipleIsZero(q + 1, blockSize);
    if total % blockSize == 0 && len < total <= len + blockSize {
      BetweenMultiples(total / blockSize, q, r, blockSize);
    }
  }

  lemma BetweenMultiples(t: nat, q: nat, r: nat, b: nat)
    requires b > 0 && r < b
    requires q * b + r < t * b <= q * b + r + b
    ensures t == q + 1
  {
    Modular.MulOrder(t, q, b);
    Modular.MulOrder(q + 2, t, b);
  }

  /** With a block size, what unpads to `d` is exactly `d` padded; so padding is undone, and loses nothing. */
  lemma PaddingExact(data: Bytes, d: Bytes, blockSize: nat)
    requires blockSize > 0
    ensures IsPadding(data, d, blockSize) <==> Pad(d, blockSize) == Ok(data)
  {
    PaddingLength(|d|, |data|, blockSize);
  }

  // ---------------------------------------------------------------------------- MAC

  /** Single DES on one block under an eight-byte key. */
  datatype Des = Des(encrypt: (Bytes, Bytes) -> Bytes, decrypt: (Bytes, Bytes) -> Bytes)

  predicate IsBlock(b: Bytes) {
    |b| == DES_BLOCK_SIZE
  }

  /** Under each key, encryption and decryption are inverse permutations of the blocks. */
  ghost predicate IsPermutation(des: Des) {
    forall key, block :: IsBlock(block) ==>
      && IsBlock(des.encrypt(key, block)) && IsBlock(des.decrypt(key, block))
      && des.decrypt(key, des.encrypt(key, block)) == block
      && des.encrypt(key, des.decrypt(key, block)) == block
  }

  /** The last block of a CBC encryption that starts from `iv`. */
  function Cbc(des: Des, key: Bytes, iv: Bytes, data: Bytes): (last: Bytes)
    requires IsBlock(iv) && |data| % DES_BLOCK_SIZE == 0
    requires forall k, b :: IsBlock(b) ==> IsBlock(des.encrypt(k, b))
    ensures IsBlock(last)
    decreases |data|
  {
    if data == [] then iv
    else
      var block := XorBytes(iv, data[..8]);
      assert IsBlock(block);
      Cbc(des, key, des.encrypt(key, block), data[8..])
  }

  ghost predicate KeyFits(key: Bytes) {
    |key| == 16 || |key| == 24
  }

  /** The three single-DES keys of a two- or three-key bundle. */
  function ThirdKey(key: Bytes): Bytes
    requires |key| == 16 || |key| == 24
  {
    if |key| == 16 then key[..8] else key[16..24]
  }

  function Mac(des: Des, key: Bytes, data: Bytes): Bytes
    requires KeyFits(key) && IsPermutation(des) && |data| % 8 == 0
  {
    des.encrypt(ThirdKey(key), des.decrypt(key[8..16], Cbc(des, key[..8], Zeros(8), data)))
  }

  method MacAlg3(des: Des, key: Bytes, msg: Bytes, padMsg: bool) returns (r: Result<Bytes, Iso9797Error>)
    requires IsPermutation(des)
    ensures !KeyFits(key) ==> r == Err(InvalidKeyLength(|key|))
    ensures KeyFits(key) && padMsg ==>
              exists data :: IsPadding(data, msg, 8) && r == Ok(Mac(des, key, data))
    ensures KeyFits(key) && !padMsg ==>
              r == if msg != [] && |msg| % 8 == 0 then Ok(Mac(des, key, msg)) else Err(InvalidDataLength(|msg|))
  {
    if |key| != 16 && |key| != 24 { return Err(InvalidKeyLength(|key|)); }
    var ka, kb := key[0..8], key[8..16];
    var kc := if |key| == 16 then ka else key[16..24];
    assert ka == key[..8];
    var data := msg;
    if padMsg {
      data := Pad(msg, DES_BLOCK_SIZE).value;
      PaddingExact(data, msg, DES_BLOCK_SIZE);
    }
    if |data| % DES_BLOCK_SIZE != 0 { return Err(InvalidDataLength(|data|)); }
    if data == [] { return Err(InvalidDataLength(0)); }
    var mac := Cbc(des, ka, Zeros(8), data);
    mac := des.decrypt(kb, mac);
    mac := des.encrypt(kc, mac);
    r := Ok(mac);
  }

  lemma {:induction false} CbcSplit(des: Des, key: Bytes, iv: Bytes, a: Bytes, b: Bytes)
    requires IsPermutation(des) && IsBlock(iv) && |a| % 8 == 0 && |b| % 8 == 0
    ensures Cbc(des, key, iv, a + b) == Cbc(des, key, Cbc(des, key, iv, a), b)
    decreases |a|
  {
    if a == [] {
      assert a + b == b;
    } else {
      CbcSplit(des, key, des.encrypt(key, XorBytes(iv, a[..8])), a[8..], b);
      assert (a + b)[..8] == a[..8] && (a + b)[8..] == a[8..] + b;
    }
  }

  lemma XorInjective(iv: Bytes, iv': Bytes, a: Bytes, a': Bytes)
    requires |iv| == |iv'| == |a| == |a'|
    requires XorBytes(iv, a) == XorBytes(iv', a')
    ensures a == a' ==> iv == iv'
    ensures iv == iv' ==> a == a'
  {
    forall i | 0 <= i < |a| ensures (a[i] == a'[i] ==> iv[i] == iv'[i]) && (iv[i] == iv'[i] ==> a[i] == a'[i]) {
      assert XorBytes(iv, a)[i] == XorBytes(iv', a')[i];
      XorCancels(iv[i], a[i]);
      XorCancels(iv'[i], a'[i]);
      XorCommutes(iv[i], a[i]);
      XorCommutes(iv'[i], a'[i]);
      XorCancels(a[i], iv[i]);
      XorCancels(a'[i], iv'[i]);
    }
  }

  lemma {:induction false} XorCommutes(a: nat, b: nat)
    ensures Xor(a, b) == Xor(b, a)
  {
    if a != 0 || b != 0 { XorCommutes(a / 2, b / 2); }
  }

  /** Over one message, a CBC chain loses nothing of the state it starts from. */
  lemma {:induction false} CbcInjective(des: Des, key: Bytes, iv: Bytes, iv': Bytes, data: Bytes)
    requires IsPermutation(des) && IsBlock(iv) && IsBlock(iv') && |data| % 8 == 0
    requires Cbc(des, key, iv, data) == Cbc(des, key, iv', data)
    ensures iv == iv'
    decreases |data|
  {
    if data != [] {
      var x, x' := XorBytes(iv, data[..8]), XorBytes(iv', data[..8]);
      CbcInjective(des, key, des.encrypt(key, x), des.encrypt(key, x'), data[8..]);
      assert x == des.decrypt(key, des.encrypt(key, x)) == x';
      XorInjective(iv, iv', data[..8], data[..8]);
    }
  }

  /** Two messages have one MAC exactly when their CBC chains end in one block: the last two steps permute. */
  lemma MacExact(des: Des, key: Bytes, data: Bytes, data': Bytes)
    requires KeyFits(key) && IsPermutation(des) && |data| % 8 == 0 && |data'| % 8 == 0
    ensures Mac(des, key, data) == Mac(des, key, data')
            <==> Cbc(des, key[..8], Zeros(8), data) == Cbc(des, key[..8], Zeros(8), data')
  {
    var h, h' := Cbc(des, key[..8], Zeros(8), data), Cbc(des, key[..8], Zeros(8), data');
    var d, d' := des.decrypt(key[8..16], h), des.decrypt(key[8..16], h');
    assert des.encrypt(key[8..16], d) == h && des.encrypt(key[8..16], d') == h';
    assert des.decrypt(ThirdKey(key), des.encrypt(ThirdKey(key), d)) == d;
    assert des.decrypt(ThirdKey(key), des.encrypt(ThirdKey(key), d')) == d';
  }

  /**
   The three steps of MAC algorithm 3, undone one by one: the chain runs under the first
   key from a zero block, its last block is decrypted under the second and encrypted
   under the third, which in a two-key bundle is the first again.
   */
  lemma MacSteps(des: Des, key: Bytes, ka: Bytes, kb: Bytes, kc: Bytes, data: Bytes)
    requires KeyFits(key) && IsPermutation(des) && |data| % 8 == 0
    requires |ka| == |kb| == |kc| == 8
    requires key == if |key| == 16 then ka + kb else ka + kb + kc
    requires |key| == 16 ==> kc == ka
    ensures IsBlock(Mac(des, key, data))
    ensures des.encrypt(kb, des.decrypt(kc, Mac(des, key, data))) == Cbc(des, ka, Zeros(8), data)
  {
    assert key[..8] == ka && key[8..16] == kb && ThirdKey(key) == kc;
    var chained := Cbc(des, ka, Zeros(8), data);
    assert des.encrypt(kb, des.decrypt(kb, chained)) == chained;
  }

  /** The chain: nothing leaves the block it starts from, and one more block is added and encrypted. */
  lemma ChainSteps(des: Des, key: Bytes, iv: Bytes, data: Bytes, block: Bytes)
    requires IsPermutation(des) && IsBlock(iv) && IsBlock(block) && |data| % 8 == 0
    ensures Cbc(des, key, iv, []) == iv
    ensures Cbc(des, key, iv, data + block) == des.encrypt(key, XorBytes(Cbc(des, key, iv, data), block))
  {
    CbcSplit(des, key, iv, data, block);
    OneBlock(des, key, Cbc(des, key, iv, data), block);
  }

  /** Changing one block of a message, wherever it is, always changes the MAC. */
  lemma OneBlockChangesMac(des: Des, key: Bytes, before: Bytes, x: Bytes, y: Bytes, after: Bytes)
    requires KeyFits(key) && IsPermutation(des) && |before| % 8 == 0 && |after| % 8 == 0
    requires IsBlock(x) && IsBlock(y) && x != y
    ensures Mac(des, key, before + x + after) != Mac(des, key, before + y + after)
  {
    var k, h := key[..8], Cbc(des, key[..8], Zeros(8), before);
    MacExact(des, key, before + x + after, before + y + after);
    CbcSplit(des, k, Zeros(8), before + x, after);
    CbcSplit(des, k, Zeros(8), before + y, after);
    CbcSplit(des, k, Zeros(8), before, x);
    CbcSplit(des, k, Zeros(8), before, y);
    OneBlock(des, k, h, x);
    OneBlock(des, k, h, y);
    var ex, ey := XorBytes(h, x), XorBytes(h, y);
    if Mac(des, key, before + x + after) == Mac(des, key, before + y + after) {
      CbcInjective(des, k, des.encrypt(k, ex), des.encrypt(k, ey), after);
      assert ex == des.decrypt(k, des.encrypt(k, ex)) == ey;
      XorInjective(h, h, x, y);
      assert false;
    }
  }

  lemma OneBlock(des: Des, key: Bytes, iv: Bytes, x: Bytes)
    requires IsPermutation(des) && IsBlock(iv) && IsBlock(x)
    ensures Cbc(des, key, iv, x) == des.encrypt(key, XorBytes(iv, x))
  {
    assert x[..8] == x && x[8..] == [];
  }

  /** A two-key bundle is the three-key bundle that repeats its first key; with one key repeated, plain CBC-MAC. */
  lemma KeyBundles(des: Des, key: Bytes, data: Bytes)
    requires |key| == 16 && IsPermutation(des) && |data| % 8 == 0
    ensures Mac(des, key + key[..8], data) == Mac(des, key, data)
    ensures key[..8] == key[8..] ==> Mac(des, key, data) == Cbc(des, key[..8], Zeros(8), data)
  {
    var long := key + key[..8];
    assert long[..8] == key[..8] && long[8..16] == key[8..16] && long[16..24] == key[..8];
    assert key[8..16] == key[8..];
  }
}
