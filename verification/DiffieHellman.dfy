/** The PKCS #3 engine: key ranges, peer validation, secrets and PACE generic mapping. */
module DiffieHellman {
  import opened Modular
  import opened Primes
  import opened Polynomials
  import opened Wrappers
  import opened ByteStrings

  /** Group parameters; `q` is the order of the subgroup g generates, when known. */
  datatype DhParameterSpec = DhParameterSpec(p: nat, g: nat, length: nat, q: Option<nat>)

  datatype Engine = Engine(spec: DhParameterSpec, publicKey: nat, privateKey: nat)

  datatype DhError =
    | ZeroPrivateKey
    | PrivateKeyTooLarge
    | InvalidModulus
    | PeerKeyOutOfRange
    | PeerKeyOutsideSubgroup
    | DegenerateGenerator
    | InvalidSubgroupOrder
    | InvalidBitLength
    | NoKeyRange

  /** `new` with a given private key; the modulus must be positive for its arithmetic to be defined. */
  function New(spec: DhParameterSpec, privateKey: nat): Result<Engine, DhError>
    requires spec.p > 0
  {
    var upper := if spec.q.Some? then spec.q.value else spec.p - 1;
    if privateKey == 0 then Err(ZeroPrivateKey)
    else if privateKey >= upper then Err(PrivateKeyTooLarge)
    else Ok(Engine(spec, ModPow(spec.g, privateKey, spec.p), privateKey))
  }

  function ValidatePeer(spec: DhParameterSpec, y: nat): Result<Unit, DhError> {
    if spec.p < 2 then Err(InvalidModulus)
    else if y < 2 || y > spec.p - 2 then Err(PeerKeyOutOfRange)
    else if spec.q.Some? && ModPow(y, spec.q.value, spec.p) != 1 then Err(PeerKeyOutsideSubgroup)
    else Ok(Unit)
  }

  function ComputeSecret(engine: Engine, peer: nat): Result<nat, DhError> {
    var _ :- ValidatePeer(engine.spec, peer);
    Ok(ModPow(peer, engine.privateKey, engine.spec.p))
  }

  /** Generic mapping: the shared secret times g^nonce, refused at the ends of the range. */
  function ComputeGenerator(engine: Engine, peer: nat, nonce: nat): Result<nat, DhError> {
    var h :- ComputeSecret(engine, peer);
    var p := engine.spec.p;
    var mapped := ModPow(engine.spec.g, nonce, p) * h % p;
    if mapped < 2 || mapped > p - 2 then Err(DegenerateGenerator) else Ok(mapped)
  }

  // -------------------------------------------------------------------- agreement

  /** What is asked of a group: an odd prime q with g^q ≡ 1 and g ≢ 1 modulo p > 2. */
  ghost predicate GoodGroup(spec: DhParameterSpec) {
    && spec.p > 2 && spec.q.Some? && IsPrime(spec.q.value) && spec.q.value % 2 == 1
    && ModPow(spec.g, spec.q.value, spec.p) == 1
    && spec.g % spec.p != 1
  }

  lemma OneIsOne(p: nat)
    requires p > 1
    ensures 1 % p == 1
  {
  }

  /** Powers of g repeat with period q … */
  lemma PeriodicPower(g: nat, q: nat, m: nat, p: nat)
    requires p > 1 && q > 0 && ModPow(g, q, p) == 1
    ensures Cong(Pow(g, m), Pow(g, m % q), p)
  {
    var k := m / q;
    assert m == q * k + m % q;
    OneIsOne(p);
    CongIffSameRemainder(Pow(g, q), 1, p);
    CongPow(Pow(g, q), 1, k, p);
    PowOne(k);
    PowMul(g, q, k);
    PowAdd(g, q * k, m % q);
    CongMul(Pow(g, q * k), 1, Pow(g, m % q), Pow(g, m % q), p);
  }

  /** … and a power is 1 only at the multiples of q. */
  lemma PowerIsOne(spec: DhParameterSpec, m: nat)
    requires GoodGroup(spec)
    ensures ModPow(spec.g, m, spec.p) == 1 <==> m % spec.q.value == 0
  {
    var p, g, q := spec.p, spec.g, spec.q.value;
    var r := m % q;
    OneIsOne(p);
    PeriodicPower(g, q, m, p);
    CongIffSameRemainder(Pow(g, m), Pow(g, r), p);
    if r != 0 && ModPow(g, r, p) == 1 {
      var b := ReducedInverse(r, q);
      InversePowerIsBase(g, q, r, b, p);
    }
  }

  lemma ReducedInverse(r: nat, q: nat) returns (b: nat)
    requires IsPrime(q) && 0 < r < q
    ensures Product(r, b) % q == 1
  {
    var inverse := InverseExists(r, q);
    b := inverse % q;
    CongMod(inverse, q);
    CongMul(r, r, b, inverse, q);
    CongTrans(r * b, r * inverse, 1, q);
    CongIffSameRemainder(Product(r, b), 1, q);
    OneIsOne(q);
  }

  /** With rb ≡ 1 mod q, g = g^(r·b) = 1. */
  lemma InversePowerIsBase(g: nat, q: nat, r: nat, b: nat, p: nat)
    requires p > 1 && q > 0 && ModPow(g, q, p) == 1 && ModPow(g, r, p) == 1 && Product(r, b) % q == 1
    ensures g % p == 1
  {
    PeriodicPower(g, q, Product(r, b), p);
    assert Pow(g, 1) == g * Pow(g, 0);
    ModPowMul(g, r, b, p);
    PowOne(b);
    OneIsOne(p);
    CongIffSameRemainder(Pow(g, Product(r, b)), g, p);
  }

  /** Every power of g lies in the subgroup and is never 0 or p − 1. */
  lemma PowerInSubgroup(spec: DhParameterSpec, m: nat)
    requires GoodGroup(spec)
    ensures var y := ModPow(spec.g, m, spec.p);
            && ModPow(y, spec.q.value, spec.p) == 1
            && y != 0 && y != spec.p - 1
  {
    var p, g, q := spec.p, spec.g, spec.q.value;
    ModPowMul(g, m, q, p);
    assert m * q % q == 0 by { MultipleIsZero(m, q); }
    PowerIsOne(spec, m * q);
    SubgroupExcludes(ModPow(g, m, p), p, q);
  }

  lemma SubgroupExcludes(y: nat, p: nat, q: nat)
    requires p > 2 && q % 2 == 1 && ModPow(y, q, p) == 1
    ensures y != 0 && y != p - 1
  {
    OneIsOne(p);
    PowMinusOne(q);
    if y == 0 {
      assert Pow(0, q) == 0;
    } else if y == p - 1 {
      CongIntro(y, -1, 1, p);
      CongPow(y, -1, q, p);
      CongIffSameRemainder(Pow(y, q), 1, p);
      CongSym(Pow(y, q), 1, p);
      CongTrans(1, Pow(y, q), -1, p);
      SmallRemainder(2, p);
    }
  }

  lemma {:induction false} PowMinusOne(e: nat)
    ensures Pow(-1, e) == if e % 2 == 0 then 1 else -1
  {
    if e > 0 { PowMinusOne(e - 1); }
  }

  /**
   A peer's key is accepted exactly when it lies strictly between 1 and p − 1 and, where
   the order is known, its q-th power is 1; and the refusal says which of the two failed.
   */
  lemma ValidatePeerExact(spec: DhParameterSpec, y: nat)
    ensures ValidatePeer(spec, y) == Ok(Unit)
            <==> 1 < y < spec.p - 1 && (spec.q.Some? ==> Cong(Pow(y, spec.q.value), 1, spec.p))
    ensures ValidatePeer(spec, y) == Err(PeerKeyOutsideSubgroup)
            <==> 1 < y < spec.p - 1 && spec.q.Some? && !Cong(Pow(y, spec.q.value), 1, spec.p)
    ensures ValidatePeer(spec, y) == Err(PeerKeyOutOfRange) <==> spec.p >= 2 && !(1 < y < spec.p - 1)
    ensures ValidatePeer(spec, y) == Err(InvalidModulus) <==> spec.p < 2
  {
    if spec.p >= 2 && spec.q.Some? {
      OneIsOne(spec.p);
      CongIffSameRemainder(Pow(y, spec.q.value), 1, spec.p);
    }
  }

  /** In the subgroup of order 11 modulo 23 there is no 5, though 5 is in range. */
  lemma OutsideSubgroupIsRefused()
    ensures var spec := DhParameterSpec(23, 2, 0, Some(11));
            GoodGroup(spec) && ValidatePeer(spec, 5) == Err(PeerKeyOutsideSubgroup)
  {
    assert Pow(2, 4) == 16 && Pow(5, 4) == 625;
    PowAdd(2, 4, 4);
    PowAdd(2, 8, 3);
    PowAdd(5, 4, 4);
    PowAdd(5, 8, 3);
    assert Pow(2, 11) == 2048 && Pow(5, 11) == 48828125;
  }

  /** Every public key an engine makes passes its peer's validation. */
  lemma PublicKeyValidates(spec: DhParameterSpec, privateKey: nat)
    requires GoodGroup(spec) && New(spec, privateKey).Ok?
    ensures ValidatePeer(spec, New(spec, privateKey).value.publicKey) == Ok(Unit)
  {
    PowerInSubgroup(spec, privateKey);
    PowerIsOne(spec, privateKey);
    SmallRemainder(privateKey, spec.q.value);
  }

  /** g^i and g^j differ for i < j < q. */
  lemma PowersDiffer(spec: DhParameterSpec, i: nat, j: nat)
    requires GoodGroup(spec) && i < j < spec.q.value
    ensures !Cong(Pow(spec.g, j), Pow(spec.g, i), spec.p)
  {
    var p, g, q := spec.p, spec.g, spec.q.value;
    if Cong(Pow(g, j), Pow(g, i), p) {
      CongMul(Pow(g, j), Pow(g, i), Pow(g, q - i), Pow(g, q - i), p);
      PowAdd(g, j, q - i);
      PowAdd(g, i, q - i);
      CongIffSameRemainder(Pow(g, j + (q - i)), Pow(g, q), p);
      PowerIsOne(spec, j + (q - i));
      CongIntro(j + (q - i), j - i, 1, q);
      CongIffSameRemainder(j + (q - i), j - i, q);
      SmallRemainder(j - i, q);
    }
  }

  /** Modulo a prime every root of x^q ≡ 1 is a power of g: there are no more than q of them. */
  lemma RootIsPower(spec: DhParameterSpec, y: nat) returns (x: nat)
    requires GoodGroup(spec) && IsPrime(spec.p) && Cong(Pow(y, spec.q.value), 1, spec.p)
    ensures x < spec.q.value && Cong(Pow(spec.g, x), y, spec.p)
  {
    var p, g, q := spec.p, spec.g, spec.q.value;
    if i: nat :| i < q && Cong(Pow(g, i), y, p) {
      x := i;
    } else {
      var powers := seq(q, i requires 0 <= i < q => Pow(g, i));
      forall i | 0 <= i < q ensures Cong(Pow(powers[i], q), 1, p) { PowerIsRoot(spec, i); }
      forall i, j | 0 <= i < j < q ensures !Cong(powers[j], powers[i], p) { PowersDiffer(spec, i, j); }
      RootsOfUnityAreFew(q, [y] + powers, p);
    }
  }

  lemma PowerIsRoot(spec: DhParameterSpec, i: nat)
    requires GoodGroup(spec)
    ensures Cong(Pow(Pow(spec.g, i), spec.q.value), 1, spec.p)
  {
    var p, q := spec.p, spec.q.value;
    PowMul(spec.g, i, q);
    assert i * q % q == 0 by { MultipleIsZero(i, q); }
    PowerIsOne(spec, i * q);
    OneIsOne(p);
    CongIffSameRemainder(Pow(spec.g, i * q), 1, p);
  }

  /** For a prime modulus, the keys accepted from a peer are exactly the public keys engines make. */
  lemma AcceptedKeysExactly(spec: DhParameterSpec, y: nat)
    requires GoodGroup(spec) && IsPrime(spec.p)
    ensures ValidatePeer(spec, y) == Ok(Unit) <==> exists x :: New(spec, x).Ok? && New(spec, x).value.publicKey == y
  {
    forall x | New(spec, x).Ok? && New(spec, x).value.publicKey == y ensures ValidatePeer(spec, y) == Ok(Unit) {
      PublicKeyValidates(spec, x);
    }
    if ValidatePeer(spec, y) == Ok(Unit) {
      ValidatePeerExact(spec, y);
      var x := RootIsPower(spec, y);
      SmallRemainder(y, spec.p);
      CongIffSameRemainder(Pow(spec.g, x), y, spec.p);
      OneIsOne(spec.p);
      assert x == 0 ==> Pow(spec.g, x) == 1;
      assert New(spec, x).Ok? && New(spec, x).value.publicKey == y;
    }
  }

  /** A key in range that passes the subgroup check could be the group's generator. */
  lemma AcceptedKeyGenerates(spec: DhParameterSpec, y: nat)
    requires GoodGroup(spec) && ValidatePeer(spec, y) == Ok(Unit)
    ensures 2 <= y <= spec.p - 2 && Cong(Pow(y, spec.q.value), 1, spec.p)
    ensures GoodGroup(spec.(g := y))
  {
    OneIsOne(spec.p);
    CongIffSameRemainder(Pow(y, spec.q.value), 1, spec.p);
    SmallRemainder(y, spec.p);
  }

  /**
   Confinement to the subgroup. Whatever the peer sends, honest or not, a secret that is
   computed is a power of a number of order q: it is in the subgroup, and it is not 1.
   */
  lemma SecretIsConfined(spec: DhParameterSpec, a: nat, peer: nat)
    requires GoodGroup(spec) && New(spec, a).Ok? && ComputeSecret(New(spec, a).value, peer).Ok?
    ensures var z := ComputeSecret(New(spec, a).value, peer).value;
            && 2 <= peer <= spec.p - 2 && Cong(Pow(peer, spec.q.value), 1, spec.p)
            && Cong(z, Pow(peer, a), spec.p)
            && Cong(Pow(z, spec.q.value), 1, spec.p)
            && 2 <= z <= spec.p - 2
  {
    var p, q := spec.p, spec.q.value;
    AcceptedKeyGenerates(spec, peer);
    PowerInSubgroup(spec.(g := peer), a);
    PowerIsOne(spec.(g := peer), a);
    SmallRemainder(a, q);
    CongMod(Pow(peer, a), p);
    OneIsOne(p);
    CongIffSameRemainder(Pow(ModPow(peer, a, p), q), 1, p);
  }

  /**
   In any group, with a known order or none: the secret is the accepted peer's key to the
   private one, and the generator g^nonce times the secret, refused at both ends of the range.
   */
  lemma GeneratorExactly(engine: Engine, peer: nat, nonce: nat, r: nat)
    requires engine.spec.p > 0
    ensures ComputeGenerator(engine, peer, nonce) == Ok(r)
            <==> && ValidatePeer(engine.spec, peer) == Ok(Unit) && 1 < r < engine.spec.p - 1
                 && Cong(r, Pow(engine.spec.g, nonce) * Pow(peer, engine.privateKey), engine.spec.p)
    ensures ComputeGenerator(engine, peer, nonce) == Err(DegenerateGenerator)
            <==> && ValidatePeer(engine.spec, peer) == Ok(Unit)
                 && (Pow(engine.spec.g, nonce) * Pow(peer, engine.privateKey)) % engine.spec.p in {0, 1, engine.spec.p - 1}
  {
    var p := engine.spec.p;
    var u, v := Pow(engine.spec.g, nonce), Pow(peer, engine.privateKey);
    ModMul(u, v, p);
    CongIffSameRemainder(r, u * v, p);
    if 1 < r < p - 1 { SmallRemainder(r, p); }
  }

  /** Both sides compute one secret. */
  lemma SecretsAgree(spec: DhParameterSpec, a: nat, b: nat)
    requires GoodGroup(spec) && New(spec, a).Ok? && New(spec, b).Ok?
    ensures var (alice, bob) := (New(spec, a).value, New(spec, b).value);
            && ComputeSecret(alice, bob.publicKey) == ComputeSecret(bob, alice.publicKey)
            && ComputeSecret(alice, bob.publicKey) == Ok(ModPow(spec.g, a * b, spec.p))
  {
    PublicKeyValidates(spec, a);
    PublicKeyValidates(spec, b);
    ModPowMul(spec.g, a, b, spec.p);
    ModPowMul(spec.g, b, a, spec.p);
    assert a * b == b * a;
  }

  /**
   Both sides map to one generator g^(nonce + ab), or both refuse it, and they refuse
   exactly when q divides nonce + ab.
   */
  lemma GeneratorsAgree(spec: DhParameterSpec, a: nat, b: nat, nonce: nat)
    requires GoodGroup(spec) && New(spec, a).Ok? && New(spec, b).Ok?
    ensures var (alice, bob) := (New(spec, a).value, New(spec, b).value);
            && ComputeGenerator(alice, bob.publicKey, nonce) == ComputeGenerator(bob, alice.publicKey, nonce)
            && ComputeGenerator(alice, bob.publicKey, nonce)
               == if (nonce + a * b) % spec.q.value == 0 then Err(DegenerateGenerator)
                  else Ok(ModPow(spec.g, nonce + a * b, spec.p))
  {
    var p, g := spec.p, spec.g;
    SecretsAgree(spec, a, b);
    PowAdd(g, nonce, a * b);
    ModMul(Pow(g, nonce), Pow(g, a * b), p);
    PowerInSubgroup(spec, nonce + a * b);
    PowerIsOne(spec, nonce + a * b);
  }

  /**
   A generator that is returned, for any key a peer may send, honest or not, is g^nonce
   times the secret and meets the hypotheses again: it has order q, and the second round
   agrees as the first did.
   */
  lemma MappedGeneratorIsGood(spec: DhParameterSpec, a: nat, peer: nat, nonce: nat)
    requires GoodGroup(spec) && New(spec, a).Ok? && ComputeGenerator(New(spec, a).value, peer, nonce).Ok?
    ensures var mapped := ComputeGenerator(New(spec, a).value, peer, nonce).value;
            && Cong(mapped, Pow(spec.g, nonce) * Pow(peer, a), spec.p)
            && GoodGroup(spec.(g := mapped))
  {
    var p, q := spec.p, spec.q.value;
    var u, h := ModPow(spec.g, nonce, p), ComputeSecret(New(spec, a).value, peer).value;
    SecretIsConfined(spec, a, peer);
    PowerInSubgroup(spec, nonce);
    CongMod(Pow(spec.g, nonce), p);
    CongMul(u, Pow(spec.g, nonce), h, Pow(peer, a), p);
    OneIsOne(p);
    CongIffSameRemainder(Pow(u, q), 1, p);
    ProductInSubgroup(u, h, q, p);
    CongMod(u * h, p);
    CongTrans(u * h % p, u * h, Pow(spec.g, nonce) * Pow(peer, a), p);
    SmallRemainder(u * h % p, p);
  }

  lemma ProductInSubgroup(u: nat, h: nat, q: nat, p: nat)
    requires p > 1 && Cong(Pow(u, q), 1, p) && Cong(Pow(h, q), 1, p)
    ensures ModPow(Product(u, h) % p, q, p) == 1
  {
    var m := Product(u, h);
    PowOfProduct(u, h, q);
    CongMul(Pow(u, q), 1, Pow(h, q), 1, p);
    CongMod(m, p);
    CongPow(m % p, m, q, p);
    CongTrans(Pow(m % p, q), Pow(m, q), 1, p);
    OneIsOne(p);
    CongIffSameRemainder(Pow(m % p, q), 1, p);
  }

  // --------------------------------------------------------------- private keys

  /** What a draw becomes: the surplus high bits of the leading byte dropped, read as a number. */
  function Candidate(buf: Bytes, keepBits: nat): nat
    requires |buf| * 8 <= keepBits + 7
  {
    if |buf| * 8 > keepBits && buf != [] then
      var limit := Pow(2, 8 - (|buf| * 8 - keepBits));
      PowPositive(2, 8 - (|buf| * 8 - keepBits));
      MaskedByte(buf[0], limit);
      Nat([buf[0] % limit] + buf[1..])
    else Nat(buf)
  }

  lemma MaskedByte(b: Byte, limit: nat)
    requires limit > 0
    ensures 0 <= b % limit < 256
  {
    if b < limit { SmallRemainder(b, limit); }
  }

  /**
   Rejection sampling in [lower, upper) over a stream of draws. That the stream holds
   an acceptable draw, at `hit`, is what makes the loop end.
   */
  method DrawInRange(draws: nat -> Bytes, len: nat, lower: nat, upper: nat, keepBits: nat, ghost hit: nat)
    returns (n: nat, ghost at: nat)
    requires len * 8 <= keepBits + 7 && forall i :: |draws(i)| == len
    requires lower <= Candidate(draws(hit), keepBits) < upper
    ensures lower <= n < upper
    ensures at <= hit && n == Candidate(draws(at), keepBits)
    ensures forall i :: 0 <= i < at ==> !(lower <= Candidate(draws(i), keepBits) < upper)
  {
    var i := 0;
    n := Candidate(draws(i), keepBits);
    while !(lower <= n < upper)
      invariant i <= hit && n == Candidate(draws(i), keepBits)
      invariant forall j :: 0 <= j < i ==> !(lower <= Candidate(draws(j), keepBits) < upper)
      decreases hit - i
    {
      i := i + 1;
      n := Candidate(draws(i), keepBits);
    }
    at := i;
  }

  /** The interval and buffer a private key is drawn with, or why there is none. */
  datatype DrawPlan = DrawPlan(len: nat, lower: nat, upper: nat, keepBits: nat)

  function PlanDraw(spec: DhParameterSpec): Result<DrawPlan, DhError>
    requires spec.p > 0
  {
    match spec.q
    case Some(q) =>
      if q <= 1 then Err(InvalidSubgroupOrder)
      else Ok(DrawPlan(if ByteLength(q) >= 1 then ByteLength(q) else 1, 1, q, BitLength(q)))
    case None =>
      if spec.length == 0 || spec.length % 8 != 0 then Err(InvalidBitLength)
      else
        var lower, cap := Pow(2, spec.length - 1), Pow(2, spec.length);
        PowPositive(2, spec.length - 1);
        PowPositive(2, spec.length);
        var upper := if cap <= spec.p - 1 then cap else spec.p - 1;
        if upper <= lower then Err(NoKeyRange)
        else Ok(DrawPlan(spec.length / 8, lower, upper, spec.length))
  }

  lemma CandidateOfSmall(v: nat, len: nat, keepBits: nat)
    requires keepBits <= len * 8 <= keepBits + 7 && v < Pow(2, keepBits)
    ensures Candidate(Fixed(v, len), keepBits) == v
  {
    Pow256(len);
    PowMonotone(2, keepBits, len * 8);
    NatOfFixed(v, len);
    var buf := Fixed(v, len);
    if len > 0 && len * 8 > keepBits {
      LeadingByteSmall(buf, keepBits, 8 - (len * 8 - keepBits));
      assert [buf[0]] + buf[1..] == buf;
    }
  }

  lemma LeadingByteSmall(buf: Bytes, keepBits: nat, bits: nat)
    requires |buf| > 0 && bits + 8 * (|buf| - 1) == keepBits && Nat(buf) < Pow(2, keepBits)
    ensures Pow(2, bits) > 0 && buf[0] % Pow(2, bits) == buf[0]
  {
    var len := |buf| - 1;
    NatLeadingByte(buf);
    Pow256(len);
    PowAdd(2, bits, 8 * len);
    PowPositive(2, bits);
    PowPositive(256, len);
    TopByteBelow(buf[0], Pow(2, bits), Pow(256, len), Nat(buf[1..]));
    SmallRemainder(buf[0], Pow(2, bits));
  }

  lemma TopByteBelow(b: nat, limit: nat, unit: nat, low: nat)
    requires unit > 0 && b * unit + low < limit * unit
    ensures b < limit
  {
    MultipleSize(b - limit, unit);
    assert (b - limit) * unit == b * unit - limit * unit;
  }

  /**
   The guards leave a nonempty interval, every number in it can be drawn, and every
   number in it is a private key `new` accepts, with or without a subgroup order.
   */
  lemma EveryDrawIsAKey(spec: DhParameterSpec)
    requires spec.p > 0 && PlanDraw(spec).Ok?
    ensures var plan := PlanDraw(spec).value;
            && plan.lower < plan.upper
            && plan.len * 8 <= plan.keepBits + 7
            && forall v :: plan.lower <= v < plan.upper ==>
                 && New(spec, v).Ok?
                 && Candidate(Fixed(v, plan.len), plan.keepBits) == v
  {
    var plan := PlanDraw(spec).value;
    if spec.q.Some? {
      BitLengthBounds(spec.q.value);
    } else {
      PowPositive(2, spec.length - 1);
    }
    forall v | plan.lower <= v < plan.upper
      ensures New(spec, v).Ok? && Candidate(Fixed(v, plan.len), plan.keepBits) == v
    {
      CandidateOfSmall(v, plan.len, plan.keepBits);
    }
  }

  /**
   What can be drawn: with a subgroup order the numbers from 1 to q − 1, and without one
   the numbers of exactly the given count of bits, a multiple of eight, below p − 1.
   There is no plan exactly when there is no such number.
   */
  lemma DrawsExactly(spec: DhParameterSpec, v: nat)
    requires spec.p > 0
    ensures PlanDraw(spec).Ok? && PlanDraw(spec).value.lower <= v < PlanDraw(spec).value.upper
            <==> Drawable(spec, v)
    ensures PlanDraw(spec).Ok? <==> exists w :: Drawable(spec, w)
  {
    DrawableNumber(spec, v);
    if PlanDraw(spec).Ok? {
      EveryDrawIsAKey(spec);
      DrawableNumber(spec, PlanDraw(spec).value.lower);
    }
    forall w | Drawable(spec, w) ensures PlanDraw(spec).Ok? { DrawableNumber(spec, w); }
  }

  predicate Drawable(spec: DhParameterSpec, v: nat) {
    match spec.q
    case Some(q) => 0 < v < q
    case None => spec.length > 0 && spec.length % 8 == 0 && BitLength(v) == spec.length && v < spec.p - 1
  }

  lemma DrawableNumber(spec: DhParameterSpec, v: nat)
    requires spec.p > 0
    ensures PlanDraw(spec).Ok? && PlanDraw(spec).value.lower <= v < PlanDraw(spec).value.upper
            <==> Drawable(spec, v)
  {
    if spec.q.None? && spec.length > 0 { BitLengthExact(v, spec.length); }
  }

  lemma BitLengthExact(v: nat, bits: nat)
    requires bits > 0
    ensures BitLength(v) == bits <==> Pow(2, bits - 1) <= v < Pow(2, bits)
  {
    BitLengthBounds(v);
    PowPositive(2, bits - 1);
    if BitLength(v) < bits { PowMonotone(2, BitLength(v), bits - 1); }
    if BitLength(v) > bits { PowMonotone(2, bits, BitLength(v) - 1); }
  }

  /** A private key is accepted exactly when it lies between 0 and q, or p − 1 where q is not known. */
  lemma KeysExactly(spec: DhParameterSpec, k: nat)
    requires spec.p > 0
    ensures New(spec, k).Ok? <==> 0 < k && (if spec.q.Some? then k < spec.q.value else k + 1 < spec.p)
    ensures New(spec, k).Ok? ==>
              var e := New(spec, k).value;
              e.spec == spec && e.privateKey == k && e.publicKey < spec.p && Cong(e.publicKey, Pow(spec.g, k), spec.p)
    ensures New(spec, k) == Err(ZeroPrivateKey) <==> k == 0
  {
    CongMod(Pow(spec.g, k), spec.p);
  }

  /** `new` without a private key: whatever it draws, it accepts. */
  method Generate(spec: DhParameterSpec, draws: nat -> Bytes, ghost hit: nat) returns (r: Result<Engine, DhError>)
    requires spec.p > 0
    requires PlanDraw(spec).Ok? ==>
               var plan := PlanDraw(spec).value;
               && (forall i :: |draws(i)| == plan.len) && plan.len * 8 <= plan.keepBits + 7
               && plan.lower <= Candidate(draws(hit), plan.keepBits) < plan.upper
    ensures r.Err? <==> PlanDraw(spec).Err?
    ensures r.Err? ==> r.error == PlanDraw(spec).error
    ensures r.Ok? ==> PlanDraw(spec).value.lower <= r.value.privateKey < PlanDraw(spec).value.upper
    ensures r.Ok? ==> New(spec, r.value.privateKey) == r
  {
    var planned := PlanDraw(spec);
    if planned.Err? { return Err(planned.error); }
    var plan := planned.value;
    var key, _ := DrawInRange(draws, plan.len, plan.lower, plan.upper, plan.keepBits, hit);
    EveryDrawIsAKey(spec);
    r := New(spec, key);
  }
}
