# Identity-document verification: model and proofs

A Dafny model of the arithmetic, parsers and state machines with which this workspace
verifies identity documents, and proofs of what they promise.

The model keeps the form of the code. What the code computes with expressions is a
function; what it does by loops and updates is a method, proved against a function or a
predicate; objects that change are classes; the APDU bridge, whose threads interleave, is
a state machine over its lock releases, sends, receives and drops. Digests, elliptic
curves of other libraries, single DES, the file parsers and the clock are parameters, and
every theorem holds for all of them.

| file | what it models |
|---|---|
| `Curves.dfy`, `Ecdsa.dfy` | the big-integer ECDSA verifier: Jacobian coordinates, Shamir's trick, Fermat inverses |
| `SmallCurve.dfy` | a curve of four points that meets every hypothesis of the ECDSA theorems |
| `Rsa.dfy` | PKCS #1 keys, the raw public operation, PKCS #1 v1.5 and PSS verification, MGF1 |
| `ActiveAuth.dfy` | active authentication: ISO/IEC 9796-2 message recovery |
| `DiffieHellman.dfy`, `Polynomials.dfy` | the PKCS #3 engine: key ranges, peer validation, generic mapping; and how many roots a polynomial has modulo a prime |
| `Der.dfy` | the strict DER reader, `push_len`, object identifiers |
| `PassiveParse.dfy` | CMS SignedData, certificates and the security object, as they are parsed |
| `PassiveFormats.dfy`, `PassiveFields.dfy`, `PassiveSigned.dfy` | which bytes spell them, field by field |
| `PassiveSearch.dfy` | which key identifier, which signer and which certificates the walks settle on |
| `PassiveAuth.dfy`, `PassiveTrust.dfy` | the chain of trust from a CSCA to the data groups, and what it vouches for in terms of bytes, keys and signatures |
| `LiveRead.dfy` | the live read of a passport against an adversarial chip, and the verdict |
| `DirectoryCache.dfy` | the passport handle's cache of the selected directory |
| `Bridge.dfy` | the APDU bridge between worker threads and a host |
| `Unpacker.dfy`, `PanCodec.dfy` | the PAN Secure QR bit unpacker and block codec |
| `Verhoeff.dfy` | the Aadhaar check digit |
| `Iso9797.dfy` | padding method 2 and MAC algorithm 3 |
| `Hashes.dfy`, `HashNames.dfy` | the hash algorithms and the names they go by |
| `Modular.dfy`, `Primes.dfy`, `ByteStrings.dfy`, `Wrappers.dfy` | congruences, Fermat's little theorem, byte strings and bits, results |

What a theorem assumes is in its `requires`. The one fact about elliptic curves that is
assumed and not proved is that chord-and-tangent addition is associative; with it,
`Ecdsa.CurveFacts` asks that p and n are prime and that the base point is on the curve and
n times it is infinity. `SmallCurve.HypothesesHold` proves all of it for one curve, so the
hypotheses are consistent. No theorem assumes that a digest has no collisions, which no
function of fixed output length could meet: where agreement or replay depends on it, the
theorem exhibits the collision. `dafny verify dfyconfig.toml` checks the whole project.

Where the code does not do what its comments or names suggest, the model follows the code, and a lemma says so:

- `push_len` writes at most four octets of length, so what it writes for contents of 2^24
  bytes or more does not read back (`Der.ReadsBack`, `Der.ReEncodes`).
- `supply` can report that an answer was delivered although the waiter has already timed
  out (`Bridge.AcceptedButLost`). An exchange dropped without `wait` stays in the map
  exactly when no `supply` ever took its sender (`Bridge.PendingExactly`,
  `Bridge.LeftoversExactly`); `Bridge.AbandonedCanStayPending` is such a run.
- A cached read can succeed where a reader that always sends SELECT is refused
  (`DirectoryCache.ReadersCanDiffer`); `DirectoryCache.CacheIsTransparentExactly` says when.
- The warning that EF.SOD does not cover a DG15 that was read is never raised: passive
  authentication has failed by then (`LiveRead.ReadKeysAreCovered`).
- The comment on `find_ski` speaks of a fallback to a single certificate; the selection
  has none (`PassiveAuth.SelectsFirstHit`).
- `parse_signature` reads the contents of both INTEGERs as unsigned, so padded, negative
  and empty contents are accepted (`Ecdsa.NonDerSignaturesAreAccepted`);
  `Ecdsa.AcceptedIsDerExactly` says when an accepted signature is DER.

## Model

| member | source | states |
|---|---|---|
| Curves.Sub | crates/dmrtd/src/auth/ecdsa.rs:382-384 | subtraction modulo p keeps its result reduced |
| Curves.SubCong | crates/dmrtd/src/auth/ecdsa.rs:382-384 | … and is congruent to the difference for any two operands |
| Curves.DoubleRefines | crates/dmrtd/src/auth/ecdsa.rs:403-419 | for every representative Z of a point, `double` represents the tangent sum of the point with itself, infinity and y = 0 included |
| Curves.AddRefines | crates/dmrtd/src/auth/ecdsa.rs:422-456 | for all representatives of two points, `add` represents their chord-and-tangent sum: equal points, opposite points and infinity included |
| Curves.ToAffineXRefines | crates/dmrtd/src/auth/ecdsa.rs:459-467 | `to_affine_x` returns the x of the point represented, by Fermat's little theorem, and nothing exactly at infinity |
| Curves.EveryTripleRepresents | crates/dmrtd/src/auth/ecdsa.rs:374-400 | every reduced triple represents a reduced point |
| Curves.RepresentsOne | crates/dmrtd/src/auth/ecdsa.rs:374-400 | … and only one, whatever Z is |
| Curves.PlusOnCurve | crates/dmrtd/src/auth/ecdsa.rs:403-456 | sums of points on the curve are on the curve |
| Curves.PlusCommutes | crates/dmrtd/src/auth/ecdsa.rs:422-456 | the sum does not depend on the order of its operands |
| Curves.MultipleModOrder | crates/dmrtd/src/auth/ecdsa.rs:234-276 | scalars count only modulo the order of a point |
| Curves.CombinationAdd | crates/dmrtd/src/auth/ecdsa.rs:257-270 | kP + lQ is additive in both scalars |
| Ecdsa.DecodePointExact | crates/dmrtd/src/auth/ecdsa.rs:348-361 | the decoder accepts exactly 04 ‖ x ‖ y of field length, for reduced x, y on the curve |
| Ecdsa.ParseSignatureExact | crates/dmrtd/src/auth/ecdsa.rs:364-372 | a signature parses to (r, s) exactly when it is a SEQUENCE of two INTEGERs with contents of those values and nothing else |
| Ecdsa.AcceptedIsDerExactly | crates/dmrtd/src/auth/ecdsa.rs:364-372 | what is accepted is the DER encoding of (r, s) exactly when neither contents is empty, negative or padded |
| Ecdsa.NonDerSignaturesAreAccepted | crates/dmrtd/src/auth/ecdsa.rs:364-372 | two signatures that are accepted and are not DER: one padded, with a top-bit-set byte, and one empty and negative |
| SmallCurve.HypothesesHold | crates/dmrtd/src/auth/ecdsa.rs:123-131 | what the theorems ask of a curve's constants can be met: y² = x³ + x + 1 over three elements meets it |
| Ecdsa.HashToIntLeftmost | crates/dmrtd/src/auth/ecdsa.rs:247-252 | the integer's bits are the leftmost bits of the digest, in order, as many as n has or all of them, for any lengths of digest and n |
| Ecdsa.HashToIntBound | crates/dmrtd/src/auth/ecdsa.rs:247-252 | and there are no other bits |
| Ecdsa.ShamirSum | crates/dmrtd/src/auth/ecdsa.rs:257-269 | the loop over bits ends at a representative of u1·G + u2·Q, for all u1, u2 and even when G + Q is infinity |
| Ecdsa.ShamirStep | crates/dmrtd/src/auth/ecdsa.rs:262-270 | one bit position doubles the combination held and adds the two bits to its scalars |
| Ecdsa.PowerIsInverse | crates/dmrtd/src/auth/ecdsa.rs:254 | s^(n−2) mod n is the inverse of s |
| Ecdsa.VerifyBigint | crates/dmrtd/src/auth/ecdsa.rs:234-276 | `verify_bigint` accepts exactly the signatures of section 4.1.4 of SEC 1: r and s in [1, n−1] and x(u1·G + u2·Q) ≡ r with the sum finite |
| Ecdsa.SumIsNoncePoint | crates/dmrtd/src/auth/ecdsa.rs:252-270 | under Q = dG the sum computed is kG for k = (e + rd)/s |
| Ecdsa.SignedIsAccepted | crates/dmrtd/src/auth/ecdsa.rs:234-276 | every signature made with a key d and nonce k, r and s nonzero, is accepted under Q = dG |
| Rsa.ParseDerUintExact | crates/dmrtd/src/auth/rsa.rs:179-188 | the integer reader accepts exactly the minimal non-negative encodings |
| Rsa.FromPkcs1DerExact | crates/dmrtd/src/auth/rsa.rs:28-41 | a key loads exactly from the PKCS #1 encoding of a positive n and an odd e of at least 3 |
| Rsa.RawPublicExact | crates/dmrtd/src/auth/rsa.rs:53-71 | the public operation answers exactly for signatures of the modulus's length and below n, with s^e mod n at fixed width |
| Rsa.RawPublicInvertsSign | crates/dmrtd/src/auth/rsa.rs:53-71 | for n = pq and ed ≡ 1 mod lcm(p−1, q−1), a signature opens to a block below n exactly when it is the block's private power |
| Rsa.Pkcs1AcceptsOneSignature | crates/dmrtd/src/auth/rsa.rs:78-95 | under a key pair PKCS #1 v1.5 accepts exactly one signature of a message, and none when the modulus is too short |
| Rsa.Pkcs1Exact | crates/dmrtd/src/auth/rsa.rs:78-95 | PKCS #1 v1.5 accepts exactly the signatures that open to 00 ‖ 01 ‖ FF … FF ‖ 00 ‖ DigestInfo with eight or more FF, DigestInfo being the DER encoding for the digest (section 9.2 of RFC 8017) |
| HashNames.NamesExactly | crates/dmrtd/src/auth/mod.rs:61-96 | an object identifier names a hash exactly when the hash's PKCS #1 prefix and a digest are the DER DigestInfo of that identifier and digest |
| HashNames.TrailerNamesExactly | crates/dmrtd/src/auth/mod.rs:99-108 | a trailer identifier names a hash exactly when it is the hash's number in ISO/IEC 10118-3 |
| Rsa.GenerateMask | crates/dmrtd/src/auth/rsa.rs:160-172 | the mask loop produces the first len bytes of Hash(seed ‖ 0) ‖ Hash(seed ‖ 1) ‖ … (section B.2.1 of RFC 8017) |
| Rsa.MaskByte | crates/dmrtd/src/auth/rsa.rs:160-172 | byte i of the mask is byte i mod hLen of Hash(seed ‖ ⌊i / hLen⌋) |
| Rsa.CheckPss | crates/dmrtd/src/auth/rsa.rs:104-125 | the PSS check as it runs, over a block as long as the encoding or one zero byte longer |
| Rsa.CheckEncoded | crates/dmrtd/src/auth/rsa.rs:121-156 | the steps of section 9.1.2 of RFC 8017 with the first byte masked in place |
| Rsa.PssConsistentExact | crates/dmrtd/src/auth/rsa.rs:121-156 | an encoded message is consistent exactly when it is the EMSA-PSS encoding of the message under some salt of the given length |
| Rsa.PssSaltUnique | crates/dmrtd/src/auth/rsa.rs:121-156 | that salt is unique |
| Rsa.PssLayout | crates/dmrtd/src/auth/rsa.rs:121-156 | the encoding byte by byte: zeros, 01 and salt under the mask of H with only its top bits cut, then H over eight zeros, the message's hash and the salt, then BC |
| Rsa.VerifyPssExact | crates/dmrtd/src/auth/rsa.rs:104-156 | `verify_pss` accepts exactly when s^e mod n is the integer of such an encoding, for every modulus length and top-bit mask |
| Rsa.PssSignedIsAccepted | crates/dmrtd/src/auth/rsa.rs:104-156 | what a key pair signs with any salt is accepted |
| ActiveAuth.VerifyRsaExact | crates/dmrtd/src/auth/active.rs:76-130 | the RSA path accepts exactly the signatures that open to 6A ‖ M1 ‖ H(M1 ‖ challenge) ‖ trailer for some M1 and some known trailer |
| ActiveAuth.VerifyEcdsaExact | crates/dmrtd/src/auth/active.rs:143-170 | the EC path accepts exactly an uncompressed point and a signature that load, when the signature verifies for the challenge's SHA-256 or SHA-224 digest, and each refusal says what failed first |
| ActiveAuth.VerifyExact | crates/dmrtd/src/auth/active.rs:60-74 | active authentication accepts exactly the eight-byte challenges answered by a block over some M1 and this challenge, under an RSA key, or by a signature of its digest, under an EC key |
| ActiveAuth.RsaRefusals | crates/dmrtd/src/auth/active.rs:76-130 | a response is malformed exactly when it is out of range or its block is too short for what it names, and an unknown hash is named |
| ActiveAuth.GenuineChipPasses | crates/dmrtd/src/auth/active.rs:60-130 | a chip that signs such a block for this challenge with its private key passes |
| ActiveAuth.ReplayNeedsCollision | crates/dmrtd/src/auth/active.rs:76-130 | one signature accepted for two challenges yields two messages with one digest |
| DiffieHellman.PublicKeyValidates | crates/dmrtd/src/crypto/diffie_hellman.rs:126-214 | every public key an engine makes passes its peer's validation |
| DiffieHellman.ValidatePeerExact | crates/dmrtd/src/crypto/diffie_hellman.rs:190-214 | a peer's key is accepted exactly when 1 < y < p − 1 and, where q is known, y^q ≡ 1 modulo p; each refusal says which failed |
| DiffieHellman.OutsideSubgroupIsRefused | crates/dmrtd/src/crypto/diffie_hellman.rs:205-211 | a key in range and outside the subgroup, and its refusal |
| DiffieHellman.AcceptedKeysExactly | crates/dmrtd/src/crypto/diffie_hellman.rs:126-214 | for a prime p, the keys accepted from a peer are exactly the public keys engines make: the nontrivial powers of g |
| Polynomials.RootsOfUnityAreFew | crates/dmrtd/src/crypto/diffie_hellman.rs:205-211 | modulo a prime the subgroup check y^q ≡ 1 has at most q solutions |
| DiffieHellman.SecretIsConfined | crates/dmrtd/src/crypto/diffie_hellman.rs:219-227 | whatever the peer sends, honest or not, a secret that is computed is peer^a, has z^q ≡ 1 and is not 1 |
| DiffieHellman.KeysExactly | crates/dmrtd/src/crypto/diffie_hellman.rs:126-170 | `new` accepts exactly the private keys from 1 to q − 1, or to p − 2 where q is not known, and makes g^key |
| DiffieHellman.SecretsAgree | crates/dmrtd/src/crypto/diffie_hellman.rs:219-227 | both sides compute one secret, g^(ab) mod p |
| DiffieHellman.GeneratorsAgree | crates/dmrtd/src/crypto/diffie_hellman.rs:230-252 | both sides map to one generator g^(nonce + ab), or both refuse, exactly when q divides nonce + ab |
| DiffieHellman.MappedGeneratorIsGood | crates/dmrtd/src/crypto/diffie_hellman.rs:230-252 | a mapped generator returned for any peer's key, honest or not, is g^nonce·peer^a and has order q: it meets the hypotheses on g again |
| DiffieHellman.GeneratorExactly | crates/dmrtd/src/crypto/diffie_hellman.rs:230-252 | in any group, the generator returned is g^nonce·peer^a modulo p, refused exactly for an invalid peer or at 0, 1 and p − 1 |
| DiffieHellman.EveryDrawIsAKey | crates/dmrtd/src/crypto/diffie_hellman.rs:258-340 | the guards leave a nonempty interval, every number in it can be drawn, and `new` accepts every one, with or without q |
| DiffieHellman.DrawsExactly | crates/dmrtd/src/crypto/diffie_hellman.rs:258-340 | what can be drawn is exactly 1 to q − 1, or the numbers of exactly the given count of bits below p − 1; there is no plan exactly when there is no such number |
| DiffieHellman.DrawInRange | crates/dmrtd/src/crypto/diffie_hellman.rs:345-367 | rejection sampling returns the first acceptable draw, in range |
| DiffieHellman.Generate | crates/dmrtd/src/crypto/diffie_hellman.rs:126-170 | generating a key fails exactly when the guards refuse, and otherwise yields the engine `new` makes of a key in range |
| Der.ReadNext | crates/dmrtd/src/auth/der.rs:16-52 | the byte-by-byte length loop with checked arithmetic computes the value of the length octets |
| Der.NextExact | crates/dmrtd/src/auth/der.rs:16-52 | an input yields (tag, contents, rest) exactly when it is the tag, the minimal length octets, the contents and the rest (section 10.1 of ITU-T X.690) |
| Der.TakeExact | crates/dmrtd/src/auth/der.rs:55-60 | the same for an expected tag |
| Der.ExpectExact | crates/dmrtd/src/auth/der.rs:63-66 | the same with nothing left over |
| Der.NextInjective | crates/dmrtd/src/auth/der.rs:16-52 | no two inputs read to the same element and rest |
| Der.PushLenExact | crates/dmrtd/src/auth/passive.rs:949-964 | `push_len` writes the DER length exactly below 2^24 |
| Der.ReadsBack | crates/dmrtd/src/auth/passive.rs:949-964 | tag ‖ `push_len` ‖ contents ‖ rest reads back as itself exactly when the contents are under 2^24 bytes |
| Der.ReEncodes | crates/dmrtd/src/auth/passive.rs:949-964 | what is read re-encodes to the identical input exactly under the same bound |
| Der.ElementInjective | crates/dmrtd/src/auth/passive.rs:949-964 | under one tag, different contents never encode alike, of any length |
| Der.UintExact | crates/dmrtd/src/auth/passive.rs:529-540 | contents are those DER prescribes for the unsigned number they spell exactly when they are not empty, not negative and not padded |
| Der.ReadOid | crates/dmrtd/src/auth/der.rs:69-110 | the loop over `value`, `pending` and `fresh` computes the arcs |
| Der.OidExact | crates/dmrtd/src/auth/der.rs:69-110 | `oid_arcs` is a bijection between the strings it accepts and the arc lists of section 8.19 of ITU-T X.690 whose subidentifiers fit 64 bits |
| PassiveParse.ReadSignedAttrs | crates/dmrtd/src/auth/passive.rs:616-655 | the attribute walk, a later attribute of a type replacing an earlier one, and the SET that is signed |
| PassiveParse.GatherCertificates | crates/dmrtd/src/auth/passive.rs:598-612 | the certificates collected, each wrapped again as a SEQUENCE |
| PassiveParse.SearchSigned | crates/dmrtd/src/auth/passive.rs:339-378 | the search as it runs finds what `ScanSigned` does |
| PassiveParse.SearchSki | crates/dmrtd/src/auth/passive.rs:894-925 | the two walks as they run find what `FindSki` does |
| PassiveSearch.FindSkiExact | crates/dmrtd/src/auth/passive.rs:894-925 | a key identifier is found exactly when the first [3] holds extensions and the first subjectKeyIdentifier among them names it |
| PassiveSearch.NamesKeyExact | crates/dmrtd/src/auth/passive.rs:908-920 | an extension names a key exactly when it is the identifier's OID and the key in two OCTET STRINGs, with `critical` before them or without; only then may more follow |
| PassiveSearch.ScanSignedExact | crates/dmrtd/src/auth/passive.rs:339-378 | SignedData yields a signer and a certificate exactly when its tail is certificates and CRLs up to the first SET, and the certificate is selected from the last certificates before it |
| PassiveSearch.LastCertificatesExact | crates/dmrtd/src/auth/passive.rs:345-355 | those are the certificates collected from the last [0], whatever earlier ones held |
| PassiveParse.ReadHashes | crates/dmrtd/src/auth/passive.rs:683-710 | the walk that fills the map of group hashes |
| PassiveAuth.RunVerify | crates/dmrtd/src/auth/passive.rs:174-268 | `verify` as it runs, hashing group by group and trying anchor by anchor, does what `PassiveTrust.AuthenticExactly` and `TrustedExactly` say of it |
| PassiveAuth.AcceptedExactly | crates/dmrtd/src/auth/passive.rs:174-251 | a read is accepted exactly when it has groups, the object parses, every group hashes to what it says, and the signer signed a message that vouches for that object, directly or through messageDigest and content type |
| PassiveAuth.MatchedGroups | crates/dmrtd/src/auth/passive.rs:198-210 | the groups match exactly when every one of them does |
| PassiveAuth.RefusalsExact | crates/dmrtd/src/auth/passive.rs:174-210 | a mismatch is reported for the first group that does not match, and the absence of groups before anything is read |
| PassiveAuth.ChainExact | crates/dmrtd/src/auth/passive.rs:252-268 | the chain is trusted exactly when some supplied anchor signed the certificate's TBS slice, and names such an anchor |
| PassiveTrust.ValidExactly | crates/dmrtd/src/auth/passive.rs:727-747 | key and scheme together accept exactly the signatures valid under the scheme (PKCS #1, PSS or ECDSA), by a key of its kind |
| PassiveTrust.AnchorExact | crates/dmrtd/src/auth/passive.rs:146-156 | an anchor is the subject and the key of a CSCA certificate, read from the bytes that spell it |
| PassiveTrust.TrustedExactly | crates/dmrtd/src/auth/passive.rs:252-268 | the chain is trusted exactly when some anchor's subject is the issuer in the signer certificate's TBS and its key signed that TBS |
| PassiveTrust.AuthenticExactly | crates/dmrtd/src/auth/passive.rs:174-268 | from the bytes up: a read is accepted exactly when EF.SOD spells an object that covers every group and a certificate whose key made a valid signature vouching for that object |
| PassiveTrust.SelectedExactly | crates/dmrtd/src/auth/passive.rs:547-561 | the signer's certificate is the first that the identifier names, by issuer and serial number together or by key identifier, all before it being readable |
| PassiveAuth.SignedMessageFixesContent | crates/dmrtd/src/auth/passive.rs:212-251 | one signed message vouches for one content: equal contents, or contents of one digest; a signature over attributes never passes for one over a content |
| PassiveAuth.DisagreementIsCollision | crates/dmrtd/src/auth/passive.rs:174-268 | two accepted reads under one signed message that disagree on a group both supplied exhibit two byte strings with one digest: the groups, or the contents |
| PassiveAuth.SameObjectDisagreement | crates/dmrtd/src/auth/passive.rs:198-210 | under one security object both groups have one digest |
| PassiveAuth.VerifiedGroupsExact | crates/dmrtd/src/auth/passive.rs:108-135 | an accepted read vouches for exactly the groups supplied and reports exactly those of the object, both in ascending order |
| PassiveAuth.CoversAllExactly | crates/dmrtd/src/auth/passive.rs:120-135 | `covers_all_groups` holds exactly when an anchor signed and the groups supplied are the object's |
| PassiveAuth.SelectsFirstHit | crates/dmrtd/src/auth/passive.rs:547-561 | the signer's certificate is the first the identifier hits, all before it having parsed and missed |
| PassiveFormats.FrameExact | crates/dmrtd/src/auth/passive.rs:766-810 | a certificate opens exactly when it is its TBS slice, an algorithm and a signature in DER wrappers; the slice is the TBS as carried |
| PassiveFields.TbsExact | crates/dmrtd/src/auth/passive.rs:813-837 | a TBS parses to its fields exactly when it is an optional version, the serial number, the signature algorithm, the issuer, the validity, the subject, the key and a rest, in that order, and each field says what stands in its place |
| PassiveFields.SpkiExact | crates/dmrtd/src/auth/passive.rs:840-876 | a public key is read exactly from its algorithm and BIT STRING: PKCS #1 under rsaEncryption, a point of the right length under a known curve |
| PassiveFields.CertificateExact | crates/dmrtd/src/auth/passive.rs:766-837 | a certificate is read exactly from the bytes that spell it, inner and outer algorithm equal and naming a hash |
| PassiveFields.SigAlgExact | crates/dmrtd/src/auth/passive.rs:455-491 | an AlgorithmIdentifier parses to a scheme and a hash exactly when its identifier and parameters name them |
| PassiveFields.AlgoHashExact | crates/dmrtd/src/auth/passive.rs:564-580 | the same for hash algorithms, parameters NULL or absent |
| PassiveFields.IdentifiersEncoded | crates/dmrtd/src/auth/passive.rs:38-57 | the identifiers compared with, as they are encoded |
| PassiveSigned.SignedDataExact | crates/dmrtd/src/auth/passive.rs:317-378 | EF.SOD is read exactly from its wrapper or none, ContentInfo, version, digest algorithms, content under its type, and a tail that yields the signer and its certificate |
| PassiveSigned.SignerInfoExact | crates/dmrtd/src/auth/passive.rs:395-435 | a signer is read exactly from a SignerInfo in order, whose signature algorithm agrees with its digest algorithm or leaves the hash open |
| PassiveSigned.SidExact | crates/dmrtd/src/auth/passive.rs:438-452 | a signer identifier is an issuer and a serial number in a SEQUENCE, or a key identifier under [0] |
| PassiveSigned.AttributesExact | crates/dmrtd/src/auth/passive.rs:616-655 | signed attributes are a run of elements whose last messageDigest gives the digest and last content type the type, signed as the SET of them |
| PassiveSigned.EncapExact | crates/dmrtd/src/auth/passive.rs:584-595 | the content is exactly an identifier and one [0] around one OCTET STRING |
| PassiveFormats.TbsFixesCertificate | crates/dmrtd/src/auth/passive.rs:766-837 | two certificates with one TBS slice agree in every field, scheme and hash, and are equal if their signatures are; which field is which is `PassiveFields.TbsExact` |
| PassiveFormats.CertificatesVerbatim | crates/dmrtd/src/auth/passive.rs:598-612 | the certificates are collected byte for byte exactly when each is a SEQUENCE of under 2^24 bytes |
| PassiveFormats.HashesExact | crates/dmrtd/src/auth/passive.rs:683-710 | a list parses to a map exactly when it encodes hashes with distinct numbers from 1 to 127 and the map holds exactly those, each under its number |
| PassiveFormats.LdsExact | crates/dmrtd/src/auth/passive.rs:671-711 | a security object is exactly a SEQUENCE of a version, a hash algorithm and such a list of at least one hash, and of whatever follows |
| PassiveFormats.LastDigestDecides | crates/dmrtd/src/auth/passive.rs:616-655 | when messageDigest is given more than once the last one decides, and the content type is untouched by it |
| PassiveFormats.WalkAppends | crates/dmrtd/src/auth/passive.rs:620-648 | attributes are walked in order: one more at the end has the last word |
| PassiveFormats.PssParamsExact | crates/dmrtd/src/auth/passive.rs:496-527 | PSS parameters parse to a hash, a mask hash and a salt length exactly when they are the four optional fields in order that say so, absent ones by default: hash parameters NULL or absent, and a trailer of 1 if any |
| PassiveFormats.SmallUintExact | crates/dmrtd/src/auth/passive.rs:532-540 | a small integer reads exactly from the DER contents of a number below 2^31 |
| LiveRead.Channel.Transceive | crates/identity-mobile/src/passport.rs:59-66 | a transceive sets the flag exactly when it fails, and never clears it |
| LiveRead.Channel.Perform | crates/identity-mobile/src/passport.rs:53-66 | after any operation the flag says whether a transceive failed since it was last cleared |
| LiveRead.StartSession | crates/identity-mobile/src/passport.rs:297-325 | the session errors read from the flag are those of what was sent and answered |
| LiveRead.ReadPassport | crates/identity-mobile/src/passport.rs:248-478 | the read with its flag behaves, event for event, as a reference that knows no flag and only which transceives were answered |
| LiveRead.SessionErrorsExact | crates/identity-mobile/src/passport.rs:261-325 | a refused session is a wrong key exactly when every transceive since the probe was answered, a lost tag exactly when one was not, and unreadable exactly when the deciding protocol cannot be attempted |
| LiveRead.SessionOpensExactly | crates/identity-mobile/src/passport.rs:297-325 | which protocol opens a session: PACE where announced, BAC only where asked for or where the choice is free and PACE is missing or failed |
| LiveRead.LostProbeEndsTheRead | crates/identity-mobile/src/passport.rs:278-295 | a tag lost while EF.CardAccess is probed ends the read as lost, and nothing more is sent |
| LiveRead.CollectExactly | crates/identity-mobile/src/passport.rs:327-407 | what is collected, part by part, and which failure ends the read as what |
| LiveRead.ErrorsTellTheTruth | crates/identity-mobile/src/passport.rs:248-478 | `Nfc` only after a failed transceive of this read; `Access` only with none failed since the EF.CardAccess probe |
| LiveRead.LostPartsAreNotMissing | crates/identity-mobile/src/passport.rs:357-447 | a part that failed at transport is never missing from a read that completed |
| LiveRead.HolderBoundExactly | crates/identity-mobile/src/passport.rs:409-447 | a completed read reports holder binding exactly when it was asked for and the chip's answer to this run's challenge proves the key of the DG15 it gave (`ActiveAuth.Proves`), and failure exactly when it gave one and it does not |
| LiveRead.TrustworthyExactly | crates/identity-mobile/src/passport.rs:248-478 | a completed read is trustworthy exactly when one of the given CSCA certificates issued the signer of the chip's EF.SOD and its DG1 is in date, and the holder present exactly when the chip also proved the key of its DG15 |
| LiveRead.BoundKeyIsSigned | crates/identity-mobile/src/passport.rs:376-460 | the very bytes the challenge was checked under hash to what the security object says of group 15 |
| LiveRead.ReadKeysAreCovered | crates/identity-mobile/src/passport.rs:527-541 | a DG15 that was read is always covered once the files verify, so its warning is never raised and no success with a DG15 is withheld |
| LiveRead.FilesAloneNeverBind | crates/identity-mobile/src/passport.rs:485-492 | files verified without a challenge never report holder binding |
| LiveRead.VerifiedExactly | crates/identity-mobile/src/passport.rs:508-533 | the verdict covers exactly the files that were given |
| LiveRead.NoWarningsExactly | crates/identity-mobile/src/passport.rs:584-650 | there is no warning exactly when nothing signed went unread, the photograph decoded, binding did not fail and the document is in date |
| LiveRead.RetainedFilesReverify | crates/identity-mobile/src/passport.rs:462-492 | verifying the retained files again reaches the same identity and trust, without holder binding |
| LiveRead.CheckFiles | crates/identity-mobile/src/passport.rs:494-548 | `verify_files` as it runs does what the next two rows say |
| LiveRead.VerdictExactly | crates/identity-mobile/src/passport.rs:494-548 | the issuer is trusted exactly when one of the given certificates issued the signer's, the document is in date exactly when DG1 says so, and the two make it trustworthy; MRZ and photograph come from DG1 and DG2 |
| LiveRead.VerifiesExactly | crates/identity-mobile/src/passport.rs:494-548 | there is a verdict exactly when every CSCA certificate reads, the files are covered by an object their signer signed, and DG1 reads; each error says which came first |
| LiveRead.NoAnchorsNoTrust | crates/identity-mobile/src/passport.rs:584-650 | without a CSCA certificate no document is trustworthy |
| LiveRead.WarningsExactly | crates/identity-mobile/src/passport.rs:584-640 | each warning is raised exactly when there is cause for it, and names the groups that went unread |
| LiveRead.CollectWarnings | crates/identity-mobile/src/passport.rs:584-640 | the warnings pushed one by one, in order |
| DirectoryCache.Passport.SelectMf | crates/dmrtd/src/passport.rs:279-285 | the cached SELECT of the master file: what it sends, and what handle and chip hold after it |
| DirectoryCache.Passport.SelectDf1 | crates/dmrtd/src/passport.rs:287-293 | the same for the eMRTD application |
| DirectoryCache.Passport.ReadDf1BySfi | crates/dmrtd/src/passport.rs:270-277 | a read under the application, as a step of the specification |
| DirectoryCache.Passport.ReadAtMf | crates/dmrtd/src/passport.rs:178-188 | a read at the master file, as a step of the specification |
| DirectoryCache.Passport.StartSession | crates/dmrtd/src/passport.rs:130-136 | BAC, as a step of the specification |
| DirectoryCache.Passport.StartSessionPace | crates/dmrtd/src/passport.rs:138-148 | PACE, which forgets the cache exactly when it succeeds |
| DirectoryCache.Passport.ApiMut | crates/dmrtd/src/passport.rs:119-122 | foreign APDUs, before which the cache is forgotten |
| DirectoryCache.CacheAlwaysAgrees | crates/dmrtd/src/passport.rs:91-148 | after every call of every sequence the cache is empty or the chip's true selection |
| DirectoryCache.CacheRefines | crates/dmrtd/src/passport.rs:119-293 | over every sequence the handle moves the chip as a reader that always SELECTs does, and gets what that reader gets wherever it gets anything |
| DirectoryCache.CacheIsTransparentExactly | crates/dmrtd/src/passport.rs:119-293 | the two get the same throughout exactly when no call has its directory cached, its SELECT refused and its reply granted |
| DirectoryCache.ReadersCanDiffer | crates/dmrtd/src/passport.rs:270-293 | a run in which they differ |
| DirectoryCache.ReadsTheRightFiles | crates/dmrtd/src/passport.rs:178-188 | every file returned in any sequence is the file of the directory its call is for |
| Bridge.StepInv | crates/identity-mobile/src/bridge.rs:53-107 | every step of every thread keeps the invariant of map, channels and calls |
| Bridge.AtMostOneSupply | crates/identity-mobile/src/bridge.rs:96-107 | each id gets at most one successful `supply` |
| Bridge.WaitReturnsOwnAnswer | crates/identity-mobile/src/bridge.rs:74-93 | `wait` returns only an answer an accepted `supply` gave for its own id |
| Bridge.SendNeverBlocks | crates/identity-mobile/src/bridge.rs:57-59 | a `send` can always complete |
| Bridge.WaitNeverDisconnects | crates/identity-mobile/src/bridge.rs:74-93 | a waiter never sees its channel disconnected |
| Bridge.PendingExactly | crates/identity-mobile/src/bridge.rs:55-107 | the map holds exactly the registered ids, dropped ones among them, that `wait` has not removed and no `supply` ever took |
| Bridge.LeftoversExactly | crates/identity-mobile/src/bridge.rs:48-107 | when every exchange has returned or was dropped, what is left in the map is exactly the dropped ones no `supply` took |
| Bridge.LeftoverStays | crates/identity-mobile/src/bridge.rs:48-107 | such a leftover is in the map after any later run exactly if no `supply` has taken it by then |
| Bridge.AllReturnedNothingPending | crates/identity-mobile/src/bridge.rs:77-81 | when every exchange has returned from `wait`, nothing is pending |
| Bridge.AbandonedCanStayPending | crates/identity-mobile/src/bridge.rs:48-67 | the shortest run that leaves one behind |
| Bridge.LateSupplyIsRefused | crates/identity-mobile/src/bridge.rs:94-107 | after `wait` returns, no `supply` for that id ever succeeds again |
| Bridge.AcceptedAnswerReturned | crates/identity-mobile/src/bridge.rs:74-107 | an accepted answer is what `wait` returns exactly when it was sent before the waiter gave up |
| Bridge.AcceptedButLost | crates/identity-mobile/src/bridge.rs:94-107 | a run in which `supply` reports success and the waiter has timed out |
| Unpacker.BitUnpacker.BitUnpack | crates/incometax-pan-qr/src/unpacker.rs:32-74 | a call within 32 bits appends its value to the number fed, and any other changes nothing |
| Unpacker.OutputDetermined | crates/incometax-pan-qr/src/unpacker.rs:11-74 | after any calls the output is the low whole bytes of Σ (v mod 2^w)·2^(bits before), and the rest is carried |
| Unpacker.UnpackScannedString | crates/incometax-pan-qr/src/unpacker.rs:84-115 | a scan unpacks to the low ⌊13n/8⌋ bytes of Σ v_i·2^(13i), or to the error of its first bad chunk |
| Unpacker.WholeScansInjective | crates/incometax-pan-qr/src/unpacker.rs:84-115 | a scan of 8k chunks is determined by its bytes |
| Unpacker.PartialScanHasTwin | crates/incometax-pan-qr/src/unpacker.rs:84-115 | any other scan shares its bytes with a different scan |
| Unpacker.ScanDeterminedExactly | crates/incometax-pan-qr/src/unpacker.rs:84-115 | so unpacking is injective at a scan exactly when its chunks come in eights |
| PanCodec.Cursor.Read | crates/incometax-pan-qr/src/structs.rs:23-30 | the cursor hands out the next bytes and advances past them, or fails in place |
| PanCodec.Cursor.ReadInner | crates/incometax-pan-qr/src/structs.rs:146-162 | the block parser as it runs on the cursor |
| PanCodec.ParseInnerExact | crates/incometax-pan-qr/src/structs.rs:145-173 | a block parses exactly from its own build and a rest, its metadata fields laid out in the first byte as `PanCodec.FromByteExact` says |
| PanCodec.FromByteExact | crates/incometax-pan-qr/src/structs.rs:102-134 | the fields of a metadata byte are exactly the three, one and four bits that make it up from the lowest bit on, each field from its highest bit |
| PanCodec.BigEndian | crates/incometax-pan-qr/src/structs.rs:36-50 | lengths and numbers are written highest byte first |
| PanCodec.Cursor.ReadMessage | crates/incometax-pan-qr/src/structs.rs:237-266 | the message parser as it runs on the cursor |
| PanCodec.ParseMessageExact | crates/incometax-pan-qr/src/structs.rs:236-286 | a message parses exactly from its own build and a rest, so build after parse is the bytes consumed and parse after build the message |
| PanCodec.WriteMessage | crates/incometax-pan-qr/src/structs.rs:270-286 | the builder as it appends |
| PanCodec.ReadOuter | crates/incometax-pan-qr/src/structs.rs:306-331 | the outer parser as it runs |
| PanCodec.ParseOuterExact | crates/incometax-pan-qr/src/structs.rs:302-331 | the outer parser accepts exactly built message ‖ 01 ‖ scheme ‖ two bytes ‖ length ‖ signature ‖ zeros |
| Verhoeff.TableIsDihedral | crates/aadhaar-offline-kyc/src/verhoeff.rs:8-19 | the table D composes the rotations and reflections of a pentagon |
| Verhoeff.PermutationStep | crates/aadhaar-offline-kyc/src/verhoeff.rs:22-31 | row i + 1 of P is row 1 after row i, with period 8 |
| Verhoeff.PermutedOnCycle | crates/aadhaar-offline-kyc/src/verhoeff.rs:22-31 | row i is the i-th power of the permutation (0 1 5 8 9 4 2 7)(3 6), row 0 the identity |
| Verhoeff.PermutedOnPair | crates/aadhaar-offline-kyc/src/verhoeff.rs:22-31 | … on the pair of 3 and 6 |
| Verhoeff.OneNumberPerPrefix | crates/aadhaar-offline-kyc/src/verhoeff.rs:33-57 | eleven characters begin an accepted number exactly when they are digits of which the first is 2 to 9, and exactly one check digit then completes it |
| Verhoeff.SingleErrorChangesFold | crates/aadhaar-offline-kyc/src/verhoeff.rs:8-57 | changing one digit changes the checksum, for digits of any length |
| Verhoeff.TranspositionChangesFold | crates/aadhaar-offline-kyc/src/verhoeff.rs:8-57 | swapping two unequal neighbours changes the checksum, for digits of any length |
| Verhoeff.ValidateAadhaarSyntax | crates/aadhaar-offline-kyc/src/verhoeff.rs:40-57 | the loop accepts exactly well-formed numbers whose fold is zero |
| Verhoeff.SingleErrorDetected | crates/aadhaar-offline-kyc/src/verhoeff.rs:40-57 | no accepted number is one changed character from another |
| Verhoeff.TranspositionDetected | crates/aadhaar-offline-kyc/src/verhoeff.rs:40-57 | … nor one swap of different neighbours |
| Iso9797.PaddingExact | crates/dmrtd/src/crypto/iso9797.rs:79-90 | with a block size, a string is `d` with padding of at most one block exactly when it is `pad(d)` |
| Iso9797.Unpad | crates/dmrtd/src/crypto/iso9797.rs:114-141 | `unpad` returns d exactly for paddings of d, with and without a block size, and fails on everything else |
| Iso9797.MacAlg3 | crates/dmrtd/src/crypto/iso9797.rs:168-212 | the MAC of the padded or unpadded message, and exactly when it is refused |
| Iso9797.MacSteps | crates/dmrtd/src/crypto/iso9797.rs:173-212 | algorithm 3 step by step: encrypting the MAC's decryption under the third key with the second gives the end of the chain under the first, the third being the first again in a two-key bundle |
| Iso9797.ChainSteps | crates/dmrtd/src/crypto/iso9797.rs:198-208 | the chain starts at its vector, and one more block is added to it and encrypted |
| Iso9797.MacExact | crates/dmrtd/src/crypto/iso9797.rs:198-212 | two messages have one MAC exactly when their CBC chains end in one block |
| Iso9797.OneBlockChangesMac | crates/dmrtd/src/crypto/iso9797.rs:168-212 | changing one block of a message, wherever it is, always changes the MAC |
| Iso9797.KeyBundles | crates/dmrtd/src/crypto/iso9797.rs:173-179 | a two-key bundle is the three-key bundle that repeats its first key; with both halves equal the MAC is plain CBC-MAC |

## Left out

- The curve tables and the primality of their constants: the ECDSA theorems are generic in p, a, b, G and n, under the hypotheses of `Ecdsa.CurveFacts`.
- Ecdsa.CurveFacts: assumes that chord-and-tangent addition is associative, the one fact about the curve that is not proved here.
- The verifiers of the RustCrypto curves, curve lookup from parameters, and ECDSA on P-256 in active authentication: parameters of `PassiveParse.EllipticCurves` and `ActiveAuth.P256`.
- Hash functions: any function whose outputs have the algorithm's length; nothing is assumed about collisions.
- DiffieHellman.DrawInRange: assumes that some draw of the stream is acceptable, since the termination and quality of sampling are not modelled.
- Rsa.GenerateMask: the MGF1 counter is unbounded, so its wrap-around after 2^32 blocks is not modelled.
- Bridge: exchange ids are unbounded, so the reuse of an id after 2^64 opens is not modelled; a poisoned lock is recovered by the code and not modelled either.
- Der.ReadNext: the machine word is a parameter of at least 32 bits, and buffer lengths otherwise unbounded.
- Masks `v & (2^k − 1)` are written as remainders by 2^k; `|` and `^` are defined bit by bit.
- Constant-time comparison, zeroization and timing.
- The chip protocol below a whole operation (secure messaging, PACE, BAC, file reading): an operation is the list of its transceives and a result, both chosen by the environment.
- LiveRead: the identity's text fields, which are copied from the MRZ, and the texts of errors and warnings.
- LiveRead.ReadPassport: the randomness of the challenge is a parameter, with its failure.
- Which error a malformed certificate or EF.SOD gets: the parsers return the code's errors, but their lemmas say only when they accept and with what.
- LDS file parsers (DG1, DG2, DG15), the MRZ, AAMVA and Aadhaar field extraction: fixed slicing that would add only easy members.
- The C ABI, the JSON writer, the mobile driving licence path, logging and display code.
- Unused EF readers of the passport handle: `DirectoryCache` has one read for each directory, since they differ only in the short file id.
