/** Byte strings and the foreign cryptographic primitives the handshake cores call.

    The primitives are values of function type gathered in a `Suite`; `Lawful` states the only facts about
    them that the proofs use: output sizes, and that decryption, key agreement and signature verification
    undo their counterparts.  Nothing here says that a hash or a MAC is injective. */
module Primitives {

  type byte = bv8

  type Bytes = seq<byte>

  datatype Option<+T> = None | Some(value: T)

  datatype KemPair = KemPair(pk: Bytes, sk: Bytes)

  datatype Encapsulation = Encapsulation(ct: Bytes, ss: Bytes)

  /** `None` is a non-zero return code.  Randomness is an explicit argument. */
  datatype Suite = Suite(
    sha256: Bytes -> Bytes,
    hmac: (Bytes, Bytes) -> Bytes,                                  // key, message
    seal: (Bytes, Bytes, Bytes, Bytes) -> Option<Bytes>,            // key, nonce, associated data, plaintext
    open: (Bytes, Bytes, Bytes, Bytes) -> Option<Bytes>,            // key, nonce, associated data, ciphertext
    base: Bytes -> Bytes,                                           // X25519 secret to public
    dh: (Bytes, Bytes) -> Option<Bytes>,                            // X25519 secret, public
    sign: (Bytes, Bytes) -> Option<Bytes>,                          // Ed25519 secret, message
    verify: (Bytes, Bytes, Bytes) -> bool,                          // Ed25519 public, message, signature
    kemKeypair: Bytes -> Option<KemPair>,                           // ML-KEM-768 coins
    kemEnc: (Bytes, Bytes) -> Option<Encapsulation>,                // public, coins
    kemDec: (Bytes, Bytes) -> Option<Bytes>,                        // ciphertext, secret
    pqSign: (Bytes, Bytes) -> Option<Bytes>,                        // ML-DSA-44 secret, message
    pqVerify: (Bytes, Bytes, Bytes) -> bool)                        // ML-DSA-44 public, message, signature

  const HASH_LEN: nat := 32
  const TAG_LEN: nat := 16
  const X_LEN: nat := 32
  const ED_SIG: nat := 64
  const MLKEM_PK: nat := 1184
  const MLKEM_SK: nat := 2400
  const MLKEM_CT: nat := 1088
  const MLDSA_PK: nat := 1312
  const MLDSA_SIG: nat := 2420

  ghost predicate LawfulHash(S: Suite) {
    && (forall m :: |S.sha256(m)| == HASH_LEN)
    && (forall k, m :: |S.hmac(k, m)| == HASH_LEN)
  }

  /** A sealed plaintext is one tag longer and opens, under the same key, nonce and data, to itself. */
  ghost predicate LawfulAead(S: Suite) {
    && (forall k, n, ad, p :: S.seal(k, n, ad, p).Some? ==>
          |S.seal(k, n, ad, p).value| == |p| + TAG_LEN && S.open(k, n, ad, S.seal(k, n, ad, p).value) == Some(p))
    && (forall k, n, ad, c :: S.open(k, n, ad, c).Some? ==> |c| == |S.open(k, n, ad, c).value| + TAG_LEN)
  }

  /** Diffie-Hellman commutes, failures included. */
  ghost predicate LawfulDh(S: Suite) {
    && (forall a :: |S.base(a)| == X_LEN)
    && (forall a, b :: S.dh(a, S.base(b)) == S.dh(b, S.base(a)))
    && (forall a, p :: S.dh(a, p).Some? ==> |S.dh(a, p).value| == X_LEN)
  }

  ghost predicate LawfulSig(S: Suite) {
    && (forall sk, m :: S.sign(sk, m).Some? ==> |S.sign(sk, m).value| == ED_SIG)
    && (forall sk, m :: S.pqSign(sk, m).Some? ==> |S.pqSign(sk, m).value| == MLDSA_SIG)
  }

  /** Decapsulation with a generated secret key undoes encapsulation to its public key. */
  ghost predicate LawfulKem(S: Suite) {
    && (forall r :: S.kemKeypair(r).Some? ==>
          |S.kemKeypair(r).value.pk| == MLKEM_PK && |S.kemKeypair(r).value.sk| == MLKEM_SK)
    && (forall pk, r :: S.kemEnc(pk, r).Some? ==>
          |S.kemEnc(pk, r).value.ct| == MLKEM_CT && |S.kemEnc(pk, r).value.ss| == HASH_LEN)
    && (forall r, e :: S.kemKeypair(r).Some? && S.kemEnc(S.kemKeypair(r).value.pk, e).Some? ==>
          S.kemDec(S.kemEnc(S.kemKeypair(r).value.pk, e).value.ct, S.kemKeypair(r).value.sk)
          == Some(S.kemEnc(S.kemKeypair(r).value.pk, e).value.ss))
  }

  ghost predicate Lawful(S: Suite) {
    LawfulHash(S) && LawfulAead(S) && LawfulDh(S) && LawfulSig(S) && LawfulKem(S)
  }

  /** The X25519 base point, and a point of low order: the library refuses to agree on a key with it. */
  const BASE_POINT: Bytes := [9] + Zeros(X_LEN - 1)
  const LOW_POINT: Bytes := Zeros(X_LEN)

  /** A suite without secrets.  Only a key agreement with the low-order point fails, and strings of different lengths,
      below 2^16, hash apart. */
  function PlainSuite(): Suite {
    Suite(m => Zeros(HASH_LEN - 2) + Be16(|m|), (k, m) => Zeros(HASH_LEN),
          (k, n, ad, p) => Some(p + Zeros(TAG_LEN)),
          (k, n, ad, c: Bytes) => if |c| < TAG_LEN then None else Some(c[..|c| - TAG_LEN]),
          a => BASE_POINT, (a, p) => if p == LOW_POINT then None else Some(Zeros(X_LEN)),
          (sk, m) => Some(Zeros(ED_SIG)), (vk, m, s) => true,
          r => Some(KemPair(Zeros(MLKEM_PK), Zeros(MLKEM_SK))),
          (pk, r) => Some(Encapsulation(Zeros(MLKEM_CT), Zeros(HASH_LEN))), (ct, sk) => Some(Zeros(HASH_LEN)),
          (sk, m) => Some(Zeros(MLDSA_SIG)), (vk, m, s) => true)
  }

  lemma PlainSuiteIsLawful()
    ensures Lawful(PlainSuite())
  {
    var S := PlainSuite();
    forall k, n, ad, p
      ensures |S.seal(k, n, ad, p).value| == |p| + TAG_LEN && S.open(k, n, ad, S.seal(k, n, ad, p).value) == Some(p)
    {
      assert (p + Zeros(TAG_LEN))[..|p|] == p;
    }
  }

  /** How many bytes opening a ciphertext writes: the plaintext, or zeros in its place when the tag does not match. */
  function Decrypted(ct: Bytes): nat { if |ct| < TAG_LEN then 0 else |ct| - TAG_LEN }

  /** A verification key that accepts everything its signing key signs. */
  ghost predicate EdPair(S: Suite, vk: Bytes, sk: Bytes) {
    forall m :: S.sign(sk, m).Some? ==> S.verify(vk, m, S.sign(sk, m).value)
  }

  ghost predicate PqPair(S: Suite, vk: Bytes, sk: Bytes) {
    forall m :: S.pqSign(sk, m).Some? ==> S.pqVerify(vk, m, S.pqSign(sk, m).value)
  }

  /** No two of the given byte strings hash alike: a statement about one finite set, never about all strings. */
  ghost predicate NoCollisions(S: Suite, inputs: set<Bytes>) {
    forall x, y | x in inputs && y in inputs && S.sha256(x) == S.sha256(y) :: x == y
  }

  /** One AEAD call that succeeded: what it was called with and the ciphertext. */
  datatype AeadCall = AeadCall(key: Bytes, nonce: Bytes, ad: Bytes, ct: Bytes)

  /** No ciphertext sealed in a run was opened, in the same run, under other associated data. */
  ghost predicate DataBound(seals: set<AeadCall>, opens: set<AeadCall>) {
    forall s, o | s in seals && o in opens && s.ct == o.ct :: s.ad == o.ad
  }

  /** The low eight bits of a number, as a cast to `uint8_t` keeps them. */
  function Octet(n: nat): byte { (n % 256) as bv8 }

  lemma ByteValue(k: nat)
    requires k < 256
    ensures (k as bv8) as int == k
  {
    assert (k as bv8) as int < 256;
  }

  lemma OctetValue(n: nat)
    ensures Octet(n) as int == n % 256
  {
    ByteValue(n % 256);
  }

  lemma NoWrap(v: nat)
    requires v < 256
    ensures v % 256 == v
  {
  }

  lemma SmallOctetValue(n: nat)
    requires n < 256
    ensures Octet(n) as int == n
  {
    hide Octet;
    OctetValue(n);
    NoWrap(n);
  }

  function Zeros(n: nat): (z: Bytes)
    ensures |z| == n && forall i | 0 <= i < n :: z[i] == 0
  {
    seq(n, _ => 0)
  }

  function Ascii(s: string): (b: Bytes)
    ensures |b| == |s|
  {
    seq(|s|, i requires 0 <= i < |s| => Octet(s[i] as int))
  }

  lemma SameByte(a: byte, b: byte)
    requires a as int == b as int
    ensures a == b
  {
  }

  /** A string whose characters have these codes. */
  lemma AsciiIs(s: string, b: Bytes)
    requires |s| == |b| && forall i | 0 <= i < |s| :: s[i] as int == b[i] as int
    ensures Ascii(s) == b
  {
    hide Octet;
    forall i | 0 <= i < |s| ensures Ascii(s)[i] == b[i] {
      OctetValue(s[i] as int);
      Below256(b[i]);
      SameByte(Ascii(s)[i], b[i]);
    }
  }

  lemma Below256(b: byte)
    ensures b as int == b as int % 256
  {
  }

  /** Fixed-width concatenation is injective. */
  lemma {:induction false} ConcatSplits(a: Bytes, b: Bytes, x: Bytes, y: Bytes)
    requires |a| == |x| && a + b == x + y
    ensures a == x && b == y
  {
    assert a == (a + b)[..|a|] == (x + y)[..|x|] == x;
    assert b == (a + b)[|a|..] == (x + y)[|x|..] == y;
  }

  lemma SubSlice<T>(s: seq<T>, a: nat, b: nat, x: nat, y: nat)
    requires a <= b <= |s| && x <= y <= b - a
    ensures s[a..b][x..y] == s[a + x..a + y]
  {
    var l, r := s[a..b][x..y], s[a + x..a + y];
    assert forall i | 0 <= i < y - x :: l[i] == r[i];
  }

  lemma AfterPrefix<T>(p: seq<T>, s: seq<T>, x: nat, y: nat)
    requires x <= y <= |s|
    ensures (p + s)[|p| + x..|p| + y] == s[x..y]
  {
  }

  lemma SliceSplits<T>(s: seq<T>, a: nat, b: nat, c: nat)
    requires a <= b <= c <= |s|
    ensures s[a..c] == s[a..b] + s[b..c]
  {
  }

  /** Two bytes, most significant first. */
  function Be16(n: nat): (b: Bytes)
    ensures |b| == 2
  {
    [Octet(n / 256), Octet(n)]
  }

  function FromBe16(b: Bytes): nat
    requires |b| >= 2
  {
    (b[0] as int) * 256 + (b[1] as int)
  }

  lemma FromBe16Value(b: Bytes)
    requires |b| >= 2
    ensures FromBe16(b) == 256 * (b[0] as int) + b[1] as int
  {
  }

  lemma {:induction false} Be16RoundTrip(n: nat, rest: Bytes)
    requires n < 0x10000
    ensures FromBe16(Be16(n) + rest) == n
  {
    hide Octet;
    var b := Be16(n) + rest;
    assert b[0] == Octet(n / 256) && b[1] == Octet(n);
    var high, low := Octet(n / 256) as int, Octet(n) as int;
    assert high == n / 256 by { OctetValue(n / 256); }
    assert low == n % 256 by { OctetValue(n); }
    assert high * 256 + low == n;
  }

  /** The n low bytes of v, most significant first. */
  function Digits(v: nat, n: nat): (b: Bytes)
    ensures |b| == n
  {
    if n == 0 then [] else Digits(v / 256, n - 1) + [Octet(v)]
  }

  function FromDigits(b: Bytes): nat {
    if |b| == 0 then 0 else 256 * FromDigits(b[..|b| - 1]) + (b[|b| - 1] as int)
  }

  lemma NextDigit(b: Bytes, k: nat)
    requires k < |b|
    ensures FromDigits(b[..k + 1]) == 256 * FromDigits(b[..k]) + b[k] as int && FromDigits(b[..0]) == 0
  {
    assert b[..k + 1][..k] == b[..k];
  }

  lemma Digits4(b: Bytes)
    requires |b| == 4
    ensures FromDigits(b) == 0x100_0000 * (b[0] as int) + 0x1_0000 * (b[1] as int) + 0x100 * (b[2] as int) + b[3] as int
  {
    hide FromDigits;
    NextDigit(b, 0);
    NextDigit(b, 1);
    NextDigit(b, 2);
    NextDigit(b, 3);
    assert b[..4] == b;
  }

  function Pow256(k: nat): (p: nat)
    ensures p > 0
  {
    if k == 0 then 1 else 256 * Pow256(k - 1)
  }

  /** The values of an unsigned 64-bit number. */
  const WORD: nat := 0x1_0000_0000_0000_0000

  lemma Pow256Of8()
    ensures Pow256(8) == WORD
  {
  }

  lemma {:induction false} DigitsRoundTrip(v: nat, n: nat)
    requires v < Pow256(n)
    ensures FromDigits(Digits(v, n)) == v
  {
    if n > 0 {
      assert v / 256 < Pow256(n - 1);
      DigitsRoundTrip(v / 256, n - 1);
      OctetValue(v);
      assert Digits(v, n)[..n - 1] == Digits(v / 256, n - 1);
    }
  }

  function Concat(chunks: seq<Bytes>): Bytes {
    if |chunks| == 0 then [] else Concat(chunks[..|chunks| - 1]) + chunks[|chunks| - 1]
  }

  lemma LengthHash(m: Bytes, n: Bytes)
    requires |m| < 0x10000 && |n| < 0x10000 && PlainSuite().sha256(m) == PlainSuite().sha256(n)
    ensures |m| == |n|
  {
    assert Be16(|m|) == PlainSuite().sha256(m)[30..] && Be16(|n|) == PlainSuite().sha256(n)[30..];
    assert Be16(|m|) + [] == Be16(|m|) && Be16(|n|) + [] == Be16(|n|);
    Be16RoundTrip(|m|, []);
    Be16RoundTrip(|n|, []);
  }

  /** In the plain suite, four strings of different lengths below 2^16 do not collide. */
  lemma FourLengths(a: Bytes, b: Bytes, c: Bytes, d: Bytes, hashed: set<Bytes>)
    requires |a| < |b| < |c| < |d| < 0x10000 && hashed == {a, b, c, d}
    ensures NoCollisions(PlainSuite(), hashed)
  {
    hide PlainSuite;
    forall x, y | x in hashed && y in hashed && PlainSuite().sha256(x) == PlainSuite().sha256(y) ensures x == y {
      LengthHash(x, y);
    }
  }

  /** The records of one exchange, as the two ends add to them. */
  lemma Merged<T>(a: T, b: T, c: T, d: T)
    ensures {} + {a} + {a, b, c} + {b, c, d} + {d} == {a, b, c, d}
  {
  }
}
