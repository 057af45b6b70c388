/** SHA-224, SHA-256, SHA-384 and SHA-512 as sha2.c instantiates them (sections 4.1, 4.2, 5.3 of FIPS 180-4). */
module Sha2Functions {
  import opened Primitives
  import opened Sha2
  import opened Sha2Context
  import opened Words
  import opened WordBits

  // ------------------------------------------------------------------ 32-bit words

  type w32 = bv32

  function Load32(b: Bytes): w32 {
    if |b| < 4 then 0
    else ((b[0] as w32) << 24) | ((b[1] as w32) << 16) | ((b[2] as w32) << 8) | (b[3] as w32)
  }

  function Store32(w: w32): Bytes {
    [((w >> 24) & 0xFF) as byte, ((w >> 16) & 0xFF) as byte, ((w >> 8) & 0xFF) as byte, (w & 0xFF) as byte]
  }

  function Ch32(x: w32, y: w32, z: w32): w32 { Xor32(And32(x, y), And32(Not32(x), z)) }

  function Maj32(x: w32, y: w32, z: w32): w32 { Xor32(Xor32(And32(x, y), And32(x, z)), And32(y, z)) }

  function BigSigma0_32(x: w32): w32 { Xor32(Xor32(Down32(x, 2), Down32(x, 13)), Down32(x, 22)) }

  function BigSigma1_32(x: w32): w32 { Xor32(Xor32(Down32(x, 6), Down32(x, 11)), Down32(x, 25)) }

  function Sigma0_32(x: w32): w32 { Xor32(Xor32(Down32(x, 7), Down32(x, 18)), ShrBy32(x, 3)) }

  function Sigma1_32(x: w32): w32 { Xor32(Xor32(Down32(x, 17), Down32(x, 19)), ShrBy32(x, 10)) }

  function Expand32(w0: w32, w14: w32, w9: w32, w1: w32): w32 {
    Add32(Add32(Add32(Sigma1_32(w14), w9), Sigma0_32(w1)), w0)
  }

  function Step32(v: Vars<w32>, w: w32, k: w32): Vars<w32> {
    var t1 := Add32(Add32(Add32(Add32(v.h, BigSigma1_32(v.e)), Ch32(v.e, v.f, v.g)), k), w);
    var t2 := Add32(BigSigma0_32(v.a), Maj32(v.a, v.b, v.c));
    Vars(Add32(t1, t2), v.a, v.b, v.c, Add32(v.d, t1), v.e, v.f, v.g)
  }

  const K256_0: seq<w32> := [
    0x428a2f98, 0x71374491, 0xb5c0fbcf, 0xe9b5dba5, 0x3956c25b, 0x59f111f1, 0x923f82a4, 0xab1c5ed5,
    0xd807aa98, 0x12835b01, 0x243185be, 0x550c7dc3, 0x72be5d74, 0x80deb1fe, 0x9bdc06a7, 0xc19bf174]

  const K256_1: seq<w32> := [
    0xe49b69c1, 0xefbe4786, 0x0fc19dc6, 0x240ca1cc, 0x2de92c6f, 0x4a7484aa, 0x5cb0a9dc, 0x76f988da,
    0x983e5152, 0xa831c66d, 0xb00327c8, 0xbf597fc7, 0xc6e00bf3, 0xd5a79147, 0x06ca6351, 0x14292967]

  const K256_2: seq<w32> := [
    0x27b70a85, 0x2e1b2138, 0x4d2c6dfc, 0x53380d13, 0x650a7354, 0x766a0abb, 0x81c2c92e, 0x92722c85,
    0xa2bfe8a1, 0xa81a664b, 0xc24b8b70, 0xc76c51a3, 0xd192e819, 0xd6990624, 0xf40e3585, 0x106aa070]

  const K256_3: seq<w32> := [
    0x19a4c116, 0x1e376c08, 0x2748774c, 0x34b0bcb5, 0x391c0cb3, 0x4ed8aa4a, 0x5b9cca4f, 0x682e6ff3,
    0x748f82ee, 0x78a5636f, 0x84c87814, 0x8cc70208, 0x90befffa, 0xa4506ceb, 0xbef9a3f7, 0xc67178f2]

  const K256: seq<w32> := K256_0 + K256_1 + K256_2 + K256_3

  const SHA256: Alg<w32> := Alg(4, Load32, Store32, Add32, Expand32, Step32, K256)

  lemma RawStore32(w: w32)
    ensures ((((w >> 24) & 0xFF) as byte as w32) << 24) | ((((w >> 16) & 0xFF) as byte as w32) << 16)
            | ((((w >> 8) & 0xFF) as byte as w32) << 8) | ((w & 0xFF) as byte as w32) == w
  {
  }

  lemma LoadStore32(w: w32)
    ensures |Store32(w)| == 4 && Load32(Store32(w)) == w
  {
    RawStore32(w);
  }

  lemma RawLoad32(a: byte, b: byte, c: byte, d: byte)
    ensures var w := ((a as w32) << 24) | ((b as w32) << 16) | ((c as w32) << 8) | (d as w32);
            ((w >> 24) & 0xFF) as byte == a && ((w >> 16) & 0xFF) as byte == b && ((w >> 8) & 0xFF) as byte == c && (w & 0xFF) as byte == d
  {
  }

  lemma StoreLoad32(b: Bytes)
    requires |b| == 4
    ensures Store32(Load32(b)) == b
  {
    RawLoad32(b[0], b[1], b[2], b[3]);
  }

  lemma Sha256Lawful()
    ensures LawfulAlg(SHA256)
  {
    hide Load32, Store32, Add32, Expand32, Step32;
    forall b: Bytes | |b| == 4 ensures SHA256.store(SHA256.load(b)) == b { StoreLoad32(b); }
    forall w ensures |SHA256.store(w)| == 4 && SHA256.load(SHA256.store(w)) == w { LoadStore32(w); }
  }

  // ------------------------------------------------------------------ 64-bit words

  type w64 = bv64

  function Load64(b: Bytes): w64 {
    if |b| < 8 then 0
    else ((b[0] as w64) << 56) | ((b[1] as w64) << 48) | ((b[2] as w64) << 40) | ((b[3] as w64) << 32)
         | ((b[4] as w64) << 24) | ((b[5] as w64) << 16) | ((b[6] as w64) << 8) | (b[7] as w64)
  }

  function Store64(w: w64): Bytes {
    [((w >> 56) & 0xFF) as byte, ((w >> 48) & 0xFF) as byte, ((w >> 40) & 0xFF) as byte, ((w >> 32) & 0xFF) as byte,
     ((w >> 24) & 0xFF) as byte, ((w >> 16) & 0xFF) as byte, ((w >> 8) & 0xFF) as byte, (w & 0xFF) as byte]
  }

  function Ch64(x: w64, y: w64, z: w64): w64 { Xor(And(x, y), And(Not(x), z)) }

  function Maj64(x: w64, y: w64, z: w64): w64 { Xor(Xor(And(x, y), And(x, z)), And(y, z)) }

  function BigSigma0_64(x: w64): w64 { Xor(Xor(Down64(x, 28), Down64(x, 34)), Down64(x, 39)) }

  function BigSigma1_64(x: w64): w64 { Xor(Xor(Down64(x, 14), Down64(x, 18)), Down64(x, 41)) }

  function Sigma0_64(x: w64): w64 { Xor(Xor(Down64(x, 1), Down64(x, 8)), Shr(x, 7)) }

  function Sigma1_64(x: w64): w64 { Xor(Xor(Down64(x, 19), Down64(x, 61)), Shr(x, 6)) }

  function Expand64(w0: w64, w14: w64, w9: w64, w1: w64): w64 {
    Add64(Add64(Add64(Sigma1_64(w14), w9), Sigma0_64(w1)), w0)
  }

  function Step64(v: Vars<w64>, w: w64, k: w64): Vars<w64> {
    var t1 := Add64(Add64(Add64(Add64(v.h, BigSigma1_64(v.e)), Ch64(v.e, v.f, v.g)), k), w);
    var t2 := Add64(BigSigma0_64(v.a), Maj64(v.a, v.b, v.c));
    Vars(Add64(t1, t2), v.a, v.b, v.c, Add64(v.d, t1), v.e, v.f, v.g)
  }

  const K512_0: seq<w64> := [
    0x428a2f98d728ae22, 0x7137449123ef65cd, 0xb5c0fbcfec4d3b2f, 0xe9b5dba58189dbbc,
    0x3956c25bf348b538, 0x59f111f1b605d019, 0x923f82a4af194f9b, 0xab1c5ed5da6d8118,
    0xd807aa98a3030242, 0x12835b0145706fbe, 0x243185be4ee4b28c, 0x550c7dc3d5ffb4e2,
    0x72be5d74f27b896f, 0x80deb1fe3b1696b1, 0x9bdc06a725c71235, 0xc19bf174cf692694]

  const K512_1: seq<w64> := [
    0xe49b69c19ef14ad2, 0xefbe4786384f25e3, 0x0fc19dc68b8cd5b5, 0x240ca1cc77ac9c65,
    0x2de92c6f592b0275, 0x4a7484aa6ea6e483, 0x5cb0a9dcbd41fbd4, 0x76f988da831153b5,
    0x983e5152ee66dfab, 0xa831c66d2db43210, 0xb00327c898fb213f, 0xbf597fc7beef0ee4,
    0xc6e00bf33da88fc2, 0xd5a79147930aa725, 0x06ca6351e003826f, 0x142929670a0e6e70]

  const K512_2: seq<w64> := [
    0x27b70a8546d22ffc, 0x2e1b21385c26c926, 0x4d2c6dfc5ac42aed, 0x53380d139d95b3df,
    0x650a73548baf63de, 0x766a0abb3c77b2a8, 0x81c2c92e47edaee6, 0x92722c851482353b,
    0xa2bfe8a14cf10364, 0xa81a664bbc423001, 0xc24b8b70d0f89791, 0xc76c51a30654be30,
    0xd192e819d6ef5218, 0xd69906245565a910, 0xf40e35855771202a, 0x106aa07032bbd1b8]

  const K512_3: seq<w64> := [
    0x19a4c116b8d2d0c8, 0x1e376c085141ab53, 0x2748774cdf8eeb99, 0x34b0bcb5e19b48a8,
    0x391c0cb3c5c95a63, 0x4ed8aa4ae3418acb, 0x5b9cca4f7763e373, 0x682e6ff3d6b2b8a3,
    0x748f82ee5defb2fc, 0x78a5636f43172f60, 0x84c87814a1f0ab72, 0x8cc702081a6439ec,
    0x90befffa23631e28, 0xa4506cebde82bde9, 0xbef9a3f7b2c67915, 0xc67178f2e372532b]

  const K512_4: seq<w64> := [
    0xca273eceea26619c, 0xd186b8c721c0c207, 0xeada7dd6cde0eb1e, 0xf57d4f7fee6ed178,
    0x06f067aa72176fba, 0x0a637dc5a2c898a6, 0x113f9804bef90dae, 0x1b710b35131c471b,
    0x28db77f523047d84, 0x32caab7b40c72493, 0x3c9ebe0a15c9bebc, 0x431d67c49c100d4c,
    0x4cc5d4becb3e42b6, 0x597f299cfc657e2a, 0x5fcb6fab3ad6faec, 0x6c44198c4a475817]

  const K512: seq<w64> := K512_0 + K512_1 + K512_2 + K512_3 + K512_4

  const SHA512: Alg<w64> := Alg(8, Load64, Store64, Add64, Expand64, Step64, K512)

  lemma RawStore64(w: w64)
    ensures ((((w >> 56) & 0xFF) as byte as w64) << 56) | ((((w >> 48) & 0xFF) as byte as w64) << 48)
            | ((((w >> 40) & 0xFF) as byte as w64) << 40) | ((((w >> 32) & 0xFF) as byte as w64) << 32)
            | ((((w >> 24) & 0xFF) as byte as w64) << 24) | ((((w >> 16) & 0xFF) as byte as w64) << 16)
            | ((((w >> 8) & 0xFF) as byte as w64) << 8) | ((w & 0xFF) as byte as w64) == w
  {
  }

  lemma LoadStore64(w: w64)
    ensures |Store64(w)| == 8 && Load64(Store64(w)) == w
  {
    RawStore64(w);
  }

  lemma RawLoad64(a: byte, b: byte, c: byte, d: byte, e: byte, f: byte, g: byte, h: byte)
    ensures var w := ((a as w64) << 56) | ((b as w64) << 48) | ((c as w64) << 40) | ((d as w64) << 32)
                     | ((e as w64) << 24) | ((f as w64) << 16) | ((g as w64) << 8) | (h as w64);
            ((w >> 56) & 0xFF) as byte == a && ((w >> 48) & 0xFF) as byte == b && ((w >> 40) & 0xFF) as byte == c
            && ((w >> 32) & 0xFF) as byte == d && ((w >> 24) & 0xFF) as byte == e && ((w >> 16) & 0xFF) as byte == f
            && ((w >> 8) & 0xFF) as byte == g && (w & 0xFF) as byte == h
  {
  }

  lemma StoreLoad64(b: Bytes)
    requires |b| == 8
    ensures Store64(Load64(b)) == b
  {
    RawLoad64(b[0], b[1], b[2], b[3], b[4], b[5], b[6], b[7]);
  }

  lemma Sha512Lawful()
    ensures LawfulAlg(SHA512)
  {
    hide Load64, Store64, Add64, Expand64, Step64;
    forall b: Bytes | |b| == 8 ensures SHA512.store(SHA512.load(b)) == b { StoreLoad64(b); }
    forall w ensures |SHA512.store(w)| == 8 && SHA512.load(SHA512.store(w)) == w { LoadStore64(w); }
  }

  const IV224: Bytes :=
    [0xc1, 0x05, 0x9e, 0xd8] + [0x36, 0x7c, 0xd5, 0x07]
    + [0x30, 0x70, 0xdd, 0x17] + [0xf7, 0x0e, 0x59, 0x39]
    + [0xff, 0xc0, 0x0b, 0x31] + [0x68, 0x58, 0x15, 0x11]
    + [0x64, 0xf9, 0x8f, 0xa7] + [0xbe, 0xfa, 0x4f, 0xa4]

  const IV256: Bytes :=
    [0x6a, 0x09, 0xe6, 0x67] + [0xbb, 0x67, 0xae, 0x85]
    + [0x3c, 0x6e, 0xf3, 0x72] + [0xa5, 0x4f, 0xf5, 0x3a]
    + [0x51, 0x0e, 0x52, 0x7f] + [0x9b, 0x05, 0x68, 0x8c]
    + [0x1f, 0x83, 0xd9, 0xab] + [0x5b, 0xe0, 0xcd, 0x19]

  const IV384: Bytes :=
    [0xcb, 0xbb, 0x9d, 0x5d, 0xc1, 0x05, 0x9e, 0xd8] + [0x62, 0x9a, 0x29, 0x2a, 0x36, 0x7c, 0xd5, 0x07]
    + [0x91, 0x59, 0x01, 0x5a, 0x30, 0x70, 0xdd, 0x17] + [0x15, 0x2f, 0xec, 0xd8, 0xf7, 0x0e, 0x59, 0x39]
    + [0x67, 0x33, 0x26, 0x67, 0xff, 0xc0, 0x0b, 0x31] + [0x8e, 0xb4, 0x4a, 0x87, 0x68, 0x58, 0x15, 0x11]
    + [0xdb, 0x0c, 0x2e, 0x0d, 0x64, 0xf9, 0x8f, 0xa7] + [0x47, 0xb5, 0x48, 0x1d, 0xbe, 0xfa, 0x4f, 0xa4]

  const IV512: Bytes :=
    [0x6a, 0x09, 0xe6, 0x67, 0xf3, 0xbc, 0xc9, 0x08] + [0xbb, 0x67, 0xae, 0x85, 0x84, 0xca, 0xa7, 0x3b]
    + [0x3c, 0x6e, 0xf3, 0x72, 0xfe, 0x94, 0xf8, 0x2b] + [0xa5, 0x4f, 0xf5, 0x3a, 0x5f, 0x1d, 0x36, 0xf1]
    + [0x51, 0x0e, 0x52, 0x7f, 0xad, 0xe6, 0x82, 0xd1] + [0x9b, 0x05, 0x68, 0x8c, 0x2b, 0x3e, 0x6c, 0x1f]
    + [0x1f, 0x83, 0xd9, 0xab, 0xfb, 0x41, 0xbd, 0x6b] + [0x5b, 0xe0, 0xcd, 0x19, 0x13, 0x7e, 0x21, 0x79]

  // ------------------------------------------------------------------ the four functions

  /** The start values of SHA-224 and SHA-256, and of SHA-384 and SHA-512. */
  function Start32(cut: bool): (iv: Bytes)
    ensures |iv| == 32
  {
    IvLengths();
    if cut then IV224 else IV256
  }

  function Start64(cut: bool): (iv: Bytes)
    ensures |iv| == 64
  {
    IvLengths();
    if cut then IV384 else IV512
  }

  function First(n: nat, digest: Bytes): Bytes { if |digest| < n then digest else digest[..n] }

  /** The digests of the standard, and that of the long functions with the byte count kept modulo 2^64. */
  function DigestShort(m: Bytes, cut: bool): Bytes { First(if cut then 28 else 32, Hash(SHA256, Start32(cut), m)) }

  function DigestLong(m: Bytes, cut: bool): Bytes { First(if cut then 48 else 64, Hash(SHA512, Start64(cut), m)) }

  function CodeLong(m: Bytes, cut: bool): Bytes { First(if cut then 48 else 64, CodeHash(SHA512, Start64(cut), m)) }

  /** The digest of a message given in whole-block chunks and a rest: SHA-256 or, from its own start value and cut to 28
      bytes, SHA-224. */
  method Sha2Short(chunks: seq<Bytes>, last: Bytes, cut: bool) returns (out: Bytes)
    requires forall c | c in chunks :: |c| % 64 == 0
    ensures out == DigestShort(Concat(chunks) + last, cut)
  {
    hide Hash, Start32;
    Sha256Lawful();
    HashLength(SHA256, Start32(cut), Concat(chunks) + last);
    out := Incremental(SHA256, Start32(cut), chunks, last);
    if cut {
      out := out[..28];
    }
  }

  /** SHA-512 and, cut to 48 bytes, SHA-384: the standard's below 2^64 bytes, and in any case the digest with the byte
      count kept modulo 2^64. */
  method Sha2Long(chunks: seq<Bytes>, last: Bytes, cut: bool) returns (out: Bytes)
    requires forall c | c in chunks :: |c| % 128 == 0
    ensures var m := Concat(chunks) + last;
            out == CodeLong(m, cut) && (|m| < WORD ==> out == DigestLong(m, cut))
  {
    hide Hash, CodeHash, Start64;
    Sha512Lawful();
    ghost var m := Concat(chunks) + last;
    CodeHashLength(SHA512, Start64(cut), m);
    if |m| < WORD {
      CodeHashIsHash(SHA512, Start64(cut), m);
    }
    out := Incremental(SHA512, Start64(cut), chunks, last);
    if cut {
      out := out[..48];
    }
  }

  lemma CodeHashLength<W(!new)>(A: Alg<W>, iv: Bytes, m: Bytes)
    requires LawfulAlg(A) && |iv| == 8 * A.wordLen
    ensures |CodeHash(A, iv, m)| == 8 * A.wordLen
  {
    hide WrittenPadding;
    ModAtMost(|m|, BlockLen(A));
    LoadUndoesStore(A, Fold(A, LoadVars(A, iv), m + WrittenPadding(A, |m| % BlockLen(A), |m| % WORD)));
  }

  lemma IvLengths()
    ensures |IV224| == 32 && |IV256| == 32 && |IV384| == 64 && |IV512| == 64
  {
  }

  lemma HashLength<W(!new)>(A: Alg<W>, iv: Bytes, m: Bytes)
    requires LawfulAlg(A) && |iv| == 8 * A.wordLen
    ensures |Hash(A, iv, m)| == 8 * A.wordLen
  {
    LoadUndoesStore(A, Fold(A, LoadVars(A, iv), m + Padding(A, |m|)));
  }
}
