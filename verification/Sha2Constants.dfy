/** The constants of SHA-2 (sections 4.2 and 5.3 of FIPS 180-4): the 64-bit round constants are the first 64 bits of the
    fractional parts of the cube roots of the first eighty primes, the 32-bit ones are their upper halves; the start values
    come in the same way from square roots. */
module Sha2Constants {
  import opened Arith
  import opened Primitives
  import opened WordBits
  import opened Sha2
  import opened Sha2Functions
  import opened Sha2Instances

  // ------------------------------------------------------------------ the first eighty primes

  const PRIMES_0: seq<nat> := [2, 3, 5, 7, 11, 13, 17, 19, 23, 29, 31, 37, 41, 43, 47, 53]

  const PRIMES_1: seq<nat> := [59, 61, 67, 71, 73, 79, 83, 89, 97, 101, 103, 107, 109, 113, 127, 131]

  const PRIMES_2: seq<nat> := [137, 139, 149, 151, 157, 163, 167, 173, 179, 181, 191, 193, 197, 199, 211, 223]

  const PRIMES_3: seq<nat> := [227, 229, 233, 239, 241, 251, 257, 263, 269, 271, 277, 281, 283, 293, 307, 311]

  const PRIMES_4: seq<nat> := [313, 317, 331, 337, 347, 349, 353, 359, 367, 373, 379, 383, 389, 397, 401, 409]

  const PRIMES: seq<nat> := PRIMES_0 + PRIMES_1 + PRIMES_2 + PRIMES_3 + PRIMES_4

  predicate Divides(d: nat, n: nat)
    requires d > 0
  {
    n % d == 0
  }

  ghost predicate Prime(n: nat) { n >= 2 && forall d: nat | 2 <= d < n :: !Divides(d, n) }

  /** No prime below 23 divides n, unless it is n. */
  predicate Sieved(n: nat) {
    && n >= 2 && (n == 2 || n % 2 != 0) && (n == 3 || n % 3 != 0) && (n == 5 || n % 5 != 0) && (n == 7 || n % 7 != 0)
    && (n == 11 || n % 11 != 0) && (n == 13 || n % 13 != 0) && (n == 17 || n % 17 != 0) && (n == 19 || n % 19 != 0)
  }

  lemma SmallFactor(m: nat) returns (p: nat)
    requires 2 <= m < 23
    ensures p in {2, 3, 5, 7, 11, 13, 17, 19} && p <= m && m % p == 0
  {
    p := if m % 2 == 0 then 2 else if m % 3 == 0 then 3 else if m % 5 == 0 then 5 else if m % 7 == 0 then 7 else m;
  }

  lemma FactorOfFactor(n: nat, m: nat, k: nat, p: nat)
    requires p > 0 && n == m * k && m % p == 0
    ensures n % p == 0
  {
    var q := m / p;
    assert m == p * q;
    assert n == (q * k) * p;
    DivUnique(n, p, q * k, 0);
  }

  lemma Caught(n: nat, p: nat)
    requires Sieved(n) && p in {2, 3, 5, 7, 11, 13, 17, 19} && n % p == 0
    ensures n == p
  {
  }

  lemma NoDivisor(n: nat, d: nat)
    requires Sieved(n) && 2 <= d < n < 529
    ensures !Divides(d, n)
  {
    hide Sieved;
    if n % d == 0 {
      var e := n / d;
      assert n == d * e;
      Cofactor(n, d, e);
      var p := SmallFactor(if d < 23 then d else e);
      if d < 23 { FactorOfFactor(n, d, e, p); } else { FactorOfFactor(n, e, d, p); }
      Caught(n, p);
    }
  }

  lemma SievedIsPrime(n: nat)
    requires Sieved(n) && n < 529
    ensures Prime(n)
  {
    assert n >= 2;
    hide Sieved, Divides;
    forall d: nat | 2 <= d < n ensures !Divides(d, n) { NoDivisor(n, d); }
  }

  lemma Cofactor(n: nat, d: nat, e: int)
    requires n == d * e && 2 <= d < n < 529
    ensures 2 <= e && (d >= 23 ==> e < 23) && (d < 23 || e < n)
  {
    Products(d, e);
  }

  lemma Products(d: int, e: int)
    requires d >= 2
    ensures (d >= 23 && e >= 23 ==> d * e >= 529) && (e <= 1 ==> d * e <= d) && (e >= 1 ==> d * e > e)
  {
  }

  lemma Row0IsPrime(i: nat)
    requires i < 16
    ensures Prime(PRIMES_0[i]) && (i > 0 ==> PRIMES_0[i - 1] < PRIMES_0[i])
  {
    SievedIsPrime(PRIMES_0[i]);
  }

  lemma Row1IsPrime(i: nat)
    requires i < 16
    ensures Prime(PRIMES_1[i]) && (i > 0 ==> PRIMES_1[i - 1] < PRIMES_1[i])
  {
    SievedIsPrime(PRIMES_1[i]);
  }

  lemma Row2IsPrime(i: nat)
    requires i < 16
    ensures Prime(PRIMES_2[i]) && (i > 0 ==> PRIMES_2[i - 1] < PRIMES_2[i])
  {
    SievedIsPrime(PRIMES_2[i]);
  }

  lemma Row3IsPrime(i: nat)
    requires i < 16
    ensures Prime(PRIMES_3[i]) && (i > 0 ==> PRIMES_3[i - 1] < PRIMES_3[i])
  {
    SievedIsPrime(PRIMES_3[i]);
  }

  lemma Row4IsPrime(i: nat)
    requires i < 16
    ensures Prime(PRIMES_4[i]) && (i > 0 ==> PRIMES_4[i - 1] < PRIMES_4[i])
  {
    SievedIsPrime(PRIMES_4[i]);
  }

  // ------------------------------------------------------------------ roots

  function Square(n: int): int { n * n }

  function Cube(n: int): int { n * n * n }

  /** n and the fraction v / 2^64 are the cube root of p, cut after 64 bits. */
  predicate IsCubeRoot(p: nat, n: nat, v: nat) {
    Cube(n * WORD + v) <= p * Cube(WORD) < Cube(n * WORD + v + 1)
  }

  predicate IsSquareRoot(p: nat, n: nat, v: nat) {
    Square(n * WORD + v) <= p * Square(WORD) < Square(n * WORD + v + 1)
  }

  /** v is the first 64 bits of the fractional part of the cube root, or of the square root, of p. */
  ghost predicate CubeFraction(p: nat, v: nat) { v < WORD && exists n: nat :: IsCubeRoot(p, n, v) }

  ghost predicate SquareFraction(p: nat, v: nat) { v < WORD && exists n: nat :: IsSquareRoot(p, n, v) }

  lemma Roots0a(i: nat)
    requires i < 8
    ensures CubeFraction(PRIMES_0[i], Value64(K512_0[i]))
  {
    assert IsCubeRoot(PRIMES_0[i], if i < 4 then 1 else 2, K512_0[i] as int);
  }

  lemma Roots0b(i: nat)
    requires 8 <= i < 16
    ensures CubeFraction(PRIMES_0[i], Value64(K512_0[i]))
  {
    assert IsCubeRoot(PRIMES_0[i], if i < 9 then 2 else 3, K512_0[i] as int);
  }

  lemma Roots0(i: nat)
    requires i < 16
    ensures CubeFraction(PRIMES_0[i], Value64(K512_0[i]))
  {
    hide *;
    if i < 8 { Roots0a(i); } else { Roots0b(i); }
  }

  lemma Roots1a(i: nat)
    requires i < 8
    ensures CubeFraction(PRIMES_1[i], Value64(K512_1[i]))
  {
    assert IsCubeRoot(PRIMES_1[i], if i < 2 then 3 else 4, K512_1[i] as int);
  }

  lemma Roots1b(i: nat)
    requires 8 <= i < 16
    ensures CubeFraction(PRIMES_1[i], Value64(K512_1[i]))
  {
    assert IsCubeRoot(PRIMES_1[i], if i < 14 then 4 else 5, K512_1[i] as int);
  }

  lemma Roots1(i: nat)
    requires i < 16
    ensures CubeFraction(PRIMES_1[i], Value64(K512_1[i]))
  {
    hide *;
    if i < 8 { Roots1a(i); } else { Roots1b(i); }
  }

  lemma Roots2a(i: nat)
    requires i < 8
    ensures CubeFraction(PRIMES_2[i], Value64(K512_2[i]))
  {
    assert IsCubeRoot(PRIMES_2[i], 5, K512_2[i] as int);
  }

  lemma Roots2b(i: nat)
    requires 8 <= i < 16
    ensures CubeFraction(PRIMES_2[i], Value64(K512_2[i]))
  {
    assert IsCubeRoot(PRIMES_2[i], if i < 15 then 5 else 6, K512_2[i] as int);
  }

  lemma Roots2(i: nat)
    requires i < 16
    ensures CubeFraction(PRIMES_2[i], Value64(K512_2[i]))
  {
    hide *;
    if i < 8 { Roots2a(i); } else { Roots2b(i); }
  }

  lemma Roots3a(i: nat)
    requires i < 8
    ensures CubeFraction(PRIMES_3[i], Value64(K512_3[i]))
  {
    assert IsCubeRoot(PRIMES_3[i], 6, K512_3[i] as int);
  }

  lemma Roots3b(i: nat)
    requires 8 <= i < 16
    ensures CubeFraction(PRIMES_3[i], Value64(K512_3[i]))
  {
    assert IsCubeRoot(PRIMES_3[i], 6, K512_3[i] as int);
  }

  lemma Roots3(i: nat)
    requires i < 16
    ensures CubeFraction(PRIMES_3[i], Value64(K512_3[i]))
  {
    hide *;
    if i < 8 { Roots3a(i); } else { Roots3b(i); }
  }

  lemma Roots4a(i: nat)
    requires i < 8
    ensures CubeFraction(PRIMES_4[i], Value64(K512_4[i]))
  {
    assert IsCubeRoot(PRIMES_4[i], if i < 4 then 6 else 7, K512_4[i] as int);
  }

  lemma Roots4b(i: nat)
    requires 8 <= i < 16
    ensures CubeFraction(PRIMES_4[i], Value64(K512_4[i]))
  {
    assert IsCubeRoot(PRIMES_4[i], 7, K512_4[i] as int);
  }

  lemma Roots4(i: nat)
    requires i < 16
    ensures CubeFraction(PRIMES_4[i], Value64(K512_4[i]))
  {
    hide *;
    if i < 8 { Roots4a(i); } else { Roots4b(i); }
  }

  lemma Halves0(i: nat)
    requires i < 16
    ensures K256_0[i] == (K512_0[i] >> 32) as bv32
  {
  }

  lemma Halves1(i: nat)
    requires i < 16
    ensures K256_1[i] == (K512_1[i] >> 32) as bv32
  {
  }

  lemma Halves2(i: nat)
    requires i < 16
    ensures K256_2[i] == (K512_2[i] >> 32) as bv32
  {
  }

  lemma Halves3(i: nat)
    requires i < 16
    ensures K256_3[i] == (K512_3[i] >> 32) as bv32
  {
  }

  /** The round constants of SHA-384 and SHA-512, row by row. */
  lemma LongConstants()
    ensures forall i | 0 <= i < 16 :: CubeFraction(PRIMES_0[i], Value64(K512_0[i]))
    ensures forall i | 0 <= i < 16 :: CubeFraction(PRIMES_1[i], Value64(K512_1[i]))
    ensures forall i | 0 <= i < 16 :: CubeFraction(PRIMES_2[i], Value64(K512_2[i]))
    ensures forall i | 0 <= i < 16 :: CubeFraction(PRIMES_3[i], Value64(K512_3[i]))
    ensures forall i | 0 <= i < 16 :: CubeFraction(PRIMES_4[i], Value64(K512_4[i]))
    ensures K512 == K512_0 + K512_1 + K512_2 + K512_3 + K512_4
  {
    hide CubeFraction, Value64;
    forall i | 0 <= i < 16 ensures CubeFraction(PRIMES_0[i], Value64(K512_0[i])) { Roots0(i); }
    forall i | 0 <= i < 16 ensures CubeFraction(PRIMES_1[i], Value64(K512_1[i])) { Roots1(i); }
    forall i | 0 <= i < 16 ensures CubeFraction(PRIMES_2[i], Value64(K512_2[i])) { Roots2(i); }
    forall i | 0 <= i < 16 ensures CubeFraction(PRIMES_3[i], Value64(K512_3[i])) { Roots3(i); }
    forall i | 0 <= i < 16 ensures CubeFraction(PRIMES_4[i], Value64(K512_4[i])) { Roots4(i); }
  }

  /** The round constants of SHA-224 and SHA-256 are the upper halves of the first 64. */
  lemma ShortConstants()
    ensures forall i | 0 <= i < 16 :: K256_0[i] == (K512_0[i] >> 32) as bv32
    ensures forall i | 0 <= i < 16 :: K256_1[i] == (K512_1[i] >> 32) as bv32
    ensures forall i | 0 <= i < 16 :: K256_2[i] == (K512_2[i] >> 32) as bv32
    ensures forall i | 0 <= i < 16 :: K256_3[i] == (K512_3[i] >> 32) as bv32
    ensures K256 == K256_0 + K256_1 + K256_2 + K256_3
  {
    forall i | 0 <= i < 16 ensures K256_0[i] == (K512_0[i] >> 32) as bv32 { Halves0(i); }
    forall i | 0 <= i < 16 ensures K256_1[i] == (K512_1[i] >> 32) as bv32 { Halves1(i); }
    forall i | 0 <= i < 16 ensures K256_2[i] == (K512_2[i] >> 32) as bv32 { Halves2(i); }
    forall i | 0 <= i < 16 ensures K256_3[i] == (K512_3[i] >> 32) as bv32 { Halves3(i); }
  }

  // ------------------------------------------------------------------ start values

  /** Word i of a start value. */
  function StartWord(iv: Bytes, len: nat, i: nat): nat
    requires i < 8 && |iv| == 8 * len
  {
    StartWithin(i, len);
    FromDigits(iv[i * len..i * len + len])
  }

  lemma StartWithin(i: nat, len: nat)
    requires i < 8
    ensures 0 <= i * len && i * len + len <= 8 * len
  {
  }

  lemma IvWords512()
    ensures |IV512| == 64
    ensures IV512[0..8] == [0x6a, 0x09, 0xe6, 0x67, 0xf3, 0xbc, 0xc9, 0x08]
    ensures IV512[8..16] == [0xbb, 0x67, 0xae, 0x85, 0x84, 0xca, 0xa7, 0x3b]
    ensures IV512[16..24] == [0x3c, 0x6e, 0xf3, 0x72, 0xfe, 0x94, 0xf8, 0x2b]
    ensures IV512[24..32] == [0xa5, 0x4f, 0xf5, 0x3a, 0x5f, 0x1d, 0x36, 0xf1]
    ensures IV512[32..40] == [0x51, 0x0e, 0x52, 0x7f, 0xad, 0xe6, 0x82, 0xd1]
    ensures IV512[40..48] == [0x9b, 0x05, 0x68, 0x8c, 0x2b, 0x3e, 0x6c, 0x1f]
    ensures IV512[48..56] == [0x1f, 0x83, 0xd9, 0xab, 0xfb, 0x41, 0xbd, 0x6b]
    ensures IV512[56..64] == [0x5b, 0xe0, 0xcd, 0x19, 0x13, 0x7e, 0x21, 0x79]
  {
  }

  lemma IvWords384()
    ensures |IV384| == 64
    ensures IV384[0..8] == [0xcb, 0xbb, 0x9d, 0x5d, 0xc1, 0x05, 0x9e, 0xd8]
    ensures IV384[8..16] == [0x62, 0x9a, 0x29, 0x2a, 0x36, 0x7c, 0xd5, 0x07]
    ensures IV384[16..24] == [0x91, 0x59, 0x01, 0x5a, 0x30, 0x70, 0xdd, 0x17]
    ensures IV384[24..32] == [0x15, 0x2f, 0xec, 0xd8, 0xf7, 0x0e, 0x59, 0x39]
    ensures IV384[32..40] == [0x67, 0x33, 0x26, 0x67, 0xff, 0xc0, 0x0b, 0x31]
    ensures IV384[40..48] == [0x8e, 0xb4, 0x4a, 0x87, 0x68, 0x58, 0x15, 0x11]
    ensures IV384[48..56] == [0xdb, 0x0c, 0x2e, 0x0d, 0x64, 0xf9, 0x8f, 0xa7]
    ensures IV384[56..64] == [0x47, 0xb5, 0x48, 0x1d, 0xbe, 0xfa, 0x4f, 0xa4]
  {
  }

  lemma IvWords256()
    ensures |IV256| == 32
    ensures IV256[0..4] == [0x6a, 0x09, 0xe6, 0x67]
    ensures IV256[4..8] == [0xbb, 0x67, 0xae, 0x85]
    ensures IV256[8..12] == [0x3c, 0x6e, 0xf3, 0x72]
    ensures IV256[12..16] == [0xa5, 0x4f, 0xf5, 0x3a]
    ensures IV256[16..20] == [0x51, 0x0e, 0x52, 0x7f]
    ensures IV256[20..24] == [0x9b, 0x05, 0x68, 0x8c]
    ensures IV256[24..28] == [0x1f, 0x83, 0xd9, 0xab]
    ensures IV256[28..32] == [0x5b, 0xe0, 0xcd, 0x19]
  {
  }

  lemma IvWords224()
    ensures |IV224| == 32
    ensures IV224[0..4] == [0xc1, 0x05, 0x9e, 0xd8]
    ensures IV224[4..8] == [0x36, 0x7c, 0xd5, 0x07]
    ensures IV224[8..12] == [0x30, 0x70, 0xdd, 0x17]
    ensures IV224[12..16] == [0xf7, 0x0e, 0x59, 0x39]
    ensures IV224[16..20] == [0xff, 0xc0, 0x0b, 0x31]
    ensures IV224[20..24] == [0x68, 0x58, 0x15, 0x11]
    ensures IV224[24..28] == [0x64, 0xf9, 0x8f, 0xa7]
    ensures IV224[28..32] == [0xbe, 0xfa, 0x4f, 0xa4]
  {
  }

  lemma Words512()
    ensures |IV512| == 64
    ensures StartWord(IV512, 8, 0) == 0x6A09_E667_F3BC_C908
    ensures StartWord(IV512, 8, 1) == 0xBB67_AE85_84CA_A73B
    ensures StartWord(IV512, 8, 2) == 0x3C6E_F372_FE94_F82B
    ensures StartWord(IV512, 8, 3) == 0xA54F_F53A_5F1D_36F1
    ensures StartWord(IV512, 8, 4) == 0x510E_527F_ADE6_82D1
    ensures StartWord(IV512, 8, 5) == 0x9B05_688C_2B3E_6C1F
    ensures StartWord(IV512, 8, 6) == 0x1F83_D9AB_FB41_BD6B
    ensures StartWord(IV512, 8, 7) == 0x5BE0_CD19_137E_2179
  {
    IvWords512();
    hide FromDigits, IV512;
    Digits8(IV512[0..8]);
    Digits8(IV512[8..16]);
    Digits8(IV512[16..24]);
    Digits8(IV512[24..32]);
    Digits8(IV512[32..40]);
    Digits8(IV512[40..48]);
    Digits8(IV512[48..56]);
    Digits8(IV512[56..64]);
  }

  lemma Words384()
    ensures |IV384| == 64
    ensures StartWord(IV384, 8, 0) == 0xCBBB_9D5D_C105_9ED8
    ensures StartWord(IV384, 8, 1) == 0x629A_292A_367C_D507
    ensures StartWord(IV384, 8, 2) == 0x9159_015A_3070_DD17
    ensures StartWord(IV384, 8, 3) == 0x152F_ECD8_F70E_5939
    ensures StartWord(IV384, 8, 4) == 0x6733_2667_FFC0_0B31
    ensures StartWord(IV384, 8, 5) == 0x8EB4_4A87_6858_1511
    ensures StartWord(IV384, 8, 6) == 0xDB0C_2E0D_64F9_8FA7
    ensures StartWord(IV384, 8, 7) == 0x47B5_481D_BEFA_4FA4
  {
    IvWords384();
    hide FromDigits, IV384;
    Digits8(IV384[0..8]);
    Digits8(IV384[8..16]);
    Digits8(IV384[16..24]);
    Digits8(IV384[24..32]);
    Digits8(IV384[32..40]);
    Digits8(IV384[40..48]);
    Digits8(IV384[48..56]);
    Digits8(IV384[56..64]);
  }

  lemma Words256()
    ensures |IV256| == 32
    ensures StartWord(IV256, 4, 0) == 0x6A09_E667
    ensures StartWord(IV256, 4, 1) == 0xBB67_AE85
    ensures StartWord(IV256, 4, 2) == 0x3C6E_F372
    ensures StartWord(IV256, 4, 3) == 0xA54F_F53A
    ensures StartWord(IV256, 4, 4) == 0x510E_527F
    ensures StartWord(IV256, 4, 5) == 0x9B05_688C
    ensures StartWord(IV256, 4, 6) == 0x1F83_D9AB
    ensures StartWord(IV256, 4, 7) == 0x5BE0_CD19
  {
    IvWords256();
    hide FromDigits, IV256;
    Digits4(IV256[0..4]);
    Digits4(IV256[4..8]);
    Digits4(IV256[8..12]);
    Digits4(IV256[12..16]);
    Digits4(IV256[16..20]);
    Digits4(IV256[20..24]);
    Digits4(IV256[24..28]);
    Digits4(IV256[28..32]);
  }

  lemma Words224()
    ensures |IV224| == 32
    ensures StartWord(IV224, 4, 0) == 0xC105_9ED8
    ensures StartWord(IV224, 4, 1) == 0x367C_D507
    ensures StartWord(IV224, 4, 2) == 0x3070_DD17
    ensures StartWord(IV224, 4, 3) == 0xF70E_5939
    ensures StartWord(IV224, 4, 4) == 0xFFC0_0B31
    ensures StartWord(IV224, 4, 5) == 0x6858_1511
    ensures StartWord(IV224, 4, 6) == 0x64F9_8FA7
    ensures StartWord(IV224, 4, 7) == 0xBEFA_4FA4
  {
    IvWords224();
    hide FromDigits, IV224;
    Digits4(IV224[0..4]);
    Digits4(IV224[4..8]);
    Digits4(IV224[8..12]);
    Digits4(IV224[12..16]);
    Digits4(IV224[16..20]);
    Digits4(IV224[20..24]);
    Digits4(IV224[24..28]);
    Digits4(IV224[28..32]);
  }

  /** The start value of SHA-512: the square roots of the first eight primes. */
  lemma Start512()
    ensures |IV512| == 64 && forall i | 0 <= i < 8 :: SquareFraction(PRIMES_0[i], StartWord(IV512, 8, i))
  {
    Words512();
    hide StartWord, IV512;
    assert IsSquareRoot(2, 1, 0x6A09_E667_F3BC_C908);
    assert IsSquareRoot(3, 1, 0xBB67_AE85_84CA_A73B);
    assert IsSquareRoot(5, 2, 0x3C6E_F372_FE94_F82B);
    assert IsSquareRoot(7, 2, 0xA54F_F53A_5F1D_36F1);
    assert IsSquareRoot(11, 3, 0x510E_527F_ADE6_82D1);
    assert IsSquareRoot(13, 3, 0x9B05_688C_2B3E_6C1F);
    assert IsSquareRoot(17, 4, 0x1F83_D9AB_FB41_BD6B);
    assert IsSquareRoot(19, 4, 0x5BE0_CD19_137E_2179);
  }

  /** The start value of SHA-384: the square roots of the next eight primes. */
  lemma Start384()
    ensures |IV384| == 64 && forall i | 0 <= i < 8 :: SquareFraction(PRIMES_0[i + 8], StartWord(IV384, 8, i))
  {
    Words384();
    hide StartWord, IV384;
    assert IsSquareRoot(23, 4, 0xCBBB_9D5D_C105_9ED8);
    assert IsSquareRoot(29, 5, 0x629A_292A_367C_D507);
    assert IsSquareRoot(31, 5, 0x9159_015A_3070_DD17);
    assert IsSquareRoot(37, 6, 0x152F_ECD8_F70E_5939);
    assert IsSquareRoot(41, 6, 0x6733_2667_FFC0_0B31);
    assert IsSquareRoot(43, 6, 0x8EB4_4A87_6858_1511);
    assert IsSquareRoot(47, 6, 0xDB0C_2E0D_64F9_8FA7);
    assert IsSquareRoot(53, 7, 0x47B5_481D_BEFA_4FA4);
  }

  /** The start value of SHA-256: the upper halves of the words of SHA-512. */
  lemma Start256()
    ensures |IV256| == 32 && |IV512| == 64 && forall i | 0 <= i < 8 :: StartWord(IV256, 4, i) == StartWord(IV512, 8, i) / 0x1_0000_0000
  {
    Words256();
    Words512();
    hide StartWord, IV256, IV512;
  }

  /** The start value of SHA-224: the lower halves of the words of SHA-384. */
  lemma Start224()
    ensures |IV224| == 32 && |IV384| == 64 && forall i | 0 <= i < 8 :: StartWord(IV224, 4, i) == StartWord(IV384, 8, i) % 0x1_0000_0000
  {
    Words224();
    Words384();
    hide StartWord, IV224, IV384;
  }
}
