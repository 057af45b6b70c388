/** The 32-bit and the 64-bit functions of sha2.c follow the standard on the values of their words: so SHA-224, SHA-256,
    SHA-384 and SHA-512 are the hashes Sha2Standard describes. */
module Sha2Instances {
  import opened Arith
  import opened Primitives
  import opened Words
  import opened WordBits
  import opened Sha2
  import opened Sha2Context
  import opened Sha2Functions
  import opened Sha2Standard

  const P256 := Params(32, Turns(2, 13, 22), Turns(6, 11, 25), Turns(7, 18, 3), Turns(17, 19, 10))
  const P512 := Params(64, Turns(28, 34, 39), Turns(14, 18, 41), Turns(1, 8, 7), Turns(19, 61, 6))

  // ------------------------------------------------------------------ 32 bits

  lemma BigSigma0Bits32(x: w32)
    ensures IsTurned(32, P256.sum0, Value32(x), Value32(BigSigma0_32(x)))
  {
    forall p: nat | p < 32
      ensures BitOf(Value32(BigSigma0_32(x)), p)
              <==> (BitOf(Value32(x), (p + 2) % 32) != BitOf(Value32(x), (p + 13) % 32))
                   != BitOf(Value32(x), (p + 22) % 32)
    {
      BigSigma0Bit32(x, p);
    }
  }

  lemma BigSigma0Bit32(x: w32, p: nat)
    requires p < 32
    ensures BitOf(Value32(BigSigma0_32(x)), p)
            <==> (BitOf(Value32(x), (p + 2) % 32) != BitOf(Value32(x), (p + 13) % 32))
                 != BitOf(Value32(x), (p + 22) % 32)
  {
    hide BitOf, Down32, ShrBy32, Xor32;
    var a, b, c := Down32(x, 2), Down32(x, 13), Down32(x, 22);
    XorBit32(a, b, p);
    XorBit32(Xor32(a, b), c, p);
    DownBit32(x, 2, p);
    DownBit32(x, 13, p);
    DownBit32(x, 22, p);
  }

  lemma BigSigma1Bits32(x: w32)
    ensures IsTurned(32, P256.sum1, Value32(x), Value32(BigSigma1_32(x)))
  {
    forall p: nat | p < 32
      ensures BitOf(Value32(BigSigma1_32(x)), p)
              <==> (BitOf(Value32(x), (p + 6) % 32) != BitOf(Value32(x), (p + 11) % 32))
                   != BitOf(Value32(x), (p + 25) % 32)
    {
      BigSigma1Bit32(x, p);
    }
  }

  lemma BigSigma1Bit32(x: w32, p: nat)
    requires p < 32
    ensures BitOf(Value32(BigSigma1_32(x)), p)
            <==> (BitOf(Value32(x), (p + 6) % 32) != BitOf(Value32(x), (p + 11) % 32))
                 != BitOf(Value32(x), (p + 25) % 32)
  {
    hide BitOf, Down32, ShrBy32, Xor32;
    var a, b, c := Down32(x, 6), Down32(x, 11), Down32(x, 25);
    XorBit32(a, b, p);
    XorBit32(Xor32(a, b), c, p);
    DownBit32(x, 6, p);
    DownBit32(x, 11, p);
    DownBit32(x, 25, p);
  }

  lemma Sigma0Bits32(x: w32)
    ensures IsShifted(32, P256.part0, Value32(x), Value32(Sigma0_32(x)))
  {
    forall p: nat | p < 32
      ensures BitOf(Value32(Sigma0_32(x)), p)
              <==> (BitOf(Value32(x), (p + 7) % 32) != BitOf(Value32(x), (p + 18) % 32))
                   != (p + 3 < 32 && BitOf(Value32(x), p + 3))
    {
      Sigma0Bit32(x, p);
    }
  }

  lemma Sigma0Bit32(x: w32, p: nat)
    requires p < 32
    ensures BitOf(Value32(Sigma0_32(x)), p)
            <==> (BitOf(Value32(x), (p + 7) % 32) != BitOf(Value32(x), (p + 18) % 32))
                 != (p + 3 < 32 && BitOf(Value32(x), p + 3))
  {
    hide BitOf, Down32, ShrBy32, Xor32;
    var a, b, c := Down32(x, 7), Down32(x, 18), ShrBy32(x, 3);
    XorBit32(a, b, p);
    XorBit32(Xor32(a, b), c, p);
    DownBit32(x, 7, p);
    DownBit32(x, 18, p);
    ShrBit32(x, 3, p);
  }

  lemma Sigma1Bits32(x: w32)
    ensures IsShifted(32, P256.part1, Value32(x), Value32(Sigma1_32(x)))
  {
    forall p: nat | p < 32
      ensures BitOf(Value32(Sigma1_32(x)), p)
              <==> (BitOf(Value32(x), (p + 17) % 32) != BitOf(Value32(x), (p + 19) % 32))
                   != (p + 10 < 32 && BitOf(Value32(x), p + 10))
    {
      Sigma1Bit32(x, p);
    }
  }

  lemma Sigma1Bit32(x: w32, p: nat)
    requires p < 32
    ensures BitOf(Value32(Sigma1_32(x)), p)
            <==> (BitOf(Value32(x), (p + 17) % 32) != BitOf(Value32(x), (p + 19) % 32))
                 != (p + 10 < 32 && BitOf(Value32(x), p + 10))
  {
    hide BitOf, Down32, ShrBy32, Xor32;
    var a, b, c := Down32(x, 17), Down32(x, 19), ShrBy32(x, 10);
    XorBit32(a, b, p);
    XorBit32(Xor32(a, b), c, p);
    DownBit32(x, 17, p);
    DownBit32(x, 19, p);
    ShrBit32(x, 10, p);
  }

  lemma ChBit32(x: w32, y: w32, z: w32, p: nat)
    ensures BitOf(Value32(Ch32(x, y, z)), p) <==> if BitOf(Value32(x), p) then BitOf(Value32(y), p) else BitOf(Value32(z), p)
  {
    hide BitOf, Xor32, And32, Not32;
    AndBit32(x, y, p);
    AndNotBit32(x, z, p);
    XorBit32(And32(x, y), And32(Not32(x), z), p);
  }

  lemma ChBits32(x: w32, y: w32, z: w32)
    ensures IsChoice(32, Value32(x), Value32(y), Value32(z), Value32(Ch32(x, y, z)))
  {
    forall p: nat | p < 32
      ensures BitOf(Value32(Ch32(x, y, z)), p) <==> if BitOf(Value32(x), p) then BitOf(Value32(y), p) else BitOf(Value32(z), p)
    {
      ChBit32(x, y, z, p);
    }
  }

  lemma MajBit32(x: w32, y: w32, z: w32, p: nat)
    ensures BitOf(Value32(Maj32(x, y, z)), p) <==> One(BitOf(Value32(x), p)) + One(BitOf(Value32(y), p)) + One(BitOf(Value32(z), p)) >= 2
  {
    hide BitOf, Xor32, And32;
    AndBit32(x, y, p);
    AndBit32(x, z, p);
    AndBit32(y, z, p);
    XorBit32(And32(x, y), And32(x, z), p);
    XorBit32(Xor32(And32(x, y), And32(x, z)), And32(y, z), p);
  }

  lemma MajBits32(x: w32, y: w32, z: w32)
    ensures IsMajority(32, Value32(x), Value32(y), Value32(z), Value32(Maj32(x, y, z)))
  {
    forall p: nat | p < 32
      ensures BitOf(Value32(Maj32(x, y, z)), p) <==> One(BitOf(Value32(x), p)) + One(BitOf(Value32(y), p)) + One(BitOf(Value32(z), p)) >= 2
    {
      MajBit32(x, y, z, p);
    }
  }

  /** A sum of several words is taken modulo 2^32 once. */
  lemma Modulo32(a: int, b: int)
    ensures (a % 0x1_0000_0000 + b) % 0x1_0000_0000 == (a + b) % 0x1_0000_0000
  {
  }

  lemma AddTo32(x: w32, y: w32, s: int)
    requires Value32(x) == s % 0x1_0000_0000
    ensures Value32(Add32(x, y)) == (s + Value32(y)) % 0x1_0000_0000
  {
    hide Value32, Add32;
    AddValue32(x, y);
    Modulo32(s, Value32(y));
  }

  lemma Whole32(x: w32)
    ensures Value32(x) == Value32(x) % 0x1_0000_0000 && Pow2(32) == 0x1_0000_0000
  {
    hide Pow2;
    Power31();
    Fits32(x);
    Below32(Value32(x));
  }

  lemma Below32(v: nat)
    requires v < 0x1_0000_0000
    ensures v == v % 0x1_0000_0000
  {
  }

  lemma ExpandIsWord32(w0: w32, w14: w32, w9: w32, w1: w32)
    ensures IsWord(P256, Value32(w0), Value32(w14), Value32(w9), Value32(w1), Value32(Expand32(w0, w14, w9, w1)))
  {
    var x, y := Sigma1_32(w14), Sigma0_32(w1);
    Sigma1Bits32(w14);
    Sigma0Bits32(w1);
    hide Value32, Add32, Sigma0_32, Sigma1_32, IsShifted, Pow2;
    Whole32(x);
    AddTo32(x, w9, Value32(x));
    AddTo32(Add32(x, w9), y, Value32(x) + Value32(w9));
    AddTo32(Add32(Add32(x, w9), y), w0, Value32(x) + Value32(w9) + Value32(y));
  }

  /** The five summands of T1. */
  lemma FirstSum32(h: w32, s1: w32, ch: w32, k: w32, w: w32)
    ensures Value32(Add32(Add32(Add32(Add32(h, s1), ch), k), w))
         == (Value32(h) + Value32(s1) + Value32(ch) + Value32(k) + Value32(w)) % 0x1_0000_0000
  {
    hide Value32, Add32;
    var a := Add32(h, s1);
    var b := Add32(a, ch);
    AddValue32(h, s1);
    AddTo32(a, ch, Value32(h) + Value32(s1));
    AddTo32(b, k, Value32(h) + Value32(s1) + Value32(ch));
    AddTo32(Add32(b, k), w, Value32(h) + Value32(s1) + Value32(ch) + Value32(k));
  }

  lemma SecondSum32(t1: w32, t: int, d: w32, s0: w32, maj: w32)
    requires Value32(t1) == t % 0x1_0000_0000
    ensures Value32(Add32(d, t1)) == (Value32(d) + t) % 0x1_0000_0000
    ensures Value32(Add32(t1, Add32(s0, maj))) == (t + Value32(s0) + Value32(maj)) % 0x1_0000_0000
  {
    hide Value32, Add32;
    AddValue32(d, t1);
    Modulo32(t, Value32(d));
    AddValue32(s0, maj);
    AddTo32(t1, Add32(s0, maj), t);
    Modulo32(Value32(s0) + Value32(maj), t);
  }

  function PartsOf32(v: Vars<w32>): Parts {
    Parts(Value32(BigSigma1_32(v.e)), Value32(Ch32(v.e, v.f, v.g)), Value32(BigSigma0_32(v.a)), Value32(Maj32(v.a, v.b, v.c)))
  }

  lemma PartsAre32(v: Vars<w32>)
    ensures AreParts(P256, ToNumbers(Value32, v), PartsOf32(v))
  {
    hide IsTurned, IsChoice, IsMajority, Value32, BigSigma0_32, BigSigma1_32, Ch32, Maj32;
    BigSigma1Bits32(v.e);
    BigSigma0Bits32(v.a);
    ChBits32(v.e, v.f, v.g);
    MajBits32(v.a, v.b, v.c);
  }

  lemma SumsAre32(v: Vars<w32>, w: w32, k: w32)
    ensures AddUp(32, ToNumbers(Value32, v), Value32(w), Value32(k), PartsOf32(v), ToNumbers(Value32, Step32(v, w, k)))
  {
    hide Value32, Add32, BigSigma0_32, BigSigma1_32, Ch32, Maj32, Pow2;
    var s1, ch, s0, maj := BigSigma1_32(v.e), Ch32(v.e, v.f, v.g), BigSigma0_32(v.a), Maj32(v.a, v.b, v.c);
    FirstSum32(v.h, s1, ch, k, w);
    var t := Value32(v.h) + Value32(s1) + Value32(ch) + Value32(k) + Value32(w);
    SecondSum32(Add32(Add32(Add32(Add32(v.h, s1), ch), k), w), t, v.d, s0, maj);
    Power31();
  }

  lemma StepIsRound32(v: Vars<w32>, w: w32, k: w32)
    ensures IsRound(P256, ToNumbers(Value32, v), Value32(w), Value32(k), ToNumbers(Value32, Step32(v, w, k)))
  {
    hide AreParts, AddUp, PartsOf32, ToNumbers, Step32;
    PartsAre32(v);
    SumsAre32(v, w, k);
  }

  lemma LoadValue32(b: Bytes)
    requires |b| == 4
    ensures Value32(Load32(b)) == FromDigits(b)
  {
    Digits4(b);
    LoadInt32(b);
    hide Load32, FromDigits;
  }

  lemma LoadInt32(b: Bytes)
    requires |b| == 4
    ensures Load32(b) as int == 0x100_0000 * (b[0] as int) + 0x1_0000 * (b[1] as int) + 0x100 * (b[2] as int) + b[3] as int
  {
    Joined32(b[0], b[1], b[2], b[3]);
  }

  lemma StoreValue32(x: w32)
    ensures |Store32(x)| == 4 && FromDigits(Store32(x)) == Value32(x)
  {
    hide Load32, Store32, FromDigits;
    LoadStore32(x);
    LoadValue32(Store32(x));
  }

  lemma Rounds32Follow()
    ensures RoundsFollow(SHA256, P256, Value32)
  {
    hide IsRound, Step32, Value32;
    forall v, w, k ensures IsRound(P256, ToNumbers(Value32, v), Value32(w), Value32(k), ToNumbers(Value32, SHA256.step(v, w, k))) {
      StepIsRound32(v, w, k);
    }
  }

  lemma Words32Follow()
    ensures WordsFollow(SHA256, P256, Value32)
  {
    hide IsWord, Expand32, Value32;
    forall a, b, c, d ensures IsWord(P256, Value32(a), Value32(b), Value32(c), Value32(d), Value32(SHA256.expand(a, b, c, d))) {
      ExpandIsWord32(a, b, c, d);
    }
  }

  lemma Sums32Follow()
    ensures SumsFollow(SHA256, P256, Value32)
  {
    hide Add32, Value32, Pow2;
    Power31();
    forall x, y ensures Value32(SHA256.add(x, y)) == (Value32(x) + Value32(y)) % Pow2(32) { AddValue32(x, y); }
  }

  lemma Bytes32Follow()
    ensures BytesFollow(SHA256, Value32)
  {
    hide Load32, Store32, Value32, FromDigits;
    forall b: Bytes | |b| == 4 ensures Value32(SHA256.load(b)) == FromDigits(b) { LoadValue32(b); }
    forall x ensures |SHA256.store(x)| == 4 && FromDigits(SHA256.store(x)) == Value32(x) { StoreValue32(x); }
  }

  lemma Sha256Follows()
    ensures Follows(SHA256, P256, Value32)
  {
    hide RoundsFollow, WordsFollow, SumsFollow, BytesFollow;
    Rounds32Follow();
    Words32Follow();
    Sums32Follow();
    Bytes32Follow();
  }


  // ------------------------------------------------------------------ 64 bits

  lemma BigSigma0Bits64(x: w64)
    ensures IsTurned(64, P512.sum0, Value64(x), Value64(BigSigma0_64(x)))
  {
    forall p: nat | p < 64
      ensures BitOf(Value64(BigSigma0_64(x)), p)
              <==> (BitOf(Value64(x), (p + 28) % 64) != BitOf(Value64(x), (p + 34) % 64))
                   != BitOf(Value64(x), (p + 39) % 64)
    {
      BigSigma0Bit64(x, p);
    }
  }

  lemma BigSigma0Bit64(x: w64, p: nat)
    requires p < 64
    ensures BitOf(Value64(BigSigma0_64(x)), p)
            <==> (BitOf(Value64(x), (p + 28) % 64) != BitOf(Value64(x), (p + 34) % 64))
                 != BitOf(Value64(x), (p + 39) % 64)
  {
    hide BitOf, Down64, Shr, Xor;
    var a, b, c := Down64(x, 28), Down64(x, 34), Down64(x, 39);
    XorBit64(a, b, p);
    XorBit64(Xor(a, b), c, p);
    DownBit64(x, 28, p);
    DownBit64(x, 34, p);
    DownBit64(x, 39, p);
  }

  lemma BigSigma1Bits64(x: w64)
    ensures IsTurned(64, P512.sum1, Value64(x), Value64(BigSigma1_64(x)))
  {
    forall p: nat | p < 64
      ensures BitOf(Value64(BigSigma1_64(x)), p)
              <==> (BitOf(Value64(x), (p + 14) % 64) != BitOf(Value64(x), (p + 18) % 64))
                   != BitOf(Value64(x), (p + 41) % 64)
    {
      BigSigma1Bit64(x, p);
    }
  }

  lemma BigSigma1Bit64(x: w64, p: nat)
    requires p < 64
    ensures BitOf(Value64(BigSigma1_64(x)), p)
            <==> (BitOf(Value64(x), (p + 14) % 64) != BitOf(Value64(x), (p + 18) % 64))
                 != BitOf(Value64(x), (p + 41) % 64)
  {
    hide BitOf, Down64, Shr, Xor;
    var a, b, c := Down64(x, 14), Down64(x, 18), Down64(x, 41);
    XorBit64(a, b, p);
    XorBit64(Xor(a, b), c, p);
    DownBit64(x, 14, p);
    DownBit64(x, 18, p);
    DownBit64(x, 41, p);
  }

  lemma Sigma0Bits64(x: w64)
    ensures IsShifted(64, P512.part0, Value64(x), Value64(Sigma0_64(x)))
  {
    forall p: nat | p < 64
      ensures BitOf(Value64(Sigma0_64(x)), p)
              <==> (BitOf(Value64(x), (p + 1) % 64) != BitOf(Value64(x), (p + 8) % 64))
                   != (p + 7 < 64 && BitOf(Value64(x), p + 7))
    {
      Sigma0Bit64(x, p);
    }
  }

  lemma Sigma0Bit64(x: w64, p: nat)
    requires p < 64
    ensures BitOf(Value64(Sigma0_64(x)), p)
            <==> (BitOf(Value64(x), (p + 1) % 64) != BitOf(Value64(x), (p + 8) % 64))
                 != (p + 7 < 64 && BitOf(Value64(x), p + 7))
  {
    hide BitOf, Down64, Shr, Xor;
    var a, b, c := Down64(x, 1), Down64(x, 8), Shr(x, 7);
    XorBit64(a, b, p);
    XorBit64(Xor(a, b), c, p);
    DownBit64(x, 1, p);
    DownBit64(x, 8, p);
    ShrBit64(x, 7, p);
  }

  lemma Sigma1Bits64(x: w64)
    ensures IsShifted(64, P512.part1, Value64(x), Value64(Sigma1_64(x)))
  {
    forall p: nat | p < 64
      ensures BitOf(Value64(Sigma1_64(x)), p)
              <==> (BitOf(Value64(x), (p + 19) % 64) != BitOf(Value64(x), (p + 61) % 64))
                   != (p + 6 < 64 && BitOf(Value64(x), p + 6))
    {
      Sigma1Bit64(x, p);
    }
  }

  lemma Sigma1Bit64(x: w64, p: nat)
    requires p < 64
    ensures BitOf(Value64(Sigma1_64(x)), p)
            <==> (BitOf(Value64(x), (p + 19) % 64) != BitOf(Value64(x), (p + 61) % 64))
                 != (p + 6 < 64 && BitOf(Value64(x), p + 6))
  {
    hide BitOf, Down64, Shr, Xor;
    var a, b, c := Down64(x, 19), Down64(x, 61), Shr(x, 6);
    XorBit64(a, b, p);
    XorBit64(Xor(a, b), c, p);
    DownBit64(x, 19, p);
    DownBit64(x, 61, p);
    ShrBit64(x, 6, p);
  }

  lemma ChBit64(x: w64, y: w64, z: w64, p: nat)
    ensures BitOf(Value64(Ch64(x, y, z)), p) <==> if BitOf(Value64(x), p) then BitOf(Value64(y), p) else BitOf(Value64(z), p)
  {
    hide BitOf, Xor, And, Not;
    AndBit64(x, y, p);
    AndNotBit64(x, z, p);
    XorBit64(And(x, y), And(Not(x), z), p);
  }

  lemma ChBits64(x: w64, y: w64, z: w64)
    ensures IsChoice(64, Value64(x), Value64(y), Value64(z), Value64(Ch64(x, y, z)))
  {
    forall p: nat | p < 64
      ensures BitOf(Value64(Ch64(x, y, z)), p) <==> if BitOf(Value64(x), p) then BitOf(Value64(y), p) else BitOf(Value64(z), p)
    {
      ChBit64(x, y, z, p);
    }
  }

  lemma MajBit64(x: w64, y: w64, z: w64, p: nat)
    ensures BitOf(Value64(Maj64(x, y, z)), p) <==> One(BitOf(Value64(x), p)) + One(BitOf(Value64(y), p)) + One(BitOf(Value64(z), p)) >= 2
  {
    hide BitOf, Xor, And;
    AndBit64(x, y, p);
    AndBit64(x, z, p);
    AndBit64(y, z, p);
    XorBit64(And(x, y), And(x, z), p);
    XorBit64(Xor(And(x, y), And(x, z)), And(y, z), p);
  }

  lemma MajBits64(x: w64, y: w64, z: w64)
    ensures IsMajority(64, Value64(x), Value64(y), Value64(z), Value64(Maj64(x, y, z)))
  {
    forall p: nat | p < 64
      ensures BitOf(Value64(Maj64(x, y, z)), p) <==> One(BitOf(Value64(x), p)) + One(BitOf(Value64(y), p)) + One(BitOf(Value64(z), p)) >= 2
    {
      MajBit64(x, y, z, p);
    }
  }

  /** A sum of several words is taken modulo 2^64 once. */
  lemma Modulo64(a: int, b: int)
    ensures (a % 0x1_0000_0000_0000_0000 + b) % 0x1_0000_0000_0000_0000 == (a + b) % 0x1_0000_0000_0000_0000
  {
  }

  lemma AddTo64(x: w64, y: w64, s: int)
    requires Value64(x) == s % 0x1_0000_0000_0000_0000
    ensures Value64(Add64(x, y)) == (s + Value64(y)) % 0x1_0000_0000_0000_0000
  {
    hide Value64, Add64;
    AddValue64(x, y);
    Modulo64(s, Value64(y));
  }

  lemma Whole64(x: w64)
    ensures Value64(x) == Value64(x) % 0x1_0000_0000_0000_0000 && Pow2(64) == 0x1_0000_0000_0000_0000
  {
    hide Pow2;
    Power63();
    Fits64(x);
    Below64(Value64(x));
  }

  lemma Below64(v: nat)
    requires v < 0x1_0000_0000_0000_0000
    ensures v == v % 0x1_0000_0000_0000_0000
  {
  }

  lemma ExpandIsWord64(w0: w64, w14: w64, w9: w64, w1: w64)
    ensures IsWord(P512, Value64(w0), Value64(w14), Value64(w9), Value64(w1), Value64(Expand64(w0, w14, w9, w1)))
  {
    var x, y := Sigma1_64(w14), Sigma0_64(w1);
    Sigma1Bits64(w14);
    Sigma0Bits64(w1);
    hide Value64, Add64, Sigma0_64, Sigma1_64, IsShifted, Pow2;
    Whole64(x);
    AddTo64(x, w9, Value64(x));
    AddTo64(Add64(x, w9), y, Value64(x) + Value64(w9));
    AddTo64(Add64(Add64(x, w9), y), w0, Value64(x) + Value64(w9) + Value64(y));
  }

  /** The five summands of T1. */
  lemma FirstSum64(h: w64, s1: w64, ch: w64, k: w64, w: w64)
    ensures Value64(Add64(Add64(Add64(Add64(h, s1), ch), k), w))
         == (Value64(h) + Value64(s1) + Value64(ch) + Value64(k) + Value64(w)) % 0x1_0000_0000_0000_0000
  {
    hide Value64, Add64;
    var a := Add64(h, s1);
    var b := Add64(a, ch);
    AddValue64(h, s1);
    AddTo64(a, ch, Value64(h) + Value64(s1));
    AddTo64(b, k, Value64(h) + Value64(s1) + Value64(ch));
    AddTo64(Add64(b, k), w, Value64(h) + Value64(s1) + Value64(ch) + Value64(k));
  }

  lemma SecondSum64(t1: w64, t: int, d: w64, s0: w64, maj: w64)
    requires Value64(t1) == t % 0x1_0000_0000_0000_0000
    ensures Value64(Add64(d, t1)) == (Value64(d) + t) % 0x1_0000_0000_0000_0000
    ensures Value64(Add64(t1, Add64(s0, maj))) == (t + Value64(s0) + Value64(maj)) % 0x1_0000_0000_0000_0000
  {
    hide Value64, Add64;
    AddValue64(d, t1);
    Modulo64(t, Value64(d));
    AddValue64(s0, maj);
    AddTo64(t1, Add64(s0, maj), t);
    Modulo64(Value64(s0) + Value64(maj), t);
  }

  function PartsOf64(v: Vars<w64>): Parts {
    Parts(Value64(BigSigma1_64(v.e)), Value64(Ch64(v.e, v.f, v.g)), Value64(BigSigma0_64(v.a)), Value64(Maj64(v.a, v.b, v.c)))
  }

  lemma PartsAre64(v: Vars<w64>)
    ensures AreParts(P512, ToNumbers(Value64, v), PartsOf64(v))
  {
    hide IsTurned, IsChoice, IsMajority, Value64, BigSigma0_64, BigSigma1_64, Ch64, Maj64;
    BigSigma1Bits64(v.e);
    BigSigma0Bits64(v.a);
    ChBits64(v.e, v.f, v.g);
    MajBits64(v.a, v.b, v.c);
  }

  lemma SumsAre64(v: Vars<w64>, w: w64, k: w64)
    ensures AddUp(64, ToNumbers(Value64, v), Value64(w), Value64(k), PartsOf64(v), ToNumbers(Value64, Step64(v, w, k)))
  {
    hide Value64, Add64, BigSigma0_64, BigSigma1_64, Ch64, Maj64, Pow2;
    var s1, ch, s0, maj := BigSigma1_64(v.e), Ch64(v.e, v.f, v.g), BigSigma0_64(v.a), Maj64(v.a, v.b, v.c);
    FirstSum64(v.h, s1, ch, k, w);
    var t := Value64(v.h) + Value64(s1) + Value64(ch) + Value64(k) + Value64(w);
    SecondSum64(Add64(Add64(Add64(Add64(v.h, s1), ch), k), w), t, v.d, s0, maj);
    Power63();
  }

  lemma StepIsRound64(v: Vars<w64>, w: w64, k: w64)
    ensures IsRound(P512, ToNumbers(Value64, v), Value64(w), Value64(k), ToNumbers(Value64, Step64(v, w, k)))
  {
    hide AreParts, AddUp, PartsOf64, ToNumbers, Step64;
    PartsAre64(v);
    SumsAre64(v, w, k);
  }

  lemma LoadValue64(b: Bytes)
    requires |b| == 8
    ensures Value64(Load64(b)) == FromDigits(b)
  {
    Digits8(b);
    LoadInt64(b);
    hide Load64, FromDigits;
  }

  lemma LoadInt64(b: Bytes)
    requires |b| == 8
    ensures Load64(b) as int == 0x100_0000_0000_0000 * (b[0] as int) + 0x1_0000_0000_0000 * (b[1] as int) + 0x100_0000_0000 * (b[2] as int) + 0x1_0000_0000 * (b[3] as int) + 0x100_0000 * (b[4] as int) + 0x1_0000 * (b[5] as int) + 0x100 * (b[6] as int) + b[7] as int
  {
    Joined64(b[0], b[1], b[2], b[3], b[4], b[5], b[6], b[7]);
  }

  lemma Digits8(b: Bytes)
    requires |b| == 8
    ensures FromDigits(b) == 0x100_0000_0000_0000 * (b[0] as int) + 0x1_0000_0000_0000 * (b[1] as int) + 0x100_0000_0000 * (b[2] as int) + 0x1_0000_0000 * (b[3] as int) + 0x100_0000 * (b[4] as int) + 0x1_0000 * (b[5] as int) + 0x100 * (b[6] as int) + b[7] as int
  {
    hide FromDigits;
    Digits4(b[..4]);
    NextDigit(b, 4);
    NextDigit(b, 5);
    NextDigit(b, 6);
    NextDigit(b, 7);
    assert b[..8] == b;
  }

  lemma StoreValue64(x: w64)
    ensures |Store64(x)| == 8 && FromDigits(Store64(x)) == Value64(x)
  {
    hide Load64, Store64, FromDigits;
    LoadStore64(x);
    LoadValue64(Store64(x));
  }

  lemma Rounds64Follow()
    ensures RoundsFollow(SHA512, P512, Value64)
  {
    hide IsRound, Step64, Value64;
    forall v, w, k ensures IsRound(P512, ToNumbers(Value64, v), Value64(w), Value64(k), ToNumbers(Value64, SHA512.step(v, w, k))) {
      StepIsRound64(v, w, k);
    }
  }

  lemma Words64Follow()
    ensures WordsFollow(SHA512, P512, Value64)
  {
    hide IsWord, Expand64, Value64;
    forall a, b, c, d ensures IsWord(P512, Value64(a), Value64(b), Value64(c), Value64(d), Value64(SHA512.expand(a, b, c, d))) {
      ExpandIsWord64(a, b, c, d);
    }
  }

  lemma Sums64Follow()
    ensures SumsFollow(SHA512, P512, Value64)
  {
    hide Add64, Value64, Pow2;
    Power63();
    forall x, y ensures Value64(SHA512.add(x, y)) == (Value64(x) + Value64(y)) % Pow2(64) { AddValue64(x, y); }
  }

  lemma Bytes64Follow()
    ensures BytesFollow(SHA512, Value64)
  {
    hide Load64, Store64, Value64, FromDigits;
    forall b: Bytes | |b| == 8 ensures Value64(SHA512.load(b)) == FromDigits(b) { LoadValue64(b); }
    forall x ensures |SHA512.store(x)| == 8 && FromDigits(SHA512.store(x)) == Value64(x) { StoreValue64(x); }
  }

  lemma Sha512Follows()
    ensures Follows(SHA512, P512, Value64)
  {
    hide RoundsFollow, WordsFollow, SumsFollow, BytesFollow;
    Rounds64Follow();
    Words64Follow();
    Sums64Follow();
    Bytes64Follow();
  }


  // ------------------------------------------------------------------ the four functions

  /** digest is the hash of m as the standard describes it, cut to n bytes. */
  ghost predicate IsCutHash(P: Params, ks: seq<nat>, len: nat, iv: Bytes, m: Bytes, n: nat, digest: Bytes) {
    exists whole :: IsHash(P, ks, len, iv, m, whole) && n <= |whole| && digest == whole[..n]
  }

  lemma StartIs32(cut: bool)
    ensures Start32(cut) == if cut then IV224 else IV256
  {
    hide IV224, IV256;
  }

  lemma StartIs64(cut: bool)
    ensures Start64(cut) == if cut then IV384 else IV512
  {
    hide IV384, IV512;
  }

  /** SHA-256, and SHA-224 in 28 bytes. */
  lemma ShortIsStandard(m: Bytes, cut: bool)
    ensures IsCutHash(P256, Constants(SHA256, Value32), 4, if cut then IV224 else IV256, m, if cut then 28 else 32,
                      DigestShort(m, cut))
  {
    StartIs32(cut);
    hide IsHash, Hash, Start32, Constants, Follows, IV224, IV256;
    Sha256Lawful();
    Sha256Follows();
    HashIsStandard(SHA256, P256, Value32, Start32(cut), m);
    HashLength(SHA256, Start32(cut), m);
    var whole := Hash(SHA256, Start32(cut), m);
    assert whole[..32] == whole;
  }

  /** SHA-512, and SHA-384 in 48 bytes. */
  lemma LongIsStandard(m: Bytes, cut: bool)
    ensures IsCutHash(P512, Constants(SHA512, Value64), 8, if cut then IV384 else IV512, m, if cut then 48 else 64,
                      DigestLong(m, cut))
  {
    StartIs64(cut);
    hide IsHash, Hash, Start64, Constants, Follows, IV384, IV512;
    Sha512Lawful();
    Sha512Follows();
    HashIsStandard(SHA512, P512, Value64, Start64(cut), m);
    HashLength(SHA512, Start64(cut), m);
    var whole := Hash(SHA512, Start64(cut), m);
    assert whole[..64] == whole;
  }
}
