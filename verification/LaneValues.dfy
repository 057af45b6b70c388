/** Lanes and their bytes as numbers, in terms that do not mention how the code shifts and masks: byte k of a lane is the
    k-th digit of its value in base 256.  What is absorbed at a place is read back from there, and squeezed bytes are such
    digits. */
module LaneValues {
  import opened Arith
  import opened Primitives
  import opened Words
  import opened Sponge

  /** The k-th digit of v in base 256, lowest first. */
  function Digit256(v: int, k: nat): int { (v / Pow256(k)) % 256 }

  lemma RawCut(x: word) returns (h: bv56, l: byte)
    ensures x == ((h as bv64) << 8) | (l as bv64) && x >> 8 == h as bv64 && (x & 0xFF) as bv8 == l
  {
    h, l := (x >> 8) as bv56, (x & 0xFF) as bv8;
  }

  lemma RawJoin(h: bv56, l: byte)
    ensures (((h as bv64) << 8) | (l as bv64)) as int == h as int * 256 + l as int
  {
  }

  lemma RawWiden(h: bv56)
    ensures (h as bv64) as int == h as int
  {
  }

  lemma RawByte(x: word)
    ensures (x >> 8) as int == x as int / 256 && ((x & 0xFF) as bv8) as int == x as int % 256
  {
    var h, l := RawCut(x);
    RawJoin(h, l);
    RawWiden(h);
  }

  /** Moving a word down by one byte divides its value by 256, and the low byte is the remainder. */
  lemma OneByteDown(x: word)
    ensures Shr(x, 8) as int == x as int / 256 && LowByte(x) as int == x as int % 256
  {
    RawByte(x);
  }

  lemma RawShrTwice(x: word, n: word)
    requires n <= 48
    ensures (x >> n) >> 8 == x >> (n + 8)
  {
  }

  lemma ShrTwice(x: word, n: word)
    requires n <= 48
    ensures Shr(Shr(x, n), 8) == Shr(x, n + 8)
  {
    RawShrTwice(x, n);
  }

  lemma RawShrNone(x: word)
    ensures x >> 0 == x
  {
  }

  lemma ShrNone(x: word)
    ensures Shr(x, 0) == x
  {
    RawShrNone(x);
  }

  lemma {:induction false} ShrSwaps(x: word, k: nat)
    requires k < 7
    ensures Shr(Shr(x, 8), Amount(k)) == Shr(x, Amount(k + 1))
    decreases k
  {
    hide Shr;
    if k == 0 {
      ShrNone(Shr(x, 8));
    } else {
      AmountStep(k - 1);
      AmountStep(k);
      hide Amount;
      ShrSwaps(x, k - 1);
      ShrTwice(Shr(x, 8), Amount(k - 1));
      ShrTwice(x, Amount(k));
    }
  }

  /** Byte k + 1 of a lane is byte k of what is left when the low byte is gone. */
  lemma NextByte(x: word, k: nat)
    requires k < 8
    ensures LaneByte(x, k) == if k == 0 then LowByte(x) else LaneByte(Shr(x, 8), k - 1)
  {
    hide Shr, LowByte;
    if k == 0 {
      ShrNone(x);
    } else {
      ShrSwaps(x, k - 1);
    }
  }

  lemma DigitStep(v: int, k: nat)
    requires k > 0
    ensures Digit256(v, k) == Digit256(v / 256, k - 1)
  {
    var p := Pow256(k - 1);
    var q, b, a := (v / 256) / p, (v / 256) % p, v % 256;
    assert v == 256 * (q * p + b) + a;
    assert 256 * (q * p + b) + a == q * (256 * p) + (256 * b + a);
    DivUnique(v, 256 * p, q, 256 * b + a);
  }

  /** Byte k of a lane is the k-th digit of its value. */
  lemma {:induction false} LaneByteValue(x: word, k: nat)
    requires k < 8
    ensures LaneByte(x, k) as int == Digit256(x as int, k)
    decreases k
  {
    hide LaneByte, Shr, LowByte, Pow256;
    NextByte(x, k);
    OneByteDown(x);
    if k == 0 {
      PowerStep(0);
    } else {
      LaneByteValue(Shr(x, 8), k - 1);
      hide Digit256;
      DigitStep(x as int, k);
    }
  }

  lemma ByteAtValue(s: Lanes, pos: nat)
    requires |s| == 25 && pos < 200
    ensures ByteAt(s, pos) as int == Digit256(s[pos / 8] as int, pos % 8)
  {
    hide LaneByte;
    LaneByteValue(s[pos / 8], pos % 8);
  }

  // ------------------------------------------------------------------ a byte that stands alone

  lemma RawZeroXor(x: word)
    ensures 0 ^ x == x
  {
  }

  lemma ZeroXor(x: word)
    ensures Xor(0, x) == x
  {
    RawZeroXor(x);
  }

  // ------------------------------------------------------------------ what is xored in is read back

  lemma RawXorBytes(x: word, y: word)
    ensures ((x ^ y) & 0xFF) as bv8 == ((x & 0xFF) as bv8) ^ ((y & 0xFF) as bv8) && (x ^ y) >> 8 == (x >> 8) ^ (y >> 8)
  {
  }

  function XorBytePair(a: byte, b: byte): byte { a ^ b }

  lemma XorZeroPair(a: byte)
    ensures XorBytePair(a, 0) == a && XorBytePair(0, a) == a
  {
  }

  lemma XorDown(x: word, y: word)
    ensures LowByte(Xor(x, y)) == XorBytePair(LowByte(x), LowByte(y)) && Shr(Xor(x, y), 8) == Xor(Shr(x, 8), Shr(y, 8))
  {
    RawXorBytes(x, y);
  }

  /** Xoring words xors their bytes. */
  lemma {:induction false} LaneByteXor(x: word, y: word, k: nat)
    requires k < 8
    ensures LaneByte(Xor(x, y), k) == XorBytePair(LaneByte(x, k), LaneByte(y, k))
    decreases k
  {
    hide *;
    NextByte(x, k);
    NextByte(y, k);
    NextByte(Xor(x, y), k);
    XorDown(x, y);
    if k > 0 {
      LaneByteXor(Shr(x, 8), Shr(y, 8), k - 1);
    }
  }

  lemma RawByteDown(b: byte, n: word)
    requires n <= 48
    ensures ((b as bv64) << (n + 8)) >> 8 == (b as bv64) << n && (((b as bv64) << (n + 8)) & 0xFF) as bv8 == 0
  {
  }

  lemma RawLastByte(b: byte)
    ensures (b as bv64) >> 8 == 0 && ((b as bv64) & 0xFF) as bv8 == b && (b as bv64) << 0 == b as bv64
  {
  }

  lemma MovedDown(b: byte, n: word)
    requires n <= 48
    ensures Shr(ShlByte(b, n + 8), 8) == ShlByte(b, n) && LowByte(ShlByte(b, n + 8)) == 0
  {
    RawByteDown(b, n);
  }

  lemma LastDown(b: byte)
    ensures Shr(ShlByte(b, 0), 8) == 0 && LowByte(ShlByte(b, 0)) == b
  {
    RawLastByte(b);
  }

  lemma ShiftedDown(b: byte, i: nat)
    requires i < 8
    ensures Shr(Shifted(b, i), 8) == if i == 0 then 0 else Shifted(b, i - 1)
    ensures LowByte(Shifted(b, i)) == if i == 0 then b else 0
  {
    hide Shr, ShlByte, LowByte;
    if i == 0 {
      LastDown(b);
    } else {
      AmountStep(i - 1);
      hide Amount;
      MovedDown(b, Amount(i - 1));
    }
  }

  lemma RawWidenByte(b: byte)
    ensures (b as bv64) as int == b as int
  {
  }

  lemma AloneLast(b: byte)
    ensures Shifted(b, 0) as int == b as int
  {
    RawLastByte(b);
    RawWidenByte(b);
  }

  lemma PowerStep(k: nat)
    ensures Pow256(k) == if k == 0 then 1 else 256 * Pow256(k - 1)
  {
  }

  lemma Reorder(b: int, p: int)
    ensures b * (256 * p) == 256 * (b * p)
  {
  }

  lemma NoByte(v: int, low: byte)
    requires low == 0 && low as int == v % 256
    ensures v == 256 * (v / 256)
  {
  }

  /** A byte that stands alone at place k of a lane is worth b 256^k, also when it was xored into a zero lane. */
  lemma {:induction false} ShiftedValue(b: byte, k: nat)
    requires k < 8
    ensures Xor(0, Shifted(b, k)) as int == Shifted(b, k) as int == b as int * Pow256(k)
    decreases k
  {
    hide *;
    ZeroXor(Shifted(b, k));
    PowerStep(k);
    if k == 0 {
      AloneLast(b);
    } else {
      ShiftedValue(b, k - 1);
      ShiftedDown(b, k);
      OneByteDown(Shifted(b, k));
      NoByte(Shifted(b, k) as int, LowByte(Shifted(b, k)));
      Reorder(b as int, Pow256(k - 1));
    }
  }

  lemma {:induction false} ZeroBytes(k: nat)
    requires k < 8
    ensures LaneByte(0, k) == 0
    decreases k
  {
    hide LaneByte;
    NextByte(0, k);
    if k > 0 {
      ZeroBytes(k - 1);
    }
  }

  /** A byte that stands alone at place i is read there, and zeros elsewhere. */
  lemma {:induction false} ShiftedByte(b: byte, i: nat, k: nat)
    requires i < 8 && k < 8
    ensures LaneByte(Shifted(b, i), k) == if i == k then b else 0
    decreases k
  {
    hide *;
    NextByte(Shifted(b, i), k);
    ShiftedDown(b, i);
    if k > 0 && i == 0 {
      ZeroBytes(k - 1);
    } else if k > 0 {
      ShiftedByte(b, i - 1, k - 1);
    }
  }

  lemma RawXorZeroByte(a: byte)
    ensures a ^ 0 == a
  {
  }

  /** Reading at pos after b was xored in at pos gives what was there, xored with b; any other byte is as it was. */
  lemma XorByteAt(s: Lanes, pos: nat, b: byte, q: nat)
    requires |s| == 25 && pos < 200 && q < 200
    ensures ByteAt(XorByte(s, pos, b), q) == ByteAt(s, q) ^ (if q == pos then b else 0)
  {
    hide LaneByte, Shifted, Xor;
    RawXorZeroByte(ByteAt(s, q));
    if q / 8 == pos / 8 {
      LaneByteXor(s[q / 8], Shifted(b, pos % 8), q % 8);
      ShiftedByte(b, pos % 8, q % 8);
      assert q == pos <==> q % 8 == pos % 8;
    }
  }

  /** The same of consecutive bytes. */
  lemma {:induction false} XorBytesAt(s: Lanes, pos: nat, m: Bytes, q: nat)
    requires |s| == 25 && pos + |m| <= 200 && q < 200
    ensures ByteAt(XorBytes(s, pos, m), q) == ByteAt(s, q) ^ (if pos <= q < pos + |m| then m[q - pos] else 0)
  {
    hide ByteAt, XorByte;
    var b := ByteAt(s, q);
    RawXorZeroByte(b);
    if |m| > 0 {
      XorBytesAt(s, pos, m[..|m| - 1], q);
      XorByteAt(XorBytes(s, pos, m[..|m| - 1]), pos + |m| - 1, m[|m| - 1], q);
      RawXorZeroByte(ByteAt(XorBytes(s, pos, m[..|m| - 1]), q));
    }
  }

  // ------------------------------------------------------------------ squeezed bytes

  /** The permutation n times. */
  ghost function Times(f: Permutation, s: Lanes, n: nat): (t: Lanes)
    requires KeepsSize(f) && |s| == 25
    ensures |t| == 25
  {
    if n == 0 then s else f(Times(f, s, n - 1))
  }

  /** Byte t of a sequence of blocks of r bytes is in this block, at this place. */
  function BlockOf(r: nat, t: nat): (n: nat)
    requires r > 0
  {
    Remainder(t, r);
    t / r
  }

  function PlaceOf(r: nat, t: nat): (p: nat)
    requires r > 0
    ensures p < r
  {
    t % r
  }

  lemma NextPlace(r: nat, t: nat)
    requires r > 0
    ensures if PlaceOf(r, t) + 1 == r then BlockOf(r, t + 1) == BlockOf(r, t) + 1 && PlaceOf(r, t + 1) == 0
            else BlockOf(r, t + 1) == BlockOf(r, t) && PlaceOf(r, t + 1) == PlaceOf(r, t) + 1
  {
    Remainder(t, r);
    var q, k := t / r, t % r;
    if k + 1 == r {
      assert (q + 1) * r == q * r + r;
      DivUnique(t + 1, r, q + 1, 0);
    } else {
      DivUnique(t + 1, r, q, k + 1);
    }
  }

  lemma FirstPlaces(r: nat, t: nat)
    requires 0 < r && t <= r
    ensures BlockOf(r, t) == (if t == r then 1 else 0) && PlaceOf(r, t) == if t == r then 0 else t
  {
    if t == r { DivUnique(t, r, 1, 0); } else { DivUnique(t, r, 0, t); }
  }

  /** The byte squeezed next: counting from the beginning of the current block it is byte t. */
  lemma {:induction false} NextSqueezed(f: Permutation, r: nat, q: Sq, n: nat)
    requires KeepsSize(f) && Rate(r) && SqReady(r, q)
    ensures var t := r - q.left + n;
            var q2 := Refill(f, r, Squeeze(f, r, q, n).0);
            q2.s == Times(f, q.s, BlockOf(r, t)) && r - q2.left == PlaceOf(r, t)
    decreases n
  {
    hide ByteAt, BlockOf, PlaceOf;
    var t := r - q.left + n;
    if n == 0 {
      FirstPlaces(r, t);
      assert Times(f, q.s, 0) == q.s && Times(f, q.s, 1) == f(q.s);
    } else {
      NextSqueezed(f, r, q, n - 1);
      NextPlace(r, t - 1);
      var q2 := Refill(f, r, Squeeze(f, r, q, n - 1).0);
      assert Squeeze(f, r, q, n).0 == q2.(left := q2.left - 1);
    }
  }

  /** Byte i of what is squeezed is a digit of a lane of the state after as many more permutations as blocks were begun. */
  lemma {:induction false} SqueezedByte(f: Permutation, r: nat, q: Sq, n: nat, i: nat)
    requires KeepsSize(f) && Rate(r) && SqReady(r, q) && i < n
    ensures var t := r - q.left + i;
            var p := PlaceOf(r, t);
            Squeeze(f, r, q, n).1[i] as int == Digit256(Times(f, q.s, BlockOf(r, t))[p / 8] as int, p % 8)
    decreases n
  {
    hide BlockOf, PlaceOf, Refill, Digit256, ByteAt;
    if i < n - 1 {
      SqueezedByte(f, r, q, n - 1, i);
    } else {
      NextSqueezed(f, r, q, i);
      var q2 := Refill(f, r, Squeeze(f, r, q, i).0);
      ByteAtValue(q2.s, r - q2.left);
    }
  }

  /** What a stream of output is, in numbers: byte i stands at place t % r of block t / r, t counted from the beginning of the
      current block, and it is a digit of a lane of the state after that many more permutations. */
  ghost predicate IsStream(f: Permutation, r: nat, q: Sq, out: Bytes)
    requires KeepsSize(f) && Rate(r) && SqReady(r, q)
  {
    forall i | 0 <= i < |out| ::
      var t := r - q.left + i;
      var p := PlaceOf(r, t);
      out[i] as int == Digit256(Times(f, q.s, BlockOf(r, t))[p / 8] as int, p % 8)
  }

  lemma SqueezedStream(f: Permutation, r: nat, q: Sq, n: nat)
    requires KeepsSize(f) && Rate(r) && SqReady(r, q)
    ensures IsStream(f, r, q, Squeeze(f, r, q, n).1)
  {
    hide BlockOf, PlaceOf, Digit256, Squeeze;
    forall i | 0 <= i < n
      ensures var t := r - q.left + i;
              var p := PlaceOf(r, t);
              Squeeze(f, r, q, n).1[i] as int == Digit256(Times(f, q.s, BlockOf(r, t))[p / 8] as int, p % 8)
    {
      SqueezedByte(f, r, q, n, i);
    }
  }
}
