/** The Keccak sponge of fips202.c over an arbitrary permutation of 25 lanes: byte-by-byte absorbing and squeezing as
    the reference, and the laws that make the chunked and the one-shot forms agree with it. */
module Sponge {
  import opened Arith
  import opened Primitives
  import opened Words

  type Lanes = seq<bv64>

  type Permutation = Lanes -> Lanes

  ghost predicate KeepsSize(f: Permutation) {
    forall s: Lanes :: |s| == 25 ==> |f(s)| == 25
  }

  /** SHAKE128, SHAKE256 and the SHA-3 rates all satisfy this: whole lanes, fewer than 25 of them. */
  predicate Rate(r: nat) { 0 < r < 200 && r % 8 == 0 }

  const Zero: Lanes := [0, 0, 0, 0, 0, 0, 0, 0, 0, 0, 0, 0, 0, 0, 0, 0, 0, 0, 0, 0, 0, 0, 0, 0, 0]

  /** The bit offset 8 k of byte k of a lane. */
  function Amount(k: nat): (a: bv64)
    requires k < 8
    ensures a <= 56
  {
    match k
    case 0 => 0
    case 1 => 8
    case 2 => 16
    case 3 => 24
    case 4 => 32
    case 5 => 40
    case 6 => 48
    case 7 => 56
  }

  lemma AmountStep(i: nat)
    requires i < 7
    ensures Amount(i) < 56 && Amount(i + 1) == Amount(i) + 8
  {
  }

  /** A lane holding byte `b` at byte position `k`, little-endian. */
  function Shifted(b: byte, k: nat): bv64
    requires k < 8
  {
    ShlByte(b, Amount(k))
  }

  function XorByte(s: Lanes, pos: nat, b: byte): (t: Lanes)
    requires |s| == 25 && pos < 200
    ensures |t| == 25
  {
    s[pos / 8 := Xor(s[pos / 8], Shifted(b, pos % 8))]
  }

  /** Byte `k` of a lane. */
  function LaneByte(x: bv64, k: nat): byte
    requires k < 8
  {
    LowByte(Shr(x, Amount(k)))
  }

  function ByteAt(s: Lanes, pos: nat): byte
    requires |s| == 25 && pos < 200
  {
    LaneByte(s[pos / 8], pos % 8)
  }

  /** Bytes xored into consecutive positions from `pos` on. */
  function XorBytes(s: Lanes, pos: nat, m: Bytes): (t: Lanes)
    requires |s| == 25 && pos + |m| <= 200
    ensures |t| == 25
  {
    if |m| == 0 then s else XorByte(XorBytes(s, pos, m[..|m| - 1]), pos + |m| - 1, m[|m| - 1])
  }

  // ------------------------------------------------------------------ absorbing

  /** An absorbing state: the lanes and the number of bytes xored in since the last permutation. */
  datatype Inc = Inc(s: Lanes, pos: nat)

  predicate Ready(r: nat, st: Inc) { |st.s| == 25 && st.pos < r }

  ghost function AbsorbByte(f: Permutation, r: nat, st: Inc, b: byte): (t: Inc)
    requires KeepsSize(f) && Rate(r) && Ready(r, st)
    ensures Ready(r, t)
  {
    var s := XorByte(st.s, st.pos, b);
    if st.pos + 1 == r then Inc(f(s), 0) else Inc(s, st.pos + 1)
  }

  ghost function Absorb(f: Permutation, r: nat, st: Inc, m: Bytes): (t: Inc)
    requires KeepsSize(f) && Rate(r) && Ready(r, st)
    ensures Ready(r, t)
  {
    if |m| == 0 then st else AbsorbByte(f, r, Absorb(f, r, st, m[..|m| - 1]), m[|m| - 1])
  }

  /** Absorbing in chunks is absorbing at once. */
  lemma {:induction false} AbsorbConcat(f: Permutation, r: nat, st: Inc, a: Bytes, b: Bytes)
    requires KeepsSize(f) && Rate(r) && Ready(r, st)
    ensures Absorb(f, r, st, a + b) == Absorb(f, r, Absorb(f, r, st, a), b)
  {
    if |b| == 0 {
      assert a + b == a;
    } else {
      assert (a + b)[..|a + b| - 1] == a + b[..|b| - 1];
      AbsorbConcat(f, r, st, a, b[..|b| - 1]);
    }
  }

  /** Bytes that do not fill the block are xored in place; bytes that fill it are followed by one permutation. */
  lemma {:induction false} AbsorbWithinBlock(f: Permutation, r: nat, st: Inc, m: Bytes)
    requires KeepsSize(f) && Rate(r) && Ready(r, st) && st.pos + |m| <= r
    ensures var s := XorBytes(st.s, st.pos, m);
            Absorb(f, r, st, m) == if st.pos + |m| < r then Inc(s, st.pos + |m|) else Inc(f(s), 0)
  {
    hide XorByte;
    if |m| > 0 {
      AbsorbWithinBlock(f, r, st, m[..|m| - 1]);
    }
  }

  // ------------------------------------------------------------------ padding

  function Finalize(r: nat, st: Inc, p: byte): (s: Lanes)
    requires Rate(r) && Ready(r, st)
    ensures |s| == 25
  {
    XorByte(XorByte(st.s, st.pos, p), r - 1, 0x80)
  }

  lemma XorByteTwice(s: Lanes, pos: nat, a: byte, b: byte)
    requires |s| == 25 && pos < 200
    ensures XorByte(XorByte(s, pos, a), pos, b) == XorByte(s, pos, a ^ b)
  {
    hide Shifted, Xor;
    var i, k := pos / 8, pos % 8;
    ShiftedXor(a, b, k);
    XorAssociates(s[i], Shifted(a, k), Shifted(b, k));
    UpdateTwice(s, i, Xor(s[i], Shifted(a, k)), Xor(Xor(s[i], Shifted(a, k)), Shifted(b, k)));
  }

  lemma UpdateTwice(s: Lanes, i: nat, v: bv64, w: bv64)
    requires i < |s|
    ensures s[i := v][i := w] == s[i := w]
  {
  }

  lemma ShiftedXor(a: byte, b: byte, k: nat)
    requires k < 8
    ensures Xor(Shifted(a, k), Shifted(b, k)) == Shifted(a ^ b, k)
  {
    hide Amount, Xor, ShlByte;
    ShlXor(a, b, Amount(k));
  }

  lemma XorZeroByte(s: Lanes, pos: nat)
    requires |s| == 25 && pos < 200
    ensures XorByte(s, pos, 0) == s
  {
    hide Amount, Xor, ShlByte;
    ShlZero(Amount(pos % 8));
    XorZero(s[pos / 8]);
  }

  lemma {:induction false} XorZeros(s: Lanes, pos: nat, n: nat)
    requires |s| == 25 && pos + n <= 200
    ensures XorBytes(s, pos, Zeros(n)) == s
  {
    if n > 0 {
      assert Zeros(n)[..n - 1] == Zeros(n - 1);
      XorZeros(s, pos, n - 1);
      XorZeroByte(s, pos + n - 1);
    }
  }

  lemma {:induction false} XorBytesConcat(s: Lanes, pos: nat, a: Bytes, b: Bytes)
    requires |s| == 25 && pos + |a| + |b| <= 200
    ensures XorBytes(s, pos, a + b) == XorBytes(XorBytes(s, pos, a), pos + |a|, b)
  {
    if |b| == 0 {
      assert a + b == a;
    } else {
      assert (a + b)[..|a + b| - 1] == a + b[..|b| - 1];
      XorBytesConcat(s, pos, a, b[..|b| - 1]);
    }
  }

  /** The padded tail of a block: the tail, the domain byte, zeros, and 0x80 ored into the last byte. */
  function PaddedTail(r: nat, tail: Bytes, p: byte): (t: Bytes)
    requires |tail| < r
    ensures |t| == r
  {
    var t := tail + [p] + Zeros(r - |tail| - 1);
    t[r - 1 := t[r - 1] | 0x80]
  }

  lemma OrIsXor(p: byte)
    ensures p | 0x80 == p ^ 0x80 <==> p < 0x80
  {
  }

  /** The incremental padding, two xors, and the one-shot padding, an or, give the same lanes exactly when the domain
      byte leaves bit 7 alone or does not share the last byte of the block with it. */
  lemma {:induction false} PaddingFormsAgree(r: nat, s: Lanes, tail: Bytes, p: byte)
    requires Rate(r) && |s| == 25 && |tail| < r
    ensures XorBytes(s, 0, PaddedTail(r, tail, p)) == Finalize(r, Inc(XorBytes(s, 0, tail), |tail|), p)
            <==> p < 0x80 || |tail| < r - 1
  {
    hide XorByte, XorBytes;
    var t := PaddedTail(r, tail, p);
    var st := XorBytes(s, 0, tail);
    if |tail| == r - 1 {
      assert t == tail + [p | 0x80];
      XorBytesConcat(s, 0, tail, [p | 0x80]);
      OneByte(st, r - 1, p | 0x80);
      XorByteTwice(st, r - 1, p, 0x80);
      OrIsXor(p);
      if p >= 0x80 {
        XorByteInjective(st, r - 1, p | 0x80, p ^ 0x80);
      }
    } else {
      var z := Zeros(r - |tail| - 2);
      assert t == ((tail + [p]) + z) + [0x80];
      XorBytesConcat(s, 0, (tail + [p]) + z, [0x80]);
      XorBytesConcat(s, 0, tail + [p], z);
      XorBytesConcat(s, 0, tail, [p]);
      OneByte(st, |tail|, p);
      XorZeros(XorByte(st, |tail|, p), |tail| + 1, |z|);
      OneByte(XorByte(st, |tail|, p), r - 1, 0x80);
    }
  }

  lemma OneByte(s: Lanes, pos: nat, b: byte)
    requires |s| == 25 && pos < 200
    ensures XorBytes(s, pos, [b]) == XorByte(s, pos, b)
  {
    assert [b][..0] == [];
  }

  lemma XorByteInjective(s: Lanes, pos: nat, a: byte, b: byte)
    requires |s| == 25 && pos < 200 && a != b
    ensures XorByte(s, pos, a) != XorByte(s, pos, b)
  {
    hide Shifted, Xor;
    ShiftedInjective(a, b, pos % 8);
    XorDiffers(s[pos / 8], Shifted(a, pos % 8), Shifted(b, pos % 8));
    assert XorByte(s, pos, a)[pos / 8] != XorByte(s, pos, b)[pos / 8];
  }

  lemma ShiftedInjective(a: byte, b: byte, k: nat)
    requires k < 8 && a != b
    ensures Shifted(a, k) != Shifted(b, k)
  {
    hide Amount, ShlByte;
    ShlInjective(a, b, Amount(k));
  }

  // ------------------------------------------------------------------ squeezing

  /** A squeezing state: the lanes and how many bytes of the current block have not been given out. */
  datatype Sq = Sq(s: Lanes, left: nat)

  predicate SqReady(r: nat, q: Sq) { |q.s| == 25 && q.left <= r }

  ghost function Refill(f: Permutation, r: nat, q: Sq): (t: Sq)
    requires KeepsSize(f) && Rate(r) && SqReady(r, q)
    ensures SqReady(r, t) && t.left > 0
  {
    if q.left == 0 then Sq(f(q.s), r) else q
  }

  /** The state after n bytes and those bytes. */
  ghost function Squeeze(f: Permutation, r: nat, q: Sq, n: nat): (t: (Sq, Bytes))
    requires KeepsSize(f) && Rate(r) && SqReady(r, q)
    ensures SqReady(r, t.0) && |t.1| == n
    decreases n
  {
    if n == 0 then (q, [])
    else
      var (q1, out) := Squeeze(f, r, q, n - 1);
      var q2 := Refill(f, r, q1);
      (q2.(left := q2.left - 1), out + [ByteAt(q2.s, r - q2.left)])
  }

  /** Squeezing in chunks is squeezing at once. */
  lemma {:induction false} SqueezeConcat(f: Permutation, r: nat, q: Sq, m: nat, n: nat)
    requires KeepsSize(f) && Rate(r) && SqReady(r, q)
    ensures var (q1, a) := Squeeze(f, r, q, m);
            var (q2, b) := Squeeze(f, r, q1, n);
            Squeeze(f, r, q, m + n) == (q2, a + b)
    decreases n
  {
    hide ByteAt, Refill;
    var (q1, a) := Squeeze(f, r, q, m);
    if n == 0 {
      assert a + [] == a;
    } else {
      SqueezeConcat(f, r, q, m, n - 1);
      var (q2, b) := Squeeze(f, r, q1, n - 1);
      var q3 := Refill(f, r, q2);
      assert a + (b + [ByteAt(q3.s, r - q3.left)]) == (a + b) + [ByteAt(q3.s, r - q3.left)];
    }
  }

  /** Within one block, squeezing reads consecutive bytes of the unchanged lanes. */
  lemma {:induction false} SqueezeWithinBlock(f: Permutation, r: nat, q: Sq, n: nat)
    requires KeepsSize(f) && Rate(r) && SqReady(r, q) && n <= q.left
    ensures var (t, out) := Squeeze(f, r, q, n);
            t == Sq(q.s, q.left - n) && forall i | 0 <= i < n :: out[i] == ByteAt(q.s, r - q.left + i)
    decreases n
  {
    hide ByteAt;
    if n > 0 {
      SqueezeWithinBlock(f, r, q, n - 1);
    }
  }

  // ------------------------------------------------------------------ the whole function

  /** Extendable output: absorb, pad, squeeze. */
  ghost function Xof(f: Permutation, r: nat, p: byte, m: Bytes, n: nat): (out: Bytes)
    requires KeepsSize(f) && Rate(r)
    ensures |out| == n
  {
    var lanes := Finalize(r, Absorb(f, r, Inc(Zero, 0), m), p);
    var (_, bytes) := Squeeze(f, r, Sq(lanes, 0), n);
    bytes
  }

  /** The padded message of FIPS 202, sections 4 and 5.1, with the domain bits in `p`: a whole number of blocks. */
  function PadTail(r: nat, n: nat, p: byte): (t: Bytes)
    requires Rate(r)
    ensures |t| == r - n % r
  {
    var t := [p] + Zeros(r - n % r - 1);
    t[|t| - 1 := t[|t| - 1] ^ 0x80]
  }

  /** The sponge construction: absorbing the padded message block by block, each block followed by the permutation,
      leaves the lanes that the first squeezing step starts from. */
  lemma {:induction false} PaddingIsPad101(f: Permutation, r: nat, p: byte, m: Bytes)
    requires KeepsSize(f) && Rate(r)
    ensures Absorb(f, r, Inc(Zero, 0), m + PadTail(r, |m|, p))
            == Inc(f(Finalize(r, Absorb(f, r, Inc(Zero, 0), m), p)), 0)
  {
    hide XorByte, XorBytes, Absorb;
    var st := Absorb(f, r, Inc(Zero, 0), m);
    AbsorbPosition(f, r, Inc(Zero, 0), m);
    var t := PadTail(r, |m|, p);
    AbsorbConcat(f, r, Inc(Zero, 0), m, t);
    AbsorbWithinBlock(f, r, st, t);
    if |t| == 1 {
      assert t == [p ^ 0x80];
      OneByte(st.s, st.pos, p ^ 0x80);
      XorByteTwice(st.s, st.pos, p, 0x80);
    } else {
      var z := Zeros(|t| - 2);
      assert t == ([p] + z) + [0x80];
      XorBytesConcat(st.s, st.pos, [p] + z, [0x80]);
      XorBytesConcat(st.s, st.pos, [p], z);
      OneByte(st.s, st.pos, p);
      XorZeros(XorByte(st.s, st.pos, p), st.pos + 1, |z|);
      OneByte(XorByte(st.s, st.pos, p), r - 1, 0x80);
    }
  }

  /** The position only counts bytes. */
  lemma {:induction false} AbsorbPosition(f: Permutation, r: nat, st: Inc, m: Bytes)
    requires KeepsSize(f) && Rate(r) && Ready(r, st)
    ensures Absorb(f, r, st, m).pos == (st.pos + |m|) % r
  {
    hide XorByte;
    if |m| == 0 {
      DivUnique(st.pos, r, 0, st.pos);
    } else {
      AbsorbPosition(f, r, st, m[..|m| - 1]);
      ModStep(st.pos + |m| - 1, r);
    }
  }
}
