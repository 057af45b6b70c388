/** SHA-2 as FIPS 180-4 states it (sections 4.1, 5.1 and 6.2), on numbers: every round, schedule word, padded message and digest
    of the algorithms of Sha2 in terms of sums modulo 2^n and of single bits.  Sha2Instances shows that the 32-bit and the
    64-bit functions of the code are such algorithms. */
module Sha2Standard {
  import opened Arith
  import opened Primitives
  import opened WordBits
  import opened Sha2

  datatype Turns = Turns(i: nat, j: nat, k: nat)

  /** Word width, and the amounts of the two sums and of the two schedule functions. */
  datatype Params = Params(bits: nat, sum0: Turns, sum1: Turns, part0: Turns, part1: Turns)

  type Numbers = Vars<nat>

  // ------------------------------------------------------------------ the functions of section 4.1, bit by bit

  /** Exclusive or of three rotations: bit p comes from bits p + i, p + j and p + k modulo n. */
  ghost predicate IsTurned(n: nat, t: Turns, x: nat, s: nat) {
    forall p: nat | p < n :: BitOf(s, p) <==> (BitOf(x, (p + t.i) % n) != BitOf(x, (p + t.j) % n)) != BitOf(x, (p + t.k) % n)
  }

  /** The third one is a shift: beyond the top there is nothing. */
  ghost predicate IsShifted(n: nat, t: Turns, x: nat, s: nat) {
    forall p: nat | p < n ::
      BitOf(s, p) <==> (BitOf(x, (p + t.i) % n) != BitOf(x, (p + t.j) % n)) != (p + t.k < n && BitOf(x, p + t.k))
  }

  /** The bit of y where x has a one and of z where it has a zero. */
  ghost predicate IsChoice(n: nat, x: nat, y: nat, z: nat, s: nat) {
    forall p: nat | p < n :: BitOf(s, p) <==> if BitOf(x, p) then BitOf(y, p) else BitOf(z, p)
  }

  function One(b: bool): nat { if b then 1 else 0 }

  /** At least two of three. */
  ghost predicate IsMajority(n: nat, x: nat, y: nat, z: nat, s: nat) {
    forall p: nat | p < n :: BitOf(s, p) <==> One(BitOf(x, p)) + One(BitOf(y, p)) + One(BitOf(z, p)) >= 2
  }

  /** The four values a round computes from the working variables. */
  datatype Parts = Parts(s1: nat, ch: nat, s0: nat, maj: nat)

  ghost predicate AreParts(P: Params, v: Numbers, r: Parts) {
    && IsTurned(P.bits, P.sum1, v.e, r.s1) && IsChoice(P.bits, v.e, v.f, v.g, r.ch)
    && IsTurned(P.bits, P.sum0, v.a, r.s0) && IsMajority(P.bits, v.a, v.b, v.c, r.maj)
  }

  predicate AddUp(n: nat, v: Numbers, w: nat, k: nat, r: Parts, t: Numbers) {
    && t.e == (v.d + v.h + r.s1 + r.ch + k + w) % Pow2(n)
    && t.a == (v.h + r.s1 + r.ch + k + w + r.s0 + r.maj) % Pow2(n)
    && t.b == v.a && t.c == v.b && t.d == v.c && t.f == v.e && t.g == v.f && t.h == v.g
  }

  /** One round. */
  ghost predicate IsRound(P: Params, v: Numbers, w: nat, k: nat, t: Numbers) {
    exists r :: AreParts(P, v, r) && AddUp(P.bits, v, w, k, r, t)
  }

  /** One word of the schedule from the words 16, 2, 7 and 15 places back. */
  ghost predicate IsWord(P: Params, w16: nat, w2: nat, w7: nat, w15: nat, w: nat) {
    exists x: nat, y: nat ::
      IsShifted(P.bits, P.part1, w2, x) && IsShifted(P.bits, P.part0, w15, y) && w == (x + w7 + y + w16) % Pow2(P.bits)
  }

  // ------------------------------------------------------------------ what an algorithm of Sha2 has to be

  function ToNumbers<W>(val: W -> nat, v: Vars<W>): Numbers {
    Vars(val(v.a), val(v.b), val(v.c), val(v.d), val(v.e), val(v.f), val(v.g), val(v.h))
  }

  ghost predicate RoundsFollow<W(!new)>(A: Alg<W>, P: Params, val: W -> nat) {
    forall v, w, k :: IsRound(P, ToNumbers(val, v), val(w), val(k), ToNumbers(val, A.step(v, w, k)))
  }

  ghost predicate WordsFollow<W(!new)>(A: Alg<W>, P: Params, val: W -> nat) {
    forall a, b, c, d :: IsWord(P, val(a), val(b), val(c), val(d), val(A.expand(a, b, c, d)))
  }

  ghost predicate SumsFollow<W(!new)>(A: Alg<W>, P: Params, val: W -> nat) {
    forall x, y :: val(A.add(x, y)) == (val(x) + val(y)) % Pow2(P.bits)
  }

  ghost predicate BytesFollow<W(!new)>(A: Alg<W>, val: W -> nat) {
    && (forall b :: |b| == A.wordLen ==> val(A.load(b)) == FromDigits(b))
    && (forall w :: |A.store(w)| == A.wordLen && FromDigits(A.store(w)) == val(w))
  }

  /** Every operation of A is that of the standard on the values of its words, and words are big-endian. */
  ghost predicate Follows<W(!new)>(A: Alg<W>, P: Params, val: W -> nat) {
    P.bits == 8 * A.wordLen && RoundsFollow(A, P, val) && WordsFollow(A, P, val) && SumsFollow(A, P, val) && BytesFollow(A, val)
  }

  // ------------------------------------------------------------------ one block

  /** Word t of a block, big-endian. */
  function BlockWord(block: Bytes, len: nat, t: nat): nat
    requires |block| == 16 * len && t < 16
  {
    Within(t, len);
    FromDigits(block[t * len..t * len + len])
  }

  lemma Within(t: nat, len: nat)
    requires t < 16
    ensures 0 <= t * len && t * len + len <= 16 * len
  {
  }

  ghost predicate IsSchedule(P: Params, block: Bytes, len: nat, w: seq<nat>) {
    && |block| == 16 * len
    && (forall t | 0 <= t < |w| && t < 16 :: w[t] == BlockWord(block, len, t))
    && forall t | 16 <= t < |w| :: IsWord(P, w[t - 16], w[t - 2], w[t - 7], w[t - 15], w[t])
  }

  ghost predicate AreRounds(P: Params, w: seq<nat>, ks: seq<nat>, s: seq<Numbers>) {
    |w| == |ks| && |s| == |ks| + 1 && forall t | 0 <= t < |ks| :: IsRound(P, s[t], w[t], ks[t], s[t + 1])
  }

  predicate IsSumOf(n: nat, x: nat, y: nat, z: nat) { z == (x + y) % Pow2(n) }

  predicate IsSum(n: nat, x: Numbers, y: Numbers, z: Numbers) {
    && IsSumOf(n, x.a, y.a, z.a) && IsSumOf(n, x.b, y.b, z.b) && IsSumOf(n, x.c, y.c, z.c) && IsSumOf(n, x.d, y.d, z.d)
    && IsSumOf(n, x.e, y.e, z.e) && IsSumOf(n, x.f, y.f, z.f) && IsSumOf(n, x.g, y.g, z.g) && IsSumOf(n, x.h, y.h, z.h)
  }

  /** The hash value before and after one block. */
  ghost predicate IsCompression(P: Params, ks: seq<nat>, len: nat, h: Numbers, block: Bytes, h': Numbers) {
    exists w, s ::
      IsSchedule(P, block, len, w) && AreRounds(P, w, ks, s) && s[0] == h && IsSum(P.bits, s[|ks|], h, h')
  }

  function Constants<W>(A: Alg<W>, val: W -> nat): (ks: seq<nat>)
    ensures |ks| == |A.k|
  {
    seq(|A.k|, t requires 0 <= t < |A.k| => val(A.k[t]))
  }

  lemma ScheduleStep<W(!new)>(A: Alg<W>, P: Params, val: W -> nat, block: Bytes, t: nat)
    requires Sized(A) && Follows(A, P, val) && |block| == BlockLen(A)
    ensures t < 16 ==> val(Schedule(A, block, t)) == BlockWord(block, A.wordLen, t)
    ensures t >= 16 ==> IsWord(P, val(Schedule(A, block, t - 16)), val(Schedule(A, block, t - 2)),
                               val(Schedule(A, block, t - 7)), val(Schedule(A, block, t - 15)), val(Schedule(A, block, t)))
  {
    hide IsWord, IsRound, FromDigits;
    if t < 16 {
      Within(t, A.wordLen);
    }
  }

  function Number<W>(A: Alg<W>, val: W -> nat, block: Bytes, t: nat): nat
    requires Sized(A) && |block| == BlockLen(A)
  {
    val(Schedule(A, block, t))
  }

  function Words<W>(A: Alg<W>, val: W -> nat, block: Bytes): (ws: seq<nat>)
    requires Sized(A) && |block| == BlockLen(A)
    ensures |ws| == |A.k|
  {
    seq(|A.k|, t requires 0 <= t < |A.k| => Number(A, val, block, t))
  }

  function States<W>(A: Alg<W>, val: W -> nat, v: Vars<W>, block: Bytes): (s: seq<Numbers>)
    requires Sized(A) && |block| == BlockLen(A)
    ensures |s| == |A.k| + 1
  {
    seq(|A.k| + 1, t requires 0 <= t < |A.k| + 1 => ToNumbers(val, Rounds(A, v, block, t)))
  }

  lemma WordsAreStandard<W(!new)>(A: Alg<W>, P: Params, val: W -> nat, block: Bytes)
    requires Sized(A) && Follows(A, P, val) && |block| == BlockLen(A)
    ensures IsSchedule(P, block, A.wordLen, Words(A, val, block))
  {
    hide Follows, IsWord, Schedule, BlockWord;
    var w := Words(A, val, block);
    forall t | 0 <= t < |w| && t < 16 ensures w[t] == BlockWord(block, A.wordLen, t) {
      ScheduleStep(A, P, val, block, t);
    }
    forall t | 16 <= t < |w| ensures IsWord(P, w[t - 16], w[t - 2], w[t - 7], w[t - 15], w[t]) {
      ScheduleStep(A, P, val, block, t);
    }
  }

  lemma RoundsAreStandard<W(!new)>(A: Alg<W>, P: Params, val: W -> nat, v: Vars<W>, block: Bytes)
    requires Sized(A) && Follows(A, P, val) && |block| == BlockLen(A)
    ensures AreRounds(P, Words(A, val, block), Constants(A, val), States(A, val, v, block))
  {
    hide Follows, IsRound, Schedule, ToNumbers, Rounds;
    var w, s := Words(A, val, block), States(A, val, v, block);
    forall t | 0 <= t < |A.k| ensures IsRound(P, s[t], w[t], Constants(A, val)[t], s[t + 1]) {
      RoundStep(A, P, val, v, block, t);
    }
  }

  lemma CompressIsStandard<W(!new)>(A: Alg<W>, P: Params, val: W -> nat, v: Vars<W>, block: Bytes)
    requires Sized(A) && Follows(A, P, val) && |block| == BlockLen(A)
    ensures IsCompression(P, Constants(A, val), A.wordLen, ToNumbers(val, v), block, ToNumbers(val, Compress(A, v, block)))
  {
    WordsAreStandard(A, P, val, block);
    RoundsAreStandard(A, P, val, v, block);
    SumStep(A, P, val, Rounds(A, v, block, |A.k|), v);
    NoRounds(A, v, block);
    EndStates(A, val, v, block);
    hide Follows, IsSchedule, AreRounds, IsSum, ToNumbers, AddVars, Schedule, Rounds, Words, States, Constants;
  }

  lemma EndStates<W(!new)>(A: Alg<W>, val: W -> nat, v: Vars<W>, block: Bytes)
    requires Sized(A) && |block| == BlockLen(A)
    ensures States(A, val, v, block)[0] == ToNumbers(val, Rounds(A, v, block, 0))
    ensures States(A, val, v, block)[|A.k|] == ToNumbers(val, Rounds(A, v, block, |A.k|))
  {
  }

  lemma RoundStep<W(!new)>(A: Alg<W>, P: Params, val: W -> nat, v: Vars<W>, block: Bytes, t: nat)
    requires Sized(A) && Follows(A, P, val) && |block| == BlockLen(A) && t < |A.k|
    ensures IsRound(P, ToNumbers(val, Rounds(A, v, block, t)), val(Schedule(A, block, t)), val(A.k[t]),
                    ToNumbers(val, Rounds(A, v, block, t + 1)))
  {
    hide IsWord, IsRound, Schedule, ToNumbers;
  }

  lemma AddStep<W(!new)>(A: Alg<W>, P: Params, val: W -> nat, x: W, y: W)
    requires Follows(A, P, val)
    ensures IsSumOf(P.bits, val(x), val(y), val(A.add(x, y)))
  {
    hide IsWord, IsRound, Pow2;
  }

  lemma SumStep<W(!new)>(A: Alg<W>, P: Params, val: W -> nat, x: Vars<W>, y: Vars<W>)
    requires Follows(A, P, val)
    ensures IsSum(P.bits, ToNumbers(val, x), ToNumbers(val, y), ToNumbers(val, AddVars(A, x, y)))
  {
    hide Follows, IsSumOf;
    AddStep(A, P, val, x.a, y.a);
    AddStep(A, P, val, x.b, y.b);
    AddStep(A, P, val, x.c, y.c);
    AddStep(A, P, val, x.d, y.d);
    AddStep(A, P, val, x.e, y.e);
    AddStep(A, P, val, x.f, y.f);
    AddStep(A, P, val, x.g, y.g);
    AddStep(A, P, val, x.h, y.h);
  }

  // ------------------------------------------------------------------ the whole message

  /** A one, zeros, fewer than a block of them, and the length in bits in two words: a whole number of blocks. */
  ghost predicate Padded(len: nat, m: Bytes, x: Bytes) {
    && len > 0 && |x| % (16 * len) == 0 && |m| + 1 + 2 * len <= |x| < |m| + 1 + 2 * len + 16 * len
    && x[..|m|] == m && x[|m|] == 0x80 && (forall i | |m| < i < |x| - 2 * len :: x[i] == 0)
    && (8 * |m| < Pow256(2 * len) ==> FromDigits(x[|x| - 2 * len..]) == 8 * |m|)
  }

  lemma PaddedIsStandard<W(!new)>(A: Alg<W>, m: Bytes)
    requires Sized(A)
    ensures Padded(A.wordLen, m, m + Padding(A, |m|))
  {
    hide Digits, FromDigits, Pow256;
    var x := m + Padding(A, |m|);
    PaddedLength(A, |m|);
    PadZerosFewer(A, |m|);
    var d := Digits(8 * |m|, 2 * A.wordLen);
    assert x[|x| - 2 * A.wordLen..] == d;
    if 8 * |m| < Pow256(2 * A.wordLen) {
      DigitsRoundTrip(8 * |m|, 2 * A.wordLen);
    }
  }

  lemma PadZerosFewer<W(!new)>(A: Alg<W>, n: nat)
    requires Sized(A)
    ensures 0 <= PadZeros(A, n) < BlockLen(A)
  {
  }

  /** The hash value before the first block and after each. */
  ghost predicate IsHashing(P: Params, ks: seq<nat>, len: nat, blocks: seq<Bytes>, hs: seq<Numbers>) {
    |hs| == |blocks| + 1 && forall i | 0 <= i < |blocks| :: IsCompression(P, ks, len, hs[i], blocks[i], hs[i + 1])
  }

  /** Blocks of one size, put together from the front. */
  function Joined(blocks: seq<Bytes>): Bytes { if |blocks| == 0 then [] else blocks[0] + Joined(blocks[1..]) }

  lemma {:induction false} FoldIsStandard<W(!new)>(A: Alg<W>, P: Params, val: W -> nat, v: Vars<W>, x: Bytes)
    returns (blocks: seq<Bytes>, hs: seq<Numbers>)
    requires Sized(A) && Follows(A, P, val) && |x| % BlockLen(A) == 0
    ensures Joined(blocks) == x && (forall b | b in blocks :: |b| == BlockLen(A))
    ensures IsHashing(P, Constants(A, val), A.wordLen, blocks, hs)
    ensures hs[0] == ToNumbers(val, v) && hs[|blocks|] == ToNumbers(val, Fold(A, v, x))
    decreases |x|
  {
    hide IsCompression, Follows, ToNumbers, Compress, Constants;
    var n := BlockLen(A);
    if |x| < n {
      DivUnique(|x|, n, 0, |x|);
      blocks, hs := [], [ToNumbers(val, v)];
    } else {
      ModDrop(|x|, n);
      var b, w := x[..n], Compress(A, v, x[..n]);
      CompressIsStandard(A, P, val, v, b);
      blocks, hs := FoldIsStandard(A, P, val, w, x[n..]);
      Grows(P, Constants(A, val), A.wordLen, ToNumbers(val, v), b, blocks, hs);
      assert ([b] + blocks)[1..] == blocks && b + x[n..] == x;
      blocks, hs := [b] + blocks, [ToNumbers(val, v)] + hs;
    }
  }

  lemma Grows(P: Params, ks: seq<nat>, len: nat, h: Numbers, b: Bytes, blocks: seq<Bytes>, hs: seq<Numbers>)
    requires IsHashing(P, ks, len, blocks, hs) && IsCompression(P, ks, len, h, b, hs[0])
    ensures IsHashing(P, ks, len, [b] + blocks, [h] + hs)
  {
    hide IsCompression;
    var bs, ss := [b] + blocks, [h] + hs;
    forall i | 0 <= i < |bs| ensures IsCompression(P, ks, len, ss[i], bs[i], ss[i + 1]) {
      if i > 0 {
        assert IsCompression(P, ks, len, hs[i - 1], blocks[i - 1], hs[i]);
      }
    }
  }

  /** Word i of a byte string, big-endian. */
  predicate DigitsAt(b: Bytes, len: nat, i: nat, v: nat) {
    0 <= i * len <= (i + 1) * len <= |b| && FromDigits(b[i * len..(i + 1) * len]) == v
  }

  predicate AreDigits(b: Bytes, len: nat, h: Numbers) {
    && |b| == 8 * len
    && DigitsAt(b, len, 0, h.a) && DigitsAt(b, len, 1, h.b) && DigitsAt(b, len, 2, h.c) && DigitsAt(b, len, 3, h.d)
    && DigitsAt(b, len, 4, h.e) && DigitsAt(b, len, 5, h.f) && DigitsAt(b, len, 6, h.g) && DigitsAt(b, len, 7, h.h)
  }

  /** digest is the hash of m from the start value iv: some padded message is cut into blocks, and a chain of hash values
      leads over them from iv to the digest. */
  ghost predicate IsHash(P: Params, ks: seq<nat>, len: nat, iv: Bytes, m: Bytes, digest: Bytes) {
    exists x, blocks, hs ::
      && Padded(len, m, x) && Joined(blocks) == x && (forall b | b in blocks :: |b| == 16 * len)
      && IsHashing(P, ks, len, blocks, hs) && AreDigits(iv, len, hs[0]) && AreDigits(digest, len, hs[|blocks|])
  }

  lemma LoadedWord<W(!new)>(A: Alg<W>, P: Params, val: W -> nat, b: Bytes, i: nat)
    requires Follows(A, P, val) && (i + 1) * A.wordLen <= |b|
    ensures DigitsAt(b, A.wordLen, i, val(WordAt(A, b, i)))
  {
    hide IsWord, IsRound, FromDigits, Pow2;
    OneMore(i, A.wordLen);
  }

  lemma OneMore(i: nat, len: nat)
    ensures 0 <= i * len && (i + 1) * len == i * len + len
  {
  }

  lemma LoadedDigits<W(!new)>(A: Alg<W>, P: Params, val: W -> nat, b: Bytes)
    requires Sized(A) && Follows(A, P, val) && |b| == 8 * A.wordLen
    ensures AreDigits(b, A.wordLen, ToNumbers(val, LoadVars(A, b)))
  {
    hide Follows, DigitsAt, WordAt;
    LoadedWord(A, P, val, b, 0);
    LoadedWord(A, P, val, b, 1);
    LoadedWord(A, P, val, b, 2);
    LoadedWord(A, P, val, b, 3);
    LoadedWord(A, P, val, b, 4);
    LoadedWord(A, P, val, b, 5);
    LoadedWord(A, P, val, b, 6);
    LoadedWord(A, P, val, b, 7);
  }

  lemma StoredDigits<W(!new)>(A: Alg<W>, P: Params, val: W -> nat, v: Vars<W>)
    requires LawfulAlg(A) && Follows(A, P, val)
    ensures AreDigits(StoreVars(A, v), A.wordLen, ToNumbers(val, v))
  {
    LoadUndoesStore(A, v);
    LoadedDigits(A, P, val, StoreVars(A, v));
  }

  lemma HashIsStandard<W(!new)>(A: Alg<W>, P: Params, val: W -> nat, iv: Bytes, m: Bytes)
    requires LawfulAlg(A) && Follows(A, P, val) && |iv| == 8 * A.wordLen
    ensures IsHash(P, Constants(A, val), A.wordLen, iv, m, Hash(A, iv, m))
  {
    hide Follows, Codec, Padded, IsHashing, AreDigits, Padding, LoadVars, StoreVars, ToNumbers, Fold, Constants;
    var x := m + Padding(A, |m|);
    PaddedIsStandard(A, m);
    PaddedLength(A, |m|);
    var blocks, hs := FoldIsStandard(A, P, val, LoadVars(A, iv), x);
    LoadedDigits(A, P, val, iv);
    StoredDigits(A, P, val, Fold(A, LoadVars(A, iv), x));
  }
}
