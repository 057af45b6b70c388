/** SHA-2 over an arbitrary word: the message schedule, the rounds and the padding of FIPS 180-4 (sections 5.1, 6.2.2 and
    6.4.2), and the compression loop of sha2.c with its sixteen-word rolling schedule. */
module Sha2 {
  import opened Arith
  import opened Primitives

  /** What the 32-bit and the 64-bit functions differ in. */
  datatype Alg<!W> = Alg(
    wordLen: nat,                          // bytes of a word
    load: Bytes -> W,
    store: W -> Bytes,
    add: (W, W) -> W,
    expand: (W, W, W, W) -> W,             // W(t-16), W(t-2), W(t-7), W(t-15)
    step: (Vars<W>, W, W) -> Vars<W>,      // working variables, schedule word, constant
    k: seq<W>)

  datatype Vars<W> = Vars(a: W, b: W, c: W, d: W, e: W, f: W, g: W, h: W)

  predicate Sized<W>(A: Alg<W>) { (A.wordLen == 4 && |A.k| == 64) || (A.wordLen == 8 && |A.k| == 80) }

  /** Loading and storing words undo each other. */
  ghost predicate Codec<W(!new)>(A: Alg<W>) {
    && (forall w :: |A.store(w)| == A.wordLen && A.load(A.store(w)) == w)
    && (forall b :: |b| == A.wordLen ==> A.store(A.load(b)) == b)
  }

  ghost predicate LawfulAlg<W(!new)>(A: Alg<W>) { Sized(A) && Codec(A) }

  function BlockLen<W>(A: Alg<W>): nat { 16 * A.wordLen }

  // ------------------------------------------------------------------ compression

  /** The message schedule. */
  function Schedule<W>(A: Alg<W>, block: Bytes, t: nat): W
    requires Sized(A) && |block| == BlockLen(A)
  {
    if t < 16 then A.load(block[t * A.wordLen..t * A.wordLen + A.wordLen])
    else A.expand(Schedule(A, block, t - 16), Schedule(A, block, t - 2), Schedule(A, block, t - 7), Schedule(A, block, t - 15))
  }

  /** The working variables after t rounds. */
  function Rounds<W>(A: Alg<W>, v: Vars<W>, block: Bytes, t: nat): Vars<W>
    requires Sized(A) && |block| == BlockLen(A) && t <= |A.k|
  {
    if t == 0 then v else A.step(Rounds(A, v, block, t - 1), Schedule(A, block, t - 1), A.k[t - 1])
  }

  function AddVars<W>(A: Alg<W>, x: Vars<W>, y: Vars<W>): Vars<W> {
    Vars(A.add(x.a, y.a), A.add(x.b, y.b), A.add(x.c, y.c), A.add(x.d, y.d),
         A.add(x.e, y.e), A.add(x.f, y.f), A.add(x.g, y.g), A.add(x.h, y.h))
  }

  function Compress<W>(A: Alg<W>, v: Vars<W>, block: Bytes): Vars<W>
    requires Sized(A) && |block| == BlockLen(A)
  {
    AddVars(A, Rounds(A, v, block, |A.k|), v)
  }

  /** Compression folded over the whole blocks of m. */
  function Fold<W>(A: Alg<W>, v: Vars<W>, m: Bytes): Vars<W>
    requires Sized(A)
    decreases |m|
  {
    if |m| < BlockLen(A) then v else Fold(A, Compress(A, v, m[..BlockLen(A)]), m[BlockLen(A)..])
  }

  lemma {:induction false} FoldConcat<W>(A: Alg<W>, v: Vars<W>, x: Bytes, y: Bytes)
    requires Sized(A) && |x| % BlockLen(A) == 0
    ensures Fold(A, v, x + y) == Fold(A, Fold(A, v, x), y)
    decreases |x|
  {
    hide Compress;
    var n := BlockLen(A);
    if |x| < n {
      assert x + y == y;
    } else {
      assert (x + y)[..n] == x[..n] && (x + y)[n..] == x[n..] + y;
      assert |x[n..]| % n == 0;
      FoldConcat(A, Compress(A, v, x[..n]), x[n..], y);
    }
  }

  // ------------------------------------------------------------------ the rolling schedule

  /** Sixteen consecutive words of the schedule. */
  function Window<W>(A: Alg<W>, block: Bytes, t: nat): (w: seq<W>)
    requires Sized(A) && |block| == BlockLen(A)
    ensures |w| == 16
  {
    seq(16, i requires 0 <= i < 16 => Schedule(A, block, t + i))
  }

  lemma NextWord<W>(A: Alg<W>, block: Bytes, t: nat)
    requires Sized(A) && |block| == BlockLen(A)
    ensures Schedule(A, block, t + 16)
         == A.expand(Schedule(A, block, t), Schedule(A, block, t + 14), Schedule(A, block, t + 9), Schedule(A, block, t + 1))
  {
  }

  /** EXPAND: the sixteen words replaced in place, each from words already replaced and words still to be. */
  method Expand<W>(A: Alg<W>, w: seq<W>, ghost block: Bytes, ghost t: nat) returns (out: seq<W>)
    requires Sized(A) && |block| == BlockLen(A) && w == Window(A, block, t)
    ensures out == Window(A, block, t + 16)
  {
    hide Schedule;
    var w0, w1, w2, w3, w4, w5, w6, w7 := w[0], w[1], w[2], w[3], w[4], w[5], w[6], w[7];
    var w8, w9, w10, w11, w12, w13, w14, w15 := w[8], w[9], w[10], w[11], w[12], w[13], w[14], w[15];
    NextWord(A, block, t + 0);
    w0 := A.expand(w0, w14, w9, w1);
    NextWord(A, block, t + 1);
    w1 := A.expand(w1, w15, w10, w2);
    NextWord(A, block, t + 2);
    w2 := A.expand(w2, w0, w11, w3);
    NextWord(A, block, t + 3);
    w3 := A.expand(w3, w1, w12, w4);
    NextWord(A, block, t + 4);
    w4 := A.expand(w4, w2, w13, w5);
    NextWord(A, block, t + 5);
    w5 := A.expand(w5, w3, w14, w6);
    NextWord(A, block, t + 6);
    w6 := A.expand(w6, w4, w15, w7);
    NextWord(A, block, t + 7);
    w7 := A.expand(w7, w5, w0, w8);
    assert w0 == Schedule(A, block, t + 16) && w1 == Schedule(A, block, t + 17) && w2 == Schedule(A, block, t + 18);
    assert w3 == Schedule(A, block, t + 19) && w4 == Schedule(A, block, t + 20) && w5 == Schedule(A, block, t + 21);
    assert w6 == Schedule(A, block, t + 22) && w7 == Schedule(A, block, t + 23);
    NextWord(A, block, t + 8);
    w8 := A.expand(w8, w6, w1, w9);
    NextWord(A, block, t + 9);
    w9 := A.expand(w9, w7, w2, w10);
    NextWord(A, block, t + 10);
    w10 := A.expand(w10, w8, w3, w11);
    NextWord(A, block, t + 11);
    w11 := A.expand(w11, w9, w4, w12);
    NextWord(A, block, t + 12);
    w12 := A.expand(w12, w10, w5, w13);
    NextWord(A, block, t + 13);
    w13 := A.expand(w13, w11, w6, w14);
    NextWord(A, block, t + 14);
    w14 := A.expand(w14, w12, w7, w15);
    NextWord(A, block, t + 15);
    w15 := A.expand(w15, w13, w8, w0);
    out := [w0, w1, w2, w3, w4, w5, w6, w7, w8, w9, w10, w11, w12, w13, w14, w15];
  }

  // ------------------------------------------------------------------ the rounds

  /** Sixteen rounds with the words of one window. */
  method SixteenRounds<W>(A: Alg<W>, v: Vars<W>, w: seq<W>, t: nat, ghost start: Vars<W>, ghost block: Bytes) returns (out: Vars<W>)
    requires Sized(A) && |block| == BlockLen(A) && t + 16 <= |A.k|
    requires w == Window(A, block, t) && v == Rounds(A, start, block, t)
    ensures out == Rounds(A, start, block, t + 16)
  {
    hide Schedule;
    out := v;
    for i := 0 to 16
      invariant out == Rounds(A, start, block, t + i)
    {
      out := A.step(out, w[i], A.k[t + i]);
    }
  }

  /** One block: load sixteen words, then sixteen rounds at a time with EXPAND between. */
  method HashBlock<W>(A: Alg<W>, v: Vars<W>, block: Bytes) returns (out: Vars<W>)
    requires Sized(A) && |block| == BlockLen(A)
    ensures out == Compress(A, v, block)
  {
    hide Schedule, Rounds;
    var w := LoadBlock(A, block);
    assert v == Rounds(A, v, block, 0) by { NoRounds(A, v, block); }
    var x := SixteenRounds(A, v, w, 0, v, block);
    var t := 16;
    while t < |A.k|
      invariant 16 <= t <= |A.k| && t % 16 == 0 && w == Window(A, block, t - 16) && x == Rounds(A, v, block, t)
    {
      w := Expand(A, w, block, t - 16);
      x := SixteenRounds(A, x, w, t, v, block);
      t := t + 16;
    }
    out := AddVars(A, x, v);
  }

  lemma NoRounds<W>(A: Alg<W>, v: Vars<W>, block: Bytes)
    requires Sized(A) && |block| == BlockLen(A)
    ensures Rounds(A, v, block, 0) == v
  {
  }

  method LoadBlock<W>(A: Alg<W>, block: Bytes) returns (w: seq<W>)
    requires Sized(A) && |block| == BlockLen(A)
    ensures w == Window(A, block, 0)
  {
    w := [];
    for i := 0 to 16
      invariant |w| == i && forall k | 0 <= k < i :: w[k] == Schedule(A, block, k)
    {
      w := w + [A.load(block[i * A.wordLen..i * A.wordLen + A.wordLen])];
    }
  }

  // ------------------------------------------------------------------ states as bytes

  function StoreVars<W>(A: Alg<W>, v: Vars<W>): Bytes {
    A.store(v.a) + A.store(v.b) + A.store(v.c) + A.store(v.d) + A.store(v.e) + A.store(v.f) + A.store(v.g) + A.store(v.h)
  }

  function WordAt<W>(A: Alg<W>, b: Bytes, i: nat): W
    requires (i + 1) * A.wordLen <= |b|
  {
    A.load(b[i * A.wordLen..(i + 1) * A.wordLen])
  }

  function LoadVars<W>(A: Alg<W>, b: Bytes): Vars<W>
    requires Sized(A) && |b| == 8 * A.wordLen
  {
    Vars(WordAt(A, b, 0), WordAt(A, b, 1), WordAt(A, b, 2), WordAt(A, b, 3),
         WordAt(A, b, 4), WordAt(A, b, 5), WordAt(A, b, 6), WordAt(A, b, 7))
  }

  lemma FourSlices(a: Bytes, b: Bytes, c: Bytes, d: Bytes, n: nat)
    requires |a| == n && |b| == n && |c| == n && |d| == n
    ensures var s := a + b + c + d; |s| == 4 * n && s[..n] == a && s[n..2 * n] == b && s[2 * n..3 * n] == c && s[3 * n..] == d
  {
  }

  lemma EightSlices(p: Bytes, q: Bytes, n: nat)
    requires |p| == 4 * n && |q| == 4 * n
    ensures var s := p + q;
            s[0 * n..1 * n] == p[..n] && s[1 * n..2 * n] == p[n..2 * n] && s[2 * n..3 * n] == p[2 * n..3 * n]
            && s[3 * n..4 * n] == p[3 * n..] && s[4 * n..5 * n] == q[..n] && s[5 * n..6 * n] == q[n..2 * n]
            && s[6 * n..7 * n] == q[2 * n..3 * n] && s[7 * n..8 * n] == q[3 * n..]
  {
    AfterPrefix(p, q, 0, n);
    AfterPrefix(p, q, n, 2 * n);
    AfterPrefix(p, q, 2 * n, 3 * n);
    AfterPrefix(p, q, 3 * n, 4 * n);
  }

  lemma LoadUndoesStore<W(!new)>(A: Alg<W>, v: Vars<W>)
    requires LawfulAlg(A)
    ensures |StoreVars(A, v)| == 8 * A.wordLen && LoadVars(A, StoreVars(A, v)) == v
  {
    var n := A.wordLen;
    FourSlices(A.store(v.a), A.store(v.b), A.store(v.c), A.store(v.d), n);
    FourSlices(A.store(v.e), A.store(v.f), A.store(v.g), A.store(v.h), n);
    var p := A.store(v.a) + A.store(v.b) + A.store(v.c) + A.store(v.d);
    var q := A.store(v.e) + A.store(v.f) + A.store(v.g) + A.store(v.h);
    assert StoreVars(A, v) == p + q;
    EightSlices(p, q, n);
  }

  lemma FoldStep<W>(A: Alg<W>, v: Vars<W>, m: Bytes, i: nat)
    requires Sized(A) && i + BlockLen(A) <= |m|
    ensures Fold(A, v, m[i..]) == Fold(A, Compress(A, v, m[i..i + BlockLen(A)]), m[i + BlockLen(A)..])
  {
    hide Compress;
    var n := BlockLen(A);
    assert m[i..][..n] == m[i..i + n] && m[i..][n..] == m[i + n..];
  }

  lemma FoldShort<W>(A: Alg<W>, v: Vars<W>, m: Bytes)
    requires Sized(A) && |m| < BlockLen(A)
    ensures Fold(A, v, m) == v
  {
  }

  lemma SplitEight(b: Bytes, n: nat)
    requires |b| == 8 * n
    ensures b[0 * n..1 * n] + b[1 * n..2 * n] + b[2 * n..3 * n] + b[3 * n..4 * n]
            + b[4 * n..5 * n] + b[5 * n..6 * n] + b[6 * n..7 * n] + b[7 * n..8 * n] == b
  {
    SliceSplits(b, 0, n, 2 * n);
    SliceSplits(b, 0, 2 * n, 3 * n);
    SliceSplits(b, 0, 3 * n, 4 * n);
    SliceSplits(b, 0, 4 * n, 5 * n);
    SliceSplits(b, 0, 5 * n, 6 * n);
    SliceSplits(b, 0, 6 * n, 7 * n);
    SliceSplits(b, 0, 7 * n, 8 * n);
    assert b[0..8 * n] == b;
  }

  lemma StoreUndoesLoad<W(!new)>(A: Alg<W>, b: Bytes)
    requires LawfulAlg(A) && |b| == 8 * A.wordLen
    ensures StoreVars(A, LoadVars(A, b)) == b
  {
    hide Codec;
    SplitEight(b, A.wordLen);
    WordBack(A, b, 0);
    WordBack(A, b, 1);
    WordBack(A, b, 2);
    WordBack(A, b, 3);
    WordBack(A, b, 4);
    WordBack(A, b, 5);
    WordBack(A, b, 6);
    WordBack(A, b, 7);
    hide WordAt;
  }

  lemma WordBack<W(!new)>(A: Alg<W>, b: Bytes, i: nat)
    requires LawfulAlg(A) && (i + 1) * A.wordLen <= |b|
    ensures A.store(WordAt(A, b, i)) == b[i * A.wordLen..(i + 1) * A.wordLen]
  {
  }

  /** crypto_hashblocks: all whole blocks of the input; returns the number of bytes left over. */
  method HashBlocks<W(!new)>(A: Alg<W>, st: Bytes, inp: Bytes) returns (out: Bytes, rest: nat)
    requires LawfulAlg(A) && |st| == 8 * A.wordLen
    ensures out == StoreVars(A, Fold(A, LoadVars(A, st), inp)) && rest == |inp| % BlockLen(A)
  {
    hide LoadVars, StoreVars, Compress, Fold, Codec;
    var n := BlockLen(A);
    var v := LoadVars(A, st);
    rest := |inp|;
    while rest >= n
      invariant 0 <= rest <= |inp| && rest % n == |inp| % n
      invariant Fold(A, LoadVars(A, st), inp) == Fold(A, v, inp[|inp| - rest..])
    {
      var block := inp[|inp| - rest..|inp| - rest + n];
      FoldStep(A, v, inp, |inp| - rest);
      ModDrop(rest, n);
      v := HashBlock(A, v, block);
      rest := rest - n;
    }
    FoldShort(A, v, inp[|inp| - rest..]);
    DivUnique(rest, n, 0, rest);
    out := StoreVars(A, v);
  }

  // ------------------------------------------------------------------ padding

  /** 0x80, zeros to the end of a block, and the length in bits, big-endian in two words. */
  function PadZeros<W>(A: Alg<W>, n: nat): nat
    requires Sized(A)
  {
    (BlockLen(A) - (n + 1 + 2 * A.wordLen) % BlockLen(A)) % BlockLen(A)
  }

  function Padding<W>(A: Alg<W>, n: nat): Bytes
    requires Sized(A)
  {
    [0x80] + Zeros(PadZeros(A, n)) + Digits(8 * n, 2 * A.wordLen)
  }

  lemma PaddedLength<W>(A: Alg<W>, n: nat)
    requires Sized(A)
    ensures (n + |Padding(A, n)|) % BlockLen(A) == 0
  {
    hide Digits;
    FillUp(n + 1 + 2 * A.wordLen, BlockLen(A));
  }

  /** The hash of a whole message, before it is cut to the digest's length. */
  function Hash<W>(A: Alg<W>, iv: Bytes, m: Bytes): Bytes
    requires Sized(A) && |iv| == 8 * A.wordLen
  {
    StoreVars(A, Fold(A, LoadVars(A, iv), m + Padding(A, |m|)))
  }
}
