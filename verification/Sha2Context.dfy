/** The incremental SHA-2 contexts of sha2.c: eight state words and a 64-bit byte count kept as bytes, whole blocks fed in any
    number of calls, and the padding built in a local buffer. */
module Sha2Context {
  import opened Arith
  import opened Primitives
  import opened Sha2


  // ------------------------------------------------------------------ the byte count

  /** Digits depend on the number modulo 256^n only. */
  lemma {:induction false} DigitsWrap(v: nat, q: nat, n: nat)
    ensures Digits(v + q * Pow256(n), n) == Digits(v, n)
  {
    hide Octet;
    if n > 0 {
      var p := Pow256(n - 1);
      assert q * Pow256(n) == 256 * (q * p);
      assert (v + 256 * (q * p)) / 256 == v / 256 + q * p;
      SameOctet(v, q * p);
      DigitsWrap(v / 256, q, n - 1);
    }
  }

  lemma SameOctet(v: nat, k: nat)
    ensures Octet(v + 256 * k) == Octet(v)
  {
    assert (v + 256 * k) % 256 == v % 256;
  }

  lemma DigitsMod(v: nat)
    ensures Digits(v % WORD, 8) == Digits(v, 8) && FromDigits(Digits(v, 8)) == v % WORD
  {
    hide Digits, FromDigits, Pow256;
    Pow256Of8();
    DigitsWrap(v % WORD, v / WORD, 8);
    DigitsRoundTrip(v % WORD, 8);
  }

  /** The eight bytes the code shifts out of the byte count are the low eight bytes of the bit count. */
  function LengthBytes(n: nat): (b: Bytes)
    ensures |b| == 8
  {
    [Octet(n / 0x20_0000_0000_0000), Octet(n / 0x2000_0000_0000), Octet(n / 0x20_0000_0000), Octet(n / 0x2000_0000),
     Octet(n / 0x20_0000), Octet(n / 0x2000), Octet(n / 0x20), Octet(8 * n)]
  }

  lemma EightFrom(d0: nat, d1: nat, d2: nat, d3: nat, d4: nat, d5: nat, d6: nat, d7: nat)
    requires d1 == d0 / 256 && d2 == d1 / 256 && d3 == d2 / 256 && d4 == d3 / 256
    requires d5 == d4 / 256 && d6 == d5 / 256 && d7 == d6 / 256
    ensures Digits(d0, 8) == [Octet(d7), Octet(d6), Octet(d5), Octet(d4), Octet(d3), Octet(d2), Octet(d1), Octet(d0)]
  {
    hide Octet;
    assert Digits(d7, 1) == [Octet(d7)];
    assert Digits(d6, 2) == Digits(d7, 1) + [Octet(d6)];
    assert Digits(d5, 3) == Digits(d6, 2) + [Octet(d5)];
    assert Digits(d4, 4) == Digits(d5, 3) + [Octet(d4)];
    assert Digits(d3, 5) == Digits(d4, 4) + [Octet(d3)];
    assert Digits(d2, 6) == Digits(d3, 5) + [Octet(d2)];
    assert Digits(d1, 7) == Digits(d2, 6) + [Octet(d1)];
  }

  lemma LengthBytesAreDigits(n: nat)
    ensures LengthBytes(n) == Digits(8 * n, 8)
  {
    hide Octet, Digits;
    DivAgain(n, 0x20);
    DivAgain(n, 0x2000);
    DivAgain(n, 0x20_0000);
    DivAgain(n, 0x2000_0000);
    DivAgain(n, 0x20_0000_0000);
    DivAgain(n, 0x2000_0000_0000);
    assert 8 * n / 256 == n / 0x20;
    EightFrom(8 * n, n / 0x20, n / 0x2000, n / 0x20_0000, n / 0x2000_0000, n / 0x20_0000_0000, n / 0x2000_0000_0000,
              n / 0x20_0000_0000_0000);
  }

  /** The digits of a number split into those of its high part and its low digits. */
  lemma {:induction false} DigitsSplit(v: nat, hi: nat, a: nat, b: nat)
    requires hi * Pow256(b) <= v < (hi + 1) * Pow256(b)
    ensures Digits(v, a + b) == Digits(hi, a) + Digits(v, b)
  {
    hide Octet;
    if b == 0 {
      assert Digits(hi, a) + Digits(v, 0) == Digits(hi, a);
    } else {
      var p := Pow256(b - 1);
      assert hi * Pow256(b) == 256 * (hi * p) && (hi + 1) * Pow256(b) == 256 * ((hi + 1) * p);
      DigitsSplit(v / 256, hi, a, b - 1);
    }
  }

  lemma {:induction false} OneDigit(v: nat, k: nat)
    requires v < 256
    ensures Digits(v, k + 1) == Zeros(k) + [Octet(v)]
  {
    hide Octet;
    if k == 0 {
      assert Digits(v, 1) == Zeros(0) + [Octet(v)];
    } else {
      OneDigit(0, k - 1);
      assert Octet(0) == 0 by { OctetOfZero(); }
      assert Zeros(k - 1) + [0] == Zeros(k);
    }
  }

  lemma OctetOfZero()
    ensures Octet(0) == 0
  {
  }

  /** The sixteen-byte bit count, for a byte count below 2^64: seven zero bytes, three bits, and the eight bytes. */
  lemma LongLength(n: nat)
    requires n < WORD
    ensures Digits(8 * n, 16) == Zeros(7) + [Octet(n / 0x2000_0000_0000_0000)] + LengthBytes(n)
  {
    hide Octet, Digits, LengthBytes;
    var hi := n / 0x2000_0000_0000_0000;
    assert hi < 256 && hi * WORD <= 8 * n < (hi + 1) * WORD;
    Pow256Of8();
    DigitsSplit(8 * n, hi, 8, 8);
    OneDigit(hi, 7);
    LengthBytesAreDigits(n);
  }

  // ------------------------------------------------------------------ padding

  /** Where the padded tail ends: after one block if the length still fits, else after two. */
  function PaddedEnd<W>(A: Alg<W>, t: nat): nat
    requires Sized(A) && t < BlockLen(A)
  {
    if t < BlockLen(A) - 2 * A.wordLen then BlockLen(A) else 2 * BlockLen(A)
  }

  /** The bytes the code writes after the tail, for a total of n bytes. */
  function WrittenPadding<W>(A: Alg<W>, t: nat, n: nat): (b: Bytes)
    requires Sized(A) && t < BlockLen(A)
    ensures |b| == PaddedEnd(A, t) - t
  {
    if A.wordLen == 4 then [0x80] + Zeros(PaddedEnd(A, t) - 9 - t) + LengthBytes(n)
    else [0x80] + Zeros(PaddedEnd(A, t) - 10 - t) + [Octet(n / 0x2000_0000_0000_0000)] + LengthBytes(n)
  }

  lemma PadZeros4(n: nat, t: nat)
    requires t == n % 64
    ensures (64 - (n + 1 + 2 * 4) % 64) % 64 == if t < 56 then 55 - t else 119 - t
  {
  }

  lemma PadZeros8(n: nat, t: nat)
    requires t == n % 128
    ensures (128 - (n + 1 + 2 * 8) % 128) % 128 == if t < 112 then 111 - t else 239 - t
  {
  }

  /** With 32-bit words the padding written is the padding of FIPS 180-4 for every length; with 64-bit words it is for every
      length below 2^64, as the count is kept in 64 bits. */
  lemma WrittenIsPadding<W>(A: Alg<W>, n: nat)
    requires Sized(A) && (A.wordLen == 8 ==> n < WORD)
    ensures n % BlockLen(A) < BlockLen(A) && WrittenPadding(A, n % BlockLen(A), n) == Padding(A, n)
  {
    hide Digits, LengthBytes, Octet;
    if A.wordLen == 4 {
      PadZeros4(n, n % 64);
      LengthBytesAreDigits(n);
    } else {
      PadZeros8(n, n % 128);
      LongLength(n);
      JoinZeros(111 - n % 128, 239 - n % 128, n % 128 < 112, [Octet(n / 0x2000_0000_0000_0000)], LengthBytes(n));
    }
  }

  lemma JoinZeros(a: int, b: int, first: bool, x: Bytes, y: Bytes)
    requires if first then a >= 0 else b >= 0
    ensures var z := if first then a else b;
            [0x80] + Zeros(z) + (Zeros(7) + x + y) == [0x80] + Zeros(z + 7) + x + y
  {
    var z := if first then a else b;
    assert Zeros(z) + Zeros(7) == Zeros(z + 7);
  }

  /** From 2^64 bytes on, the sixteen-byte field the code writes is not the length: the padding is right exactly below. */
  lemma LongCountIsLost<W>(A: Alg<W>, n: nat)
    requires Sized(A) && A.wordLen == 8 && n < 0x2000_0000_0000_0000_0000_0000_0000_0000
    ensures n % BlockLen(A) < BlockLen(A)
    ensures WrittenPadding(A, n % BlockLen(A), n % WORD) == Padding(A, n) <==> n < WORD
  {
    hide Digits, LengthBytes, Octet, WrittenPadding, Padding, FromDigits, Pow256;
    var k := n % WORD;
    if n < WORD {
      WrittenIsPadding(A, n);
    } else if WrittenPadding(A, n % 128, k) == Padding(A, n) {
      LastDigits(A, n);
      Pow256Of16();
      DigitsRoundTrip(8 * n, 16);
      DigitsRoundTrip(8 * k, 16);
      assert false;
    }
  }

  lemma Pow256Of16()
    ensures Pow256(16) == WORD * WORD
  {
    assert Pow256(16) == 0x1_0000_0000_0000_0000 * Pow256(8);
  }

  lemma LastDigits<W>(A: Alg<W>, n: nat)
    requires Sized(A) && A.wordLen == 8 && WrittenPadding(A, n % 128, n % WORD) == Padding(A, n)
    ensures Digits(8 * (n % WORD), 16) == Digits(8 * n, 16)
  {
    hide Digits, LengthBytes, Octet;
    PadZeros8(n, n % 128);
    LongLength(n % WORD);
    var w, p := WrittenPadding(A, n % 128, n % WORD), Padding(A, n);
    assert p[|p| - 16..] == Digits(8 * n, 16);
    WrittenEnd(A, n % 128, n % WORD);
  }

  lemma WrittenEnd<W>(A: Alg<W>, t: nat, n: nat)
    requires Sized(A) && A.wordLen == 8 && t < 128 && n < WORD
    ensures var w := WrittenPadding(A, t, n); |w| >= 16 && w[|w| - 16..] == Digits(8 * n, 16)
  {
    hide Digits, LengthBytes, Octet;
    LongLength(n);
    var z := PaddedEnd(A, t) - 10 - t;
    assert Zeros(z) == Zeros(z - 7) + Zeros(7);
  }

  /** Wrapping the count at 2^64 does not show in the eight length bytes. */
  lemma LengthBytesWrap(n: nat)
    ensures LengthBytes(n % WORD) == LengthBytes(n)
  {
    hide Digits, LengthBytes;
    LengthBytesAreDigits(n);
    LengthBytesAreDigits(n % WORD);
    Pow256Of8();
    assert 8 * n == 8 * (n % WORD) + (8 * (n / WORD)) * WORD;
    DigitsWrap(8 * (n % WORD), 8 * (n / WORD), 8);
  }

  /** The end of the padded buffer: zeros, then the length. */
  method WriteLength<W>(A: Alg<W>, p: array<byte>, end: nat, bytes: nat)
    requires Sized(A) && 9 <= end <= p.Length
    modifies p
    ensures p[..if A.wordLen == 4 then end - 8 else end - 9] == old(p[..if A.wordLen == 4 then end - 8 else end - 9])
    ensures p[end - 8..end] == LengthBytes(bytes)
    ensures A.wordLen == 8 ==> p[end - 9] == Octet(bytes / 0x2000_0000_0000_0000)
  {
    hide Octet, LengthBytes;
    if A.wordLen == 8 {
      p[end - 9] := Octet(bytes / 0x2000_0000_0000_0000);
    }
    var field := LengthBytes(bytes);
    forall i | 0 <= i < 8 { p[end - 8 + i] := field[i]; }
    assert p[end - 8..end] == field;
  }

  /** The padded tail, built in a buffer of two blocks; `bytes` is the 64-bit count. */
  method BuildPadded<W>(A: Alg<W>, tail: Bytes, bytes: nat) returns (padded: Bytes)
    requires Sized(A) && |tail| < BlockLen(A)
    ensures padded == tail + WrittenPadding(A, |tail|, bytes)
  {
    hide Octet, LengthBytes, WrittenPadding;
    var p := new byte[2 * BlockLen(A)](_ => 0);
    var t := |tail|;
    forall i | 0 <= i < t { p[i] := tail[i]; }
    p[t] := 0x80;
    var end := if t < BlockLen(A) - 2 * A.wordLen then BlockLen(A) else 2 * BlockLen(A);
    var stop := if A.wordLen == 4 then end - 8 else end - 9;
    for i := t + 1 to stop
      invariant forall k | 0 <= k < t :: p[k] == tail[k]
      invariant p[t] == 0x80 && forall k | t < k < i :: p[k] == 0
    {
      p[i] := 0;
    }

    ghost var front := p[..stop];
    assert front == tail + [0x80] + Zeros(stop - t - 1);
    WriteLength(A, p, end, bytes);
    padded := p[..end];
    assert padded[..stop] == front && padded[|padded| - 8..] == p[end - 8..end];
    assert A.wordLen == 8 ==> padded[stop] == p[end - 9];
    Assembled(A, tail, bytes, padded, stop);
  }

  lemma Assembled<W>(A: Alg<W>, tail: Bytes, n: nat, padded: Bytes, stop: nat)
    requires Sized(A) && |tail| < BlockLen(A) && |padded| == PaddedEnd(A, |tail|)
    requires stop == (if A.wordLen == 4 then |padded| - 8 else |padded| - 9) && |tail| < stop
    requires padded[..stop] == tail + [0x80] + Zeros(stop - |tail| - 1)
    requires padded[|padded| - 8..] == LengthBytes(n)
    requires A.wordLen == 8 ==> padded[stop] == Octet(n / 0x2000_0000_0000_0000)
    ensures padded == tail + WrittenPadding(A, |tail|, n)
  {
    hide Octet, LengthBytes;
    if A.wordLen == 4 {
      assert padded == padded[..stop] + padded[stop..];
    } else {
      assert padded == padded[..stop] + [padded[stop]] + padded[stop + 1..];
    }
  }

  // ------------------------------------------------------------------ the context

  class Context<W(!new)> {
    const A: Alg<W>
    const ctx: array<byte>

    /** The chaining value the context started from and the bytes fed to it so far. */
    ghost const iv: Bytes
    ghost var absorbed: Bytes

    ghost predicate Valid()
      reads this, ctx
    {
      && LawfulAlg(A) && |iv| == 8 * A.wordLen && ctx.Length == 8 * A.wordLen + 8
      && |absorbed| % BlockLen(A) == 0
      && ctx[..8 * A.wordLen] == StoreVars(A, Fold(A, LoadVars(A, iv), absorbed))
      && ctx[8 * A.wordLen..] == Digits(|absorbed|, 8)
    }

    constructor (A: Alg<W>, iv: Bytes)
      requires LawfulAlg(A) && |iv| == 8 * A.wordLen
      ensures Valid() && fresh(ctx) && this.A == A && this.iv == iv && absorbed == []
    {
      hide Codec, Digits;
      this.A := A;
      var c := new byte[8 * A.wordLen + 8](_ => 0);
      forall i | 0 <= i < 8 * A.wordLen { c[i] := iv[i]; }
      ctx := c;
      this.iv := iv;
      absorbed := [];
      new;
      StoreUndoesLoad(A, iv);
      FoldShort(A, LoadVars(A, iv), []);
      assert ctx[..8 * A.wordLen] == iv;
      ZeroDigits(8);
    }

    /** The count as the code loads it. */
    method Bytes64() returns (n: nat)
      requires Valid()
      ensures n == |absorbed| % WORD
    {
      hide Codec, StoreVars, LoadVars, Fold, Digits;
      DigitsMod(|absorbed|);
      n := FromDigits(ctx[8 * A.wordLen..]);
    }

    method HashInto(inp: Bytes) returns (rest: nat)
      requires Valid()
      modifies ctx
      ensures ctx[..8 * A.wordLen] == StoreVars(A, Fold(A, LoadVars(A, iv), absorbed + inp))
      ensures ctx[8 * A.wordLen..] == old(ctx[8 * A.wordLen..]) && rest == |inp| % BlockLen(A)
    {
      hide Codec, StoreVars, LoadVars, Fold, Digits;
      var n := 8 * A.wordLen;
      ghost var tail := ctx[n..];
      ghost var v := Fold(A, LoadVars(A, iv), absorbed);
      LoadUndoesStore(A, v);
      var out;
      out, rest := HashBlocks(A, ctx[..n], inp);
      FoldConcat(A, LoadVars(A, iv), absorbed, inp);
      LoadUndoesStore(A, Fold(A, v, inp));
      forall i | 0 <= i < n { ctx[i] := out[i]; }
      assert ctx[..n] == out && ctx[n..] == tail;
    }

    /** Feeds whole blocks and adds their length to the count. */
    method IncBlocks(inp: Bytes, inblocks: nat)
      requires Valid() && |inp| == BlockLen(A) * inblocks
      modifies this, ctx
      ensures Valid() && absorbed == old(absorbed) + inp
    {
      hide Codec, StoreVars, LoadVars, Fold, Digits;
      var n := 8 * A.wordLen;
      var bytes := Bytes64();
      var rest := HashInto(inp);
      bytes := (bytes + BlockLen(A) * inblocks) % WORD;
      ghost var total := |absorbed| + |inp|;
      assert bytes == total % WORD;
      var field := Digits(bytes, 8);
      ghost var st := ctx[..n];
      forall i | 0 <= i < 8 { ctx[n + i] := field[i]; }
      assert ctx[..n] == st && ctx[n..] == field;
      DigitsMod(total);
      WholeBlocks(|absorbed|, inblocks, BlockLen(A));
      absorbed := absorbed + inp;
    }

    /** Hashes the rest of the message and its padding: over any split into whole-block calls and this one, the result is
        the hash of the whole message.  With 64-bit words the byte count must not have wrapped. */
    method IncFinalize(inp: Bytes) returns (out: Bytes)
      requires Valid()
      modifies this, ctx
      ensures var m := old(absorbed) + inp;
              out == CodeHash(A, iv, m) && ((A.wordLen == 8 ==> |m| < WORD) ==> out == Hash(A, iv, m))
    {
      hide Codec, StoreVars, LoadVars, Fold, Digits, WrittenPadding, Padding;
      ghost var m := absorbed + inp;
      var bytes := Bytes64();
      bytes := (bytes + |inp|) % WORD;
      assert bytes == |m| % WORD;
      var rest := HashInto(inp);
      ModSum(|absorbed|, |inp|, BlockLen(A));
      ModAtMost(|inp|, BlockLen(A));
      assert inp[|inp| - rest..] == m[|m| - rest..];
      out := HashPadded(A, ctx[..8 * A.wordLen], inp[|inp| - rest..], bytes, LoadVars(A, iv), m);
      if A.wordLen == 8 ==> |m| < WORD { CodeHashIsHash(A, iv, m); }
    }
  }

  /** Builds the padding of a message of which the whole blocks are hashed, and hashes it. */
  method HashPadded<W(!new)>(A: Alg<W>, st: Bytes, tail: Bytes, bytes: nat, ghost v: Vars<W>, ghost m: Bytes) returns (out: Bytes)
    requires LawfulAlg(A) && st == StoreVars(A, Fold(A, v, m)) && |st| == 8 * A.wordLen
    requires |tail| == |m| % BlockLen(A) && |tail| <= |m| && tail == m[|m| - |tail|..] && bytes == |m| % WORD
    ensures out == StoreVars(A, Fold(A, v, m + WrittenPadding(A, |tail|, |m| % WORD)))
  {
    hide Codec, StoreVars, LoadVars, Fold, Digits, WrittenPadding, Padding;
    var padded := BuildPadded(A, tail, bytes);
    LoadUndoesStore(A, Fold(A, v, m));
    var rest;
    out, rest := HashBlocks(A, st, padded);
    FinalBlocks(A, v, m, |tail|, WrittenPadding(A, |tail|, bytes));
  }

  lemma ModAtMost(a: nat, r: nat)
    requires r > 0
    ensures a % r <= a && a % r < r
  {
    if a < r {
      DivUnique(a, r, 0, a);
    }
  }

  /** Hashing the whole blocks of m and then the rest of m with anything behind it is hashing m with that behind it. */
  lemma {:induction false} FinalBlocks<W>(A: Alg<W>, v: Vars<W>, m: Bytes, t: nat, padding: Bytes)
    requires Sized(A) && t == |m| % BlockLen(A) && t <= |m|
    ensures Fold(A, Fold(A, v, m), m[|m| - t..] + padding) == Fold(A, v, m + padding)
  {
    hide Fold;
    var whole, tail := m[..|m| - t], m[|m| - t..];
    DropRest(|m|, BlockLen(A));
    FoldConcat(A, v, whole, tail);
    FoldShort(A, Fold(A, v, whole), tail);
    FoldConcat(A, v, whole, tail + padding);
    assert m == whole + tail && m + padding == whole + (tail + padding);
  }

  /** The digest the code computes of a message of any length: the count in the padding is kept modulo 2^64. */
  function CodeHash<W>(A: Alg<W>, iv: Bytes, m: Bytes): Bytes
    requires Sized(A) && |iv| == 8 * A.wordLen
  {
    ModAtMost(|m|, BlockLen(A));
    StoreVars(A, Fold(A, LoadVars(A, iv), m + WrittenPadding(A, |m| % BlockLen(A), |m| % WORD)))
  }

  /** It is the standard's hash of every message for the 32-bit functions, and below 2^64 bytes for the 64-bit ones. */
  lemma {:induction false} CodeHashIsHash<W>(A: Alg<W>, iv: Bytes, m: Bytes)
    requires Sized(A) && |iv| == 8 * A.wordLen && (A.wordLen == 8 ==> |m| < WORD)
    ensures CodeHash(A, iv, m) == Hash(A, iv, m)
  {
    hide Fold, Padding, WrittenPadding, StoreVars, LoadVars;
    ModAtMost(|m|, BlockLen(A));
    SamePadding(A, |m| % BlockLen(A), |m|);
    WrittenIsPadding(A, |m|);
  }

  lemma SamePadding<W>(A: Alg<W>, t: nat, n: nat)
    requires Sized(A) && t < BlockLen(A) && (A.wordLen == 8 ==> n < WORD)
    ensures WrittenPadding(A, t, n % WORD) == WrittenPadding(A, t, n)
  {
    hide LengthBytes, Octet;
    LengthBytesWrap(n);
  }

  lemma DropRest(n: nat, r: nat)
    requires r > 0 && n % r <= n
    ensures (n - n % r) % r == 0
  {
    assert n - n % r == (n / r) * r;
    DivUnique(n - n % r, r, n / r, 0);
  }

  lemma WholeBlocks(a: nat, k: nat, n: nat)
    requires n > 0 && a % n == 0
    ensures (a + n * k) % n == 0
  {
    assert n * k == k * n + 0;
    DivUnique(n * k, n, k, 0);
    ModSum(a, n * k, n);
  }

  lemma {:induction false} ZeroDigits(n: nat)
    ensures Digits(0, n) == Zeros(n)
  {
    if n > 0 {
      OneDigit(0, n - 1);
      OctetOfZero();
      assert Zeros(n - 1) + [0] == Zeros(n);
    }
  }

  /** A message fed as any number of whole-block chunks and a rest. */
  method Incremental<W(!new)>(A: Alg<W>, iv: Bytes, chunks: seq<Bytes>, last: Bytes) returns (out: Bytes)
    requires LawfulAlg(A) && |iv| == 8 * A.wordLen
    requires forall c | c in chunks :: |c| % BlockLen(A) == 0
    ensures var m := Concat(chunks) + last;
            out == CodeHash(A, iv, m) && ((A.wordLen == 8 ==> |m| < WORD) ==> out == Hash(A, iv, m))
  {
    hide Codec, Hash, CodeHash;
    var ctx := new Context(A, iv);
    for i := 0 to |chunks|
      invariant ctx.Valid() && fresh(ctx) && fresh(ctx.ctx) && ctx.absorbed == Concat(chunks[..i])
    {
      WholeCount(|chunks[i]|, BlockLen(A));
      ctx.IncBlocks(chunks[i], |chunks[i]| / BlockLen(A));
      assert chunks[..i + 1][..i] == chunks[..i];
    }
    assert chunks[..|chunks|] == chunks;
    out := ctx.IncFinalize(last);
  }

  lemma WholeCount(n: nat, r: nat)
    requires r > 0 && n % r == 0
    ensures n / r >= 0 && n == r * (n / r)
  {
  }
}
