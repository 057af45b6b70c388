/** The sponge as fips202.c runs it: the incremental context and the one-shot lane-wise form, both proved against the
    byte-by-byte reference.  The 26th slot of the context counts unpermuted bytes while absorbing and unread bytes while
    squeezing. */
module SpongeContext {
  import opened Arith
  import opened Primitives
  import opened Words
  import opened Sponge
  import opened LaneValues

  function Sum(ns: seq<nat>): nat {
    if |ns| == 0 then 0 else Sum(ns[..|ns| - 1]) + ns[|ns| - 1]
  }

  class Context {
    const f: Permutation
    const r: nat
    const s: array<bv64>
    var slot: nat

    ghost predicate Valid()
      reads this
    {
      KeepsSize(f) && Rate(r) && s.Length == 25 && slot <= r
    }

    constructor (f: Permutation, r: nat)
      requires KeepsSize(f) && Rate(r)
      ensures Valid() && fresh(s) && this.f == f && this.r == r && s[..] == Zero && slot == 0
    {
      this.f, this.r := f, r;
      s := new bv64[25](_ => 0);
      slot := 0;
    }

    method Permute()
      requires Valid()
      modifies s
      ensures s[..] == f(old(s[..]))
    {
      var t := f(s[..]);
      forall i | 0 <= i < 25 { s[i] := t[i]; }
    }

    /** Xors `n` bytes of m from `off` on into the lanes at the current position. */
    method XorIn(m: Bytes, off: nat, n: nat)
      requires Valid() && off + n <= |m| && slot + n <= r
      modifies s
      ensures s[..] == XorBytes(old(s[..]), slot, m[off..off + n])
    {
      hide Xor, Shifted;
      for i := 0 to n
        invariant s[..] == XorBytes(old(s[..]), slot, m[off..off + i])
      {
        ghost var before := s[..];
        s[(slot + i) / 8] := Xor(s[(slot + i) / 8], Shifted(m[off + i], (slot + i) % 8));
        assert s[..] == XorByte(before, slot + i, m[off + i]);
        assert m[off..off + i + 1][..i] == m[off..off + i];
      }
    }

    /** Absorbs any number of bytes: whole blocks while they last, then the rest. */
    method IncAbsorb(m: Bytes)
      requires Valid() && slot < r
      modifies this, s
      ensures Valid() && slot < r && Inc(s[..], slot) == Absorb(f, r, old(Inc(s[..], slot)), m)
    {
      hide AbsorbByte, XorBytes;
      var off: nat, mlen: nat := 0, |m|;
      while mlen + slot >= r
        invariant off <= |m| && off + mlen == |m| && slot < r
        invariant Inc(s[..], slot) == Absorb(f, r, old(Inc(s[..], slot)), m[..off])
      {
        ghost var st, part := Inc(s[..], slot), m[off..off + (r - slot)];
        XorIn(m, off, r - slot);
        AbsorbWithinBlock(f, r, st, part);
        AbsorbConcat(f, r, old(Inc(s[..], slot)), m[..off], part);
        assert m[..off] + part == m[..off + (r - slot)];
        mlen := mlen - (r - slot);
        off := off + (r - slot);
        slot := 0;
        Permute();
      }

      ghost var st, part := Inc(s[..], slot), m[off..off + mlen];
      XorIn(m, off, mlen);
      AbsorbWithinBlock(f, r, st, part);
      AbsorbConcat(f, r, old(Inc(s[..], slot)), m[..off], part);
      assert m[..off] + part == m;
      slot := slot + mlen;
    }

    method IncFinalize(p: byte)
      requires Valid() && slot < r
      modifies this, s
      ensures Valid() && slot == 0 && s[..] == Finalize(r, old(Inc(s[..], slot)), p)
    {
      hide Xor, Shifted;
      ghost var before := s[..];
      s[slot / 8] := Xor(s[slot / 8], Shifted(p, slot % 8));
      assert s[..] == XorByte(before, slot, p);
      s[(r - 1) / 8] := Xor(s[(r - 1) / 8], Shifted(0x80, (r - 1) % 8));
      assert s[..] == XorByte(XorByte(before, slot, p), r - 1, 0x80);
      slot := 0;
    }

    /** Reads `n` bytes of the current block from byte position `from` on. */
    method ReadOut(from: nat, n: nat) returns (out: Bytes)
      requires Valid() && from + n <= r
      ensures |out| == n && forall i | 0 <= i < n :: out[i] == ByteAt(s[..], from + i)
    {
      out := [];
      for i := 0 to n
        invariant |out| == i && forall j | 0 <= j < i :: out[j] == ByteAt(s[..], from + j)
      {
        out := out + [LaneByte(s[(from + i) / 8], (from + i) % 8)];
      }
    }

    /** Gives out what is left of the current block, or the beginning of it. */
    method Drain(outlen: nat) returns (out: Bytes)
      requires Valid()
      modifies this`slot
      ensures Valid() && |out| == (if outlen < old(slot) then outlen else old(slot)) && slot == old(slot) - |out|
      ensures (Sq(s[..], slot), out) == Squeeze(f, r, old(Sq(s[..], slot)), |out|)
    {
      hide ByteAt, Squeeze;
      var i := if outlen < slot then outlen else slot;
      out := ReadOut(r - slot, i);
      SqueezeWithinBlock(f, r, Sq(s[..], slot), i);
      assert out == Squeeze(f, r, Sq(s[..], slot), i).1;
      slot := slot - i;
    }

    /** Squeezes any number of bytes: what is left of the block, then block after block. */
    method IncSqueeze(outlen: nat) returns (out: Bytes)
      requires Valid()
      modifies this, s
      ensures Valid() && (Sq(s[..], slot), out) == Squeeze(f, r, old(Sq(s[..], slot)), outlen)
      ensures IsStream(f, r, old(Sq(s[..], slot)), out)
    {
      hide ByteAt, Squeeze, IsStream;
      ghost var q := Sq(s[..], slot);
      out := Drain(outlen);
      while |out| < outlen
        invariant Valid() && |out| <= outlen && (|out| < outlen ==> slot == 0)
        invariant (Sq(s[..], slot), out) == Squeeze(f, r, q, |out|)
        decreases outlen - |out|
      {
        ghost var lanes := s[..];
        Permute();
        var i := if outlen - |out| < r then outlen - |out| else r;
        var part := ReadOut(0, i);
        SqueezeOneBlock(f, r, q, out, lanes, part);
        out := out + part;
        slot := r - i;
      }
      SqueezedStream(f, r, q, outlen);
    }
  }

  /** With nothing left, squeezing starts by permuting. */
  lemma {:induction false} SqueezeFromEmpty(f: Permutation, r: nat, q: Sq, n: nat)
    requires KeepsSize(f) && Rate(r) && SqReady(r, q) && q.left == 0 && n > 0
    ensures Squeeze(f, r, q, n) == Squeeze(f, r, Sq(f(q.s), r), n)
    decreases n
  {
    hide ByteAt;
    if n > 1 {
      SqueezeFromEmpty(f, r, q, n - 1);
    }
  }

  /** One more block, or the beginning of one, squeezed when nothing is left of the last. */
  lemma {:induction false} SqueezeOneBlock(f: Permutation, r: nat, q: Sq, out: Bytes, s: Lanes, part: Bytes)
    requires KeepsSize(f) && Rate(r) && SqReady(r, q) && |s| == 25 && 0 < |part| <= r
    requires Squeeze(f, r, q, |out|) == (Sq(s, 0), out)
    requires forall i | 0 <= i < |part| :: part[i] == ByteAt(f(s), i)
    ensures Squeeze(f, r, q, |out| + |part|) == (Sq(f(s), r - |part|), out + part)
  {
    hide Squeeze, ByteAt;
    SqueezeConcat(f, r, q, |out|, |part|);
    SqueezeFromEmpty(f, r, Sq(s, 0), |part|);
    SqueezeWithinBlock(f, r, Sq(f(s), r), |part|);
    assert part == Squeeze(f, r, Sq(f(s), r), |part|).1;
  }

  method AbsorbChunks(c: Context, chunks: seq<Bytes>)
    requires c.Valid() && c.slot < c.r
    modifies c, c.s
    ensures c.Valid() && c.slot < c.r
    ensures Inc(c.s[..], c.slot) == Absorb(c.f, c.r, old(Inc(c.s[..], c.slot)), Concat(chunks))
  {
    hide Absorb;
    ghost var st := Inc(c.s[..], c.slot);
    assert Absorb(c.f, c.r, st, []) == st by { AbsorbNothing(c.f, c.r, st); }
    for i := 0 to |chunks|
      invariant c.Valid() && c.slot < c.r
      invariant Inc(c.s[..], c.slot) == Absorb(c.f, c.r, st, Concat(chunks[..i]))
    {
      c.IncAbsorb(chunks[i]);
      AbsorbConcat(c.f, c.r, st, Concat(chunks[..i]), chunks[i]);
      assert chunks[..i + 1][..i] == chunks[..i];
    }
    assert chunks[..|chunks|] == chunks;
  }

  lemma AbsorbNothing(f: Permutation, r: nat, st: Inc)
    requires KeepsSize(f) && Rate(r) && Ready(r, st)
    ensures Absorb(f, r, st, []) == st
  {
  }

  method SqueezeChunks(c: Context, lens: seq<nat>) returns (outs: seq<Bytes>)
    requires c.Valid()
    modifies c, c.s
    ensures c.Valid() && |outs| == |lens| && (forall i | 0 <= i < |lens| :: |outs[i]| == lens[i])
    ensures (Sq(c.s[..], c.slot), Concat(outs)) == Squeeze(c.f, c.r, old(Sq(c.s[..], c.slot)), Sum(lens))
  {
    hide Squeeze;
    ghost var q := Sq(c.s[..], c.slot);
    outs := [];
    assert Squeeze(c.f, c.r, q, 0) == (q, []) by { SqueezeNothing(c.f, c.r, q); }
    for i := 0 to |lens|
      invariant c.Valid() && |outs| == i && (forall j | 0 <= j < i :: |outs[j]| == lens[j])
      invariant (Sq(c.s[..], c.slot), Concat(outs)) == Squeeze(c.f, c.r, q, Sum(lens[..i]))
    {
      SqueezeConcat(c.f, c.r, q, Sum(lens[..i]), lens[i]);
      var out := c.IncSqueeze(lens[i]);
      assert lens[..i + 1][..i] == lens[..i];
      assert (outs + [out])[..i] == outs;
      outs := outs + [out];
    }
    assert lens[..|lens|] == lens;
  }

  lemma SqueezeNothing(f: Permutation, r: nat, q: Sq)
    requires KeepsSize(f) && Rate(r) && SqReady(r, q)
    ensures Squeeze(f, r, q, 0) == (q, [])
  {
  }

  /** Split invariance: absorbing a message in any chunks and squeezing in any chunks gives, put together, the bytes of
      the whole message squeezed at once. */
  method Chunked(f: Permutation, r: nat, p: byte, chunks: seq<Bytes>, lens: seq<nat>) returns (outs: seq<Bytes>)
    requires KeepsSize(f) && Rate(r)
    ensures |outs| == |lens| && (forall i | 0 <= i < |lens| :: |outs[i]| == lens[i])
    ensures Concat(outs) == Xof(f, r, p, Concat(chunks), Sum(lens))
  {
    hide Squeeze, Absorb, Finalize;
    var c := new Context(f, r);
    AbsorbChunks(c, chunks);
    c.IncFinalize(p);
    outs := SqueezeChunks(c, lens);
  }

  // ------------------------------------------------------------------ the one-shot form

  /** The first i bytes of a lane, or-ed together. */
  function LoadPrefix(x: Bytes, i: nat): bv64
    requires i <= 8 <= |x|
  {
    if i == 0 then 0 else Or(LoadPrefix(x, i - 1), Shifted(x[i - 1], i - 1))
  }

  /** load64: a lane whose digits in base 256, lowest first, are the eight bytes. */
  method Load64(x: Bytes) returns (u: bv64)
    requires |x| >= 8
    ensures u == LoadPrefix(x, 8) && forall k | 0 <= k < 8 :: Digit256(u as int, k) == x[k] as int
  {
    hide Shifted, Or, Digit256, LaneByte;
    u := 0;
    for i := 0 to 8
      invariant u == LoadPrefix(x, i)
    {
      u := Or(u, Shifted(x[i], i));
    }
    forall k | 0 <= k < 8 ensures Digit256(u as int, k) == x[k] as int {
      LoadedByte(x, 8, k);
      LaneByteValue(u, k);
    }
  }

  /** No bit of `a` at or above byte i is set. */
  predicate Below(a: word, i: nat)
    requires i < 8
  {
    Shr(a, Amount(i)) == 0
  }

  /** Or-ing a byte above everything loaded so far is xoring it. */
  lemma OrAboveIsXor(a: word, b: byte, i: nat)
    requires i < 8 && Below(a, i)
    ensures Or(a, Shifted(b, i)) == Xor(a, Shifted(b, i))
  {
    hide Amount, Xor, Or, ShlByte, Shr;
    OrAbove(a, b, Amount(i));
  }

  lemma ByteStaysBelow(a: word, b: byte, i: nat)
    requires i < 7 && Below(a, i)
    ensures Below(Or(a, Shifted(b, i)), i + 1)
  {
    AmountStep(i);
    hide Amount, Or, ShlByte, Shr;
    OrStaysBelow(a, b, Amount(i));
  }

  lemma {:induction false} LoadBelow(x: Bytes, i: nat)
    requires i <= 7 && 8 <= |x|
    ensures Below(LoadPrefix(x, i), i)
  {
    hide Shifted, Or;
    if i == 0 {
      ShrZero(Amount(0));
    } else {
      LoadBelow(x, i - 1);
      hide Below;
      ByteStaysBelow(LoadPrefix(x, i - 1), x[i - 1], i - 1);
    }
  }

  /** The bytes loaded so far are where they belong, and the others are zero. */
  lemma {:induction false} LoadedByte(x: Bytes, i: nat, k: nat)
    requires i <= 8 <= |x| && k < 8
    ensures LaneByte(LoadPrefix(x, i), k) == if k < i then x[k] else 0
  {
    hide Shifted, Or, Xor, LaneByte;
    if i == 0 {
      ZeroBytes(k);
    } else {
      LoadedByte(x, i - 1, k);
      LoadBelow(x, i - 1);
      OrAboveIsXor(LoadPrefix(x, i - 1), x[i - 1], i - 1);
      LaneByteXor(LoadPrefix(x, i - 1), Shifted(x[i - 1], i - 1), k);
      ShiftedByte(x[i - 1], i - 1, k);
      XorZeroPair(x[i - 1]);
      XorZeroPair(LaneByte(LoadPrefix(x, i - 1), k));
    }
  }

  /** Loading a lane and xoring it in is xoring in its eight bytes. */
  lemma {:induction false} XorLoadPrefix(s: Lanes, k: nat, x: Bytes, i: nat)
    requires |s| == 25 && k < 25 && i <= 8 == |x|
    ensures XorBytes(s, 8 * k, x[..i]) == s[k := Xor(s[k], LoadPrefix(x, i))]
  {
    hide Shifted, Xor, Or;
    if i == 0 {
      XorZero(s[k]);
      assert s[k := s[k]] == s;
    } else {
      XorLoadPrefix(s, k, x, i - 1);
      assert x[..i][..i - 1] == x[..i - 1];
      LoadBelow(x, i - 1);
      OrAboveIsXor(LoadPrefix(x, i - 1), x[i - 1], i - 1);
      XorAssociates(s[k], LoadPrefix(x, i - 1), Shifted(x[i - 1], i - 1));
      LaneOf(k, i - 1);
      UpdateTwice(s, k, Xor(s[k], LoadPrefix(x, i - 1)), Xor(Xor(s[k], LoadPrefix(x, i - 1)), Shifted(x[i - 1], i - 1)));
    }
  }

  lemma LaneOf(k: nat, i: nat)
    requires i < 8
    ensures (8 * k + i) / 8 == k && (8 * k + i) % 8 == i
  {
  }

  lemma XorNothing(s: Lanes, pos: nat, b: Bytes)
    requires |s| == 25 && |b| == 0 && pos <= 200
    ensures XorBytes(s, pos, b) == s
  {
  }

  /** One more lane of a block. */
  lemma {:induction false} LaneStep(s: Lanes, block: Bytes, i: nat)
    requires |s| == 25 && 8 * i + 8 <= |block| <= 200
    ensures var t := XorBytes(s, 0, block[..8 * i]);
            t[i := Xor(t[i], LoadPrefix(block[8 * i..8 * i + 8], 8))] == XorBytes(s, 0, block[..8 * (i + 1)])
  {
    hide Xor, LoadPrefix, XorBytes;
    var x := block[8 * i..8 * i + 8];
    XorLoadPrefix(XorBytes(s, 0, block[..8 * i]), i, x, 8);
    assert x[..8] == x;
    XorBytesConcat(s, 0, block[..8 * i], x);
    assert block[..8 * i] + x == block[..8 * (i + 1)];
  }

  /** The eight bytes of a lane. */
  function LaneBytes(w: word): (b: Bytes)
    ensures |b| == 8
  {
    seq(8, j requires 0 <= j < 8 => LaneByte(w, j))
  }

  /** The lane that starts at byte pos. */
  function LaneAt(m: Bytes, pos: nat): word
    requires pos + 8 <= |m|
  {
    LoadPrefix(m[pos..pos + 8], 8)
  }

  lemma {:induction false} LaneStepAt(s: Lanes, m: Bytes, pos: nat, i: nat)
    requires |s| == 25 && pos + 8 * i + 8 <= |m| && i < 25
    ensures var t := XorBytes(s, 0, m[pos..pos + 8 * i]);
            t[i := Xor(t[i], LaneAt(m, pos + 8 * i))] == XorBytes(s, 0, m[pos..pos + 8 * (i + 1)])
  {
    hide Xor, LoadPrefix, XorBytes;
    var b := m[pos..pos + 8 * (i + 1)];
    LaneStep(s, b, i);
    SubSlice(m, pos, pos + 8 * (i + 1), 0, 8 * i);
    SubSlice(m, pos, pos + 8 * (i + 1), 8 * i, 8 * i + 8);
    assert b[..8 * (i + 1)] == b && b[0..8 * i] == b[..8 * i];
  }

  /** Xoring the padded tail in, after the whole blocks, is absorbing the tail and finalizing. */
  lemma {:induction false} TailAbsorbed(f: Permutation, r: nat, m: Bytes, off: nat, s: Lanes, p: byte)
    requires KeepsSize(f) && Rate(r) && |s| == 25 && off <= |m| < off + r
    requires Inc(s, 0) == Absorb(f, r, Inc(Zero, 0), m[..off])
    ensures XorBytes(s, 0, PaddedTail(r, m[off..], p)) == Finalize(r, Absorb(f, r, Inc(Zero, 0), m), p)
            <==> p < 0x80 || |m| - off < r - 1
  {
    hide XorBytes, Absorb, Finalize, PaddedTail;
    PaddingFormsAgree(r, s, m[off..], p);
    AbsorbWithinBlock(f, r, Inc(s, 0), m[off..]);
    AbsorbConcat(f, r, Inc(Zero, 0), m[..off], m[off..]);
    assert m[..off] + m[off..] == m;
  }

  class OneShot {
    const f: Permutation
    const r: nat
    const s: array<bv64>

    ghost predicate Valid()
    {
      KeepsSize(f) && Rate(r) && s.Length == 25
    }

    constructor (f: Permutation, r: nat)
      requires KeepsSize(f) && Rate(r)
      ensures Valid() && fresh(s) && this.f == f && this.r == r
    {
      this.f, this.r := f, r;
      s := new bv64[25](_ => 0);
    }

    method Permute()
      requires Valid()
      modifies s
      ensures s[..] == f(old(s[..]))
    {
      var t := f(s[..]);
      forall i | 0 <= i < 25 { s[i] := t[i]; }
    }

    /** Xors a block of r bytes in, lane by lane. */
    method XorLanes(m: Bytes, off: nat)
      requires Valid() && off + r <= |m|
      modifies s
      ensures s[..] == XorBytes(old(s[..]), 0, m[off..off + r])
    {
      hide Xor, LoadPrefix, XorBytes;
      var block := m[off..off + r];
      ghost var lanes := s[..];
      assert XorBytes(lanes, 0, block[..0]) == lanes by { XorNothing(lanes, 0, block[..0]); }
      for i := 0 to r / 8
        invariant s[..] == XorBytes(lanes, 0, block[..8 * i])
      {
        ghost var before := s[..];
        var u := Load64(block[8 * i..8 * i + 8]);
        s[i] := Xor(s[i], u);
        assert s[..] == before[i := Xor(before[i], u)];
        LaneStep(lanes, block, i);
      }
      assert block[..8 * (r / 8)] == block;
    }

    /** Whole blocks with a permutation each; `off` is where the tail starts. */
    method AbsorbBlocks(m: Bytes) returns (off: nat)
      requires Valid() && s[..] == Zero
      modifies s
      ensures off <= |m| && |m| - off == |m| % r && Inc(s[..], 0) == Absorb(f, r, Inc(Zero, 0), m[..off])
    {
      hide XorBytes, AbsorbByte;
      off := 0;
      var mlen := |m|;
      while mlen >= r
        invariant off <= |m| && 0 <= mlen && off + mlen == |m| && mlen % r == |m| % r
        invariant Inc(s[..], 0) == Absorb(f, r, Inc(Zero, 0), m[..off])
        decreases mlen
      {
        ghost var st := s[..];
        XorLanes(m, off);
        AbsorbWithinBlock(f, r, Inc(st, 0), m[off..off + r]);
        AbsorbConcat(f, r, Inc(Zero, 0), m[..off], m[off..off + r]);
        assert m[..off] + m[off..off + r] == m[..off + r];
        Permute();
        ModDrop(mlen, r);
        mlen := mlen - r;
        off := off + r;
      }
      DivUnique(mlen, r, 0, mlen);
    }

    method MakeTail(tail: Bytes, p: byte) returns (t: array<byte>)
      requires Valid() && |tail| < r
      ensures fresh(t) && t[..] == PaddedTail(r, tail, p)
    {
      t := new byte[r](_ => 0);
      forall i | 0 <= i < |tail| { t[i] := tail[i]; }
      t[|tail|] := p;
      t[r - 1] := t[r - 1] | 0x80;
    }

    /** The one-shot absorb: zero the lanes, absorb the whole blocks, then the padded tail.  It agrees with incremental
        absorbing and finalizing exactly when the domain byte is below 0x80 or does not fall on the last byte of a
        block. */
    method KeccakAbsorb(m: Bytes, p: byte)
      requires Valid()
      modifies s
      ensures s[..] == Finalize(r, Absorb(f, r, Inc(Zero, 0), m), p) <==> p < 0x80 || |m| % r != r - 1
    {
      hide XorBytes, Absorb, Finalize;
      for i := 0 to 25
        invariant forall j | 0 <= j < i :: s[j] == 0
      {
        s[i] := 0;
      }
      assert s[..] == Zero;
      var off := AbsorbBlocks(m);
      var t := MakeTail(m[off..], p);
      TailAbsorbed(f, r, m, off, s[..], p);
      XorLanes(t[..], 0);
      assert t[..][0..r] == t[..];
    }

    /** Squeezes whole blocks, a permutation before each. */
    method SqueezeBlocks(nblocks: nat) returns (out: Bytes)
      requires Valid()
      modifies s
      ensures (Sq(s[..], 0), out) == Squeeze(f, r, Sq(old(s[..]), 0), nblocks * r)
    {
      hide ByteAt, Squeeze;
      ghost var q := Sq(s[..], 0);
      out := [];
      SqueezeNothing(f, r, q);
      for n := 0 to nblocks
        invariant |out| == n * r && (Sq(s[..], 0), out) == Squeeze(f, r, q, n * r)
      {
        ghost var lanes := s[..];
        Permute();
        var block := StoreBlock();
        SqueezeOneBlock(f, r, q, out, lanes, block);
        out := out + block;
        assert (n + 1) * r == n * r + r;
      }
    }

    /** Stores the first r / 8 lanes, little-endian. */
    method StoreBlock() returns (out: Bytes)
      requires Valid()
      ensures |out| == r && forall i | 0 <= i < r :: out[i] == ByteAt(s[..], i)
      ensures forall i | 0 <= i < r :: out[i] as int == Digit256(s[i / 8] as int, i % 8)
    {
      hide LaneByte, Digit256;
      out := [];
      for k := 0 to r / 8
        invariant |out| == 8 * k && forall i | 0 <= i < 8 * k :: out[i] == ByteAt(s[..], i)
      {
        var x := s[k];
        for j := 0 to 8
          invariant |out| == 8 * k + j && forall i | 0 <= i < 8 * k + j :: out[i] == ByteAt(s[..], i)
        {
          LaneOf(k, j);
          out := out + [LaneByte(x, j)];
        }
      }
      forall i | 0 <= i < r ensures out[i] as int == Digit256(s[i / 8] as int, i % 8) { ByteAtValue(s[..], i); }
    }
  }

  /** The one-shot SHAKE function: the same bytes as any chunked use of the incremental one. */
  method Shake(f: Permutation, r: nat, m: Bytes, outlen: nat) returns (out: Bytes)
    requires KeepsSize(f) && Rate(r)
    ensures out == Xof(f, r, 0x1F, m, outlen)
  {
    hide Squeeze, Absorb, Finalize;
    var nblocks := outlen / r;
    var c := new OneShot(f, r);
    c.KeccakAbsorb(m, 0x1F);
    ghost var q := Sq(c.s[..], 0);
    out := c.SqueezeBlocks(nblocks);
    var rest := outlen - nblocks * r;
    if rest > 0 {
      ghost var q1 := Sq(c.s[..], 0);
      var t := c.SqueezeBlocks(1);
      SqueezePrefix(f, r, q1, rest, 1 * r);
      SqueezeConcat(f, r, q, nblocks * r, rest);
      out := out + t[..rest];
    }
  }

  /** Squeezing fewer bytes gives a prefix. */
  lemma {:induction false} SqueezePrefix(f: Permutation, r: nat, q: Sq, m: nat, n: nat)
    requires KeepsSize(f) && Rate(r) && SqReady(r, q) && m <= n
    ensures Squeeze(f, r, q, m).1 == Squeeze(f, r, q, n).1[..m]
  {
    hide Squeeze;
    SqueezeConcat(f, r, q, m, n - m);
  }
}
