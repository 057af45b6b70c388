/** The two-way Keccak sponge: two messages of one length in the halves of 25 vectors.  Each half is the scalar sponge of its
    own message. */
module KeccakTwo {
  import opened Arith
  import opened Primitives
  import opened Words
  import opened Sponge
  import opened SpongeContext

  /** A 128-bit vector of two words. */
  datatype Vec = Vec(lo: word, hi: word)

  function Zip1(a: Vec, b: Vec): Vec { Vec(a.lo, b.lo) }

  function Zip2(a: Vec, b: Vec): Vec { Vec(a.hi, b.hi) }

  function XorVec(a: Vec, b: Vec): Vec { Vec(Xor(a.lo, b.lo), Xor(a.hi, b.hi)) }

  function Low(s: seq<Vec>): (l: Lanes)
    ensures |l| == |s|
  {
    seq(|s|, i requires 0 <= i < |s| => s[i].lo)
  }

  function High(s: seq<Vec>): (l: Lanes)
    ensures |l| == |s|
  {
    seq(|s|, i requires 0 <= i < |s| => s[i].hi)
  }

  /** The rates the group-of-four loops fit: one lane more than a multiple of four. */
  predicate FourPlusOne(r: nat) { Rate(r) && r / 8 % 4 == 1 }

  lemma LowHighUpdate(s: seq<Vec>, i: nat, v: Vec)
    requires i < |s|
    ensures Low(s[i := v]) == Low(s)[i := v.lo] && High(s[i := v]) == High(s)[i := v.hi]
  {
  }

  /** The vectors with lane i of both messages xored in, the messages starting at byte pos. */
  function WithLane(s: seq<Vec>, in0: Bytes, in1: Bytes, pos: nat, i: nat): (t: seq<Vec>)
    requires |s| == 25 && i < 25 && |in0| == |in1| && pos + 8 * i + 8 <= |in0|
    ensures |t| == 25
  {
    s[i := XorVec(s[i], Vec(LaneAt(in0, pos + 8 * i), LaneAt(in1, pos + 8 * i)))]
  }

  /** Both halves hold the first n bytes of their block. */
  ghost predicate Holds(s0: seq<Vec>, s: seq<Vec>, in0: Bytes, in1: Bytes, pos: nat, n: nat)
    requires |s0| == 25 && |in0| == |in1| && pos + n <= |in0| && n <= 200
  {
    && |s| == 25 && Low(s) == XorBytes(Low(s0), 0, in0[pos..pos + n]) && High(s) == XorBytes(High(s0), 0, in1[pos..pos + n])
  }

  /** One more lane of both halves. */
  lemma {:induction false} BothLanes(s0: seq<Vec>, s: seq<Vec>, in0: Bytes, in1: Bytes, pos: nat, i: nat)
    requires |s0| == 25 && |in0| == |in1| && pos + 8 * i + 8 <= |in0| && i < 25
    requires Holds(s0, s, in0, in1, pos, 8 * i)
    ensures Holds(s0, WithLane(s, in0, in1, pos, i), in0, in1, pos, 8 * (i + 1))
  {
    hide Xor, LoadPrefix, XorBytes, Low, High;
    var v := XorVec(s[i], Vec(LaneAt(in0, pos + 8 * i), LaneAt(in1, pos + 8 * i)));
    LowHighUpdate(s, i, v);
    HalvesAt(s, i);
    LaneStepAt(Low(s0), in0, pos, i);
    LaneStepAt(High(s0), in1, pos, i);
  }

  lemma HalvesAt(s: seq<Vec>, i: nat)
    requires i < |s|
    ensures Low(s)[i] == s[i].lo && High(s)[i] == s[i].hi
  {
  }

  class TwoWay {
    const f: Permutation
    const r: nat
    const s: array<Vec>

    ghost predicate Valid() { KeepsSize(f) && FourPlusOne(r) && s.Length == 25 }

    constructor (f: Permutation, r: nat)
      requires KeepsSize(f) && FourPlusOne(r)
      ensures Valid() && fresh(s) && this.f == f && this.r == r
    {
      this.f, this.r := f, r;
      s := new Vec[25](_ => Vec(0, 0));
    }

    /** Both halves through the permutation. */
    method Permute()
      requires Valid()
      modifies s
      ensures Low(s[..]) == f(old(Low(s[..]))) && High(s[..]) == f(old(High(s[..])))
    {
      var l, h := f(Low(s[..])), f(High(s[..]));
      forall i | 0 <= i < 25 { s[i] := Vec(l[i], h[i]); }
      assert Low(s[..]) == l && High(s[..]) == h;
    }

    /** Two neighbouring lanes, loaded as vectors of each message and zipped. */
    method XorPair(in0: Bytes, in1: Bytes, pos: nat, i: nat)
      requires Valid() && i + 1 < 25 && |in0| == |in1| && pos + 8 * i + 16 <= |in0|
      modifies s
      ensures s[..] == WithLane(WithLane(old(s[..]), in0, in1, pos, i), in0, in1, pos, i + 1)
    {
      hide XorVec, LaneAt;
      var a := Vec(LaneAt(in0, pos + 8 * i), LaneAt(in0, pos + 8 * (i + 1)));
      var b := Vec(LaneAt(in1, pos + 8 * i), LaneAt(in1, pos + 8 * (i + 1)));
      s[i] := XorVec(s[i], Zip1(a, b));
      s[i + 1] := XorVec(s[i + 1], Zip2(a, b));
    }

    /** A single lane. */
    method XorOne(in0: Bytes, in1: Bytes, pos: nat, i: nat)
      requires Valid() && i < 25 && |in0| == |in1| && pos + 8 * i + 8 <= |in0|
      modifies s
      ensures s[..] == WithLane(old(s[..]), in0, in1, pos, i)
    {
      hide XorVec, LaneAt;
      s[i] := XorVec(s[i], Vec(LaneAt(in0, pos + 8 * i), LaneAt(in1, pos + 8 * i)));
    }

    /** A whole block: lanes in groups of four, then the last one. */
    method XorBlock(in0: Bytes, in1: Bytes, pos: nat)
      requires Valid() && |in0| == |in1| && pos + r <= |in0|
      modifies s
      ensures Holds(old(s[..]), s[..], in0, in1, pos, r)
    {
      hide Holds, WithLane;
      ghost var s0 := s[..];
      NothingYet(s0, in0, in1, pos);
      var i := 0;
      while i < r / 8 - 1
        invariant 0 <= i <= r / 8 - 1 && i % 4 == 0 && Holds(s0, s[..], in0, in1, pos, 8 * i)
      {
        BothLanes(s0, s[..], in0, in1, pos, i);
        BothLanes(s0, WithLane(s[..], in0, in1, pos, i), in0, in1, pos, i + 1);
        XorPair(in0, in1, pos, i);
        BothLanes(s0, s[..], in0, in1, pos, i + 2);
        BothLanes(s0, WithLane(s[..], in0, in1, pos, i + 2), in0, in1, pos, i + 3);
        XorPair(in0, in1, pos, i + 2);
        i := i + 4;
      }
      BothLanes(s0, s[..], in0, in1, pos, i);
      XorOne(in0, in1, pos, i);
    }

    /** All whole blocks, each followed by the permutation; pos is where the tail starts. */
    method AbsorbBlocks(in0: Bytes, in1: Bytes) returns (pos: nat)
      requires Valid() && |in0| == |in1| && Low(s[..]) == Zero && High(s[..]) == Zero
      modifies s
      ensures pos <= |in0| && |in0| - pos == |in0| % r
      ensures Inc(Low(s[..]), 0) == Absorb(f, r, Inc(Zero, 0), in0[..pos])
      ensures Inc(High(s[..]), 0) == Absorb(f, r, Inc(Zero, 0), in1[..pos])
    {
      hide Absorb, XorBytes, Low, High;
      pos := 0;
      var inlen := |in0|;
      AbsorbNothing(f, r, Inc(Zero, 0));
      while inlen >= r
        invariant pos <= |in0| && 0 <= inlen && pos + inlen == |in0| && inlen % r == |in0| % r
        invariant Inc(Low(s[..]), 0) == Absorb(f, r, Inc(Zero, 0), in0[..pos])
        invariant Inc(High(s[..]), 0) == Absorb(f, r, Inc(Zero, 0), in1[..pos])
        decreases inlen
      {
        ghost var s0 := s[..];
        XorBlock(in0, in1, pos);
        Permute();
        BlockAbsorbed(f, r, Low(s0), in0, pos);
        BlockAbsorbed(f, r, High(s0), in1, pos);
        ModDrop(inlen, r);
        pos := pos + r;
        inlen := inlen - r;
      }
      DivUnique(inlen, r, 0, inlen);
    }

    /** The whole lanes of the tail: pairs of lanes, then perhaps one more. */
    method XorTailLanes(in0: Bytes, in1: Bytes, pos: nat) returns (i: nat)
      requires Valid() && |in0| == |in1| && pos <= |in0| < pos + r
      modifies s
      ensures i == (|in0| - pos) / 8 && Holds(old(s[..]), s[..], in0, in1, pos, 8 * i)
    {
      hide Holds, WithLane;
      ghost var s0 := s[..];
      NothingYet(s0, in0, in1, pos);
      i := 0;
      var inlen := |in0| - pos;
      while inlen >= 16
        invariant 0 <= inlen && pos + 8 * i + inlen == |in0| && Holds(s0, s[..], in0, in1, pos, 8 * i)
      {
        BothLanes(s0, s[..], in0, in1, pos, i);
        BothLanes(s0, WithLane(s[..], in0, in1, pos, i), in0, in1, pos, i + 1);
        XorPair(in0, in1, pos, i);
        i := i + 2;
        inlen := inlen - 16;
      }
      if inlen >= 8 {
        BothLanes(s0, s[..], in0, in1, pos, i);
        XorOne(in0, in1, pos, i);
        i := i + 1;
        inlen := inlen - 8;
      }
    }

    /** One value into lane i of both halves. */
    method XorDup(i: nat, lo: word, hi: word)
      requires Valid() && i < 25
      modifies s
      ensures Low(s[..]) == old(Low(s[..]))[i := Xor(old(Low(s[..]))[i], lo)]
      ensures High(s[..]) == old(High(s[..]))[i := Xor(old(High(s[..]))[i], hi)]
    {
      hide Low, High, Xor;
      ghost var before := s[..];
      HalvesAt(before, i);
      LowHighUpdate(before, i, XorVec(before[i], Vec(lo, hi)));
      s[i] := XorVec(s[i], Vec(lo, hi));
      assert s[..] == before[i := XorVec(before[i], Vec(lo, hi))];
    }

    /** keccakx2_absorb: both halves start from zero and absorb and pad their own message.  The last load may read bytes past
        the end of a message; whatever they are, the mask drops them. */
    method Absorb2(in0: Bytes, in1: Bytes, past0: Bytes, past1: Bytes, p: byte)
      requires Valid() && |in0| == |in1| && |past0| >= 8 && |past1| >= 8
      modifies s
      ensures Low(s[..]) == Finalize(r, Absorb(f, r, Inc(Zero, 0), in0), p)
      ensures High(s[..]) == Finalize(r, Absorb(f, r, Inc(Zero, 0), in1), p)
    {
      hide Absorb, XorBytes, Low, High, Finalize, Holds;
      for k := 0 to 25
        invariant forall j | 0 <= j < k :: s[j] == Vec(0, 0)
      {
        s[k] := Vec(0, 0);
      }
      ZeroHalves(s[..]);
      var pos := AbsorbBlocks(in0, in1);
      FinishTail(in0, in1, past0, past1, pos, p);
    }

    /** The tail after the whole blocks, and the padding. */
    method FinishTail(in0: Bytes, in1: Bytes, past0: Bytes, past1: Bytes, pos: nat, p: byte)
      requires Valid() && |in0| == |in1| && |past0| >= 8 && |past1| >= 8 && pos <= |in0| < pos + r
      requires Inc(Low(s[..]), 0) == Absorb(f, r, Inc(Zero, 0), in0[..pos])
      requires Inc(High(s[..]), 0) == Absorb(f, r, Inc(Zero, 0), in1[..pos])
      modifies s
      ensures Low(s[..]) == Finalize(r, Absorb(f, r, Inc(Zero, 0), in0), p)
      ensures High(s[..]) == Finalize(r, Absorb(f, r, Inc(Zero, 0), in1), p)
    {
      hide Absorb, XorBytes, Low, High, Finalize, Holds, LoadPrefix, ShlByte, Amount, Xor;
      ghost var s0 := s[..];
      var i := XorTailLanes(in0, in1, pos);
      HoldsHalves(s0, s[..], in0, in1, pos, 8 * i);
      TailFinal(f, r, Low(s0), in0, pos, i, p);
      TailFinal(f, r, High(s0), in1, pos, i, p);
      var left := |in0| - (pos + 8 * i);
      XorLastBytes(in0, in1, past0, past1, i, left);
      XorDup(i, ShlByte(p, Amount(left)), ShlByte(p, Amount(left)));
      XorDup(r / 8 - 1, ShlByte(0x80, Amount(7)), ShlByte(0x80, Amount(7)));
    }

    /** Stores the lanes below the rate, unzipped in groups of four and then the last one. */
    method StoreBlock() returns (out0: Bytes, out1: Bytes)
      requires Valid()
      ensures |out0| == r && forall i | 0 <= i < r :: out0[i] == ByteAt(Low(s[..]), i)
      ensures |out1| == r && forall i | 0 <= i < r :: out1[i] == ByteAt(High(s[..]), i)
    {
      hide LaneBytes, Low, High, ByteAt;
      out0, out1 := [], [];
      var i := 0;
      while i < r / 8 - 1
        invariant 0 <= i <= r / 8 - 1 && i % 4 == 0
        invariant Stored(out0, Low(s[..]), i) && Stored(out1, High(s[..]), i)
      {
        var a0, b0 := Zip1(s[i], s[i + 1]), Zip2(s[i], s[i + 1]);
        var a1, b1 := Zip1(s[i + 2], s[i + 3]), Zip2(s[i + 2], s[i + 3]);
        FourStored(out0, out1, s[..], i);
        out0 := out0 + LaneBytes(a0.lo) + LaneBytes(a0.hi) + LaneBytes(a1.lo) + LaneBytes(a1.hi);
        out1 := out1 + LaneBytes(b0.lo) + LaneBytes(b0.hi) + LaneBytes(b1.lo) + LaneBytes(b1.hi);
        i := i + 4;
      }
      OneStored(out0, out1, s[..], i);
      out0, out1 := out0 + LaneBytes(s[i].lo), out1 + LaneBytes(s[i].hi);
    }

    /** keccakx2_squeezeblocks. */
    method SqueezeBlocks(nblocks: nat) returns (out0: Bytes, out1: Bytes)
      requires Valid()
      modifies s
      ensures (Sq(Low(s[..]), 0), out0) == Squeeze(f, r, Sq(old(Low(s[..])), 0), nblocks * r)
      ensures (Sq(High(s[..]), 0), out1) == Squeeze(f, r, Sq(old(High(s[..])), 0), nblocks * r)
    {
      hide ByteAt, Squeeze, Low, High;
      ghost var q0, q1 := Sq(Low(s[..]), 0), Sq(High(s[..]), 0);
      out0, out1 := [], [];
      SqueezeNothing(f, r, q0);
      SqueezeNothing(f, r, q1);
      for n := 0 to nblocks
        invariant |out0| == n * r && (Sq(Low(s[..]), 0), out0) == Squeeze(f, r, q0, n * r)
        invariant |out1| == n * r && (Sq(High(s[..]), 0), out1) == Squeeze(f, r, q1, n * r)
      {
        ghost var l, h := Low(s[..]), High(s[..]);
        Permute();
        var b0, b1 := StoreBlock();
        SqueezeOneBlock(f, r, q0, out0, l, b0);
        SqueezeOneBlock(f, r, q1, out1, h, b1);
        out0, out1 := out0 + b0, out1 + b1;
        assert (n + 1) * r == n * r + r;
      }
    }

    /** The bytes of the last, incomplete lane. */
    method XorLastBytes(in0: Bytes, in1: Bytes, past0: Bytes, past1: Bytes, i: nat, left: nat)
      requires Valid() && i < 25 && left < 8 && |in0| == |in1| && left <= |in0| && |past0| >= 8 && |past1| >= 8
      modifies s
      ensures Low(s[..]) == XorBytes(old(Low(s[..])), 8 * i, in0[|in0| - left..])
      ensures High(s[..]) == XorBytes(old(High(s[..])), 8 * i, in1[|in1| - left..])
    {
      hide XorBytes, Low, High, LoadPrefix, And, MaskBelow;
      if left > 0 {
        var at := |in0| - left;
        var a, b := LaneAt(in0 + past0, at), LaneAt(in1 + past1, at);
        var mask := MaskBelow(Amount(left));
        LastLane(Low(s[..]), in0, past0, i, left);
        LastLane(High(s[..]), in1, past1, i, left);
        XorDup(i, And(a, mask), And(b, mask));
      } else {
        assert XorBytes(Low(s[..]), 8 * i, in0[|in0|..]) == Low(s[..]) by { XorNothing(Low(s[..]), 8 * i, in0[|in0|..]); }
        assert XorBytes(High(s[..]), 8 * i, in1[|in1|..]) == High(s[..]) by { XorNothing(High(s[..]), 8 * i, in1[|in1|..]); }
      }
    }
  }

  /** The bytes of the first n lanes. */
  ghost predicate Stored(out: Bytes, l: Lanes, n: nat) {
    |l| == 25 && n <= 25 && |out| == 8 * n && forall i | 0 <= i < 8 * n :: out[i] == ByteAt(l, i)
  }

  lemma StoreNext(out: Bytes, l: Lanes, n: nat)
    requires Stored(out, l, n) && n < 25
    ensures Stored(out + LaneBytes(l[n]), l, n + 1)
  {
    hide LaneByte;
    forall i | 8 * n <= i < 8 * n + 8 ensures (out + LaneBytes(l[n]))[i] == ByteAt(l, i) {
      LaneOf(n, i - 8 * n);
    }
  }

  lemma OneStored(out0: Bytes, out1: Bytes, s: seq<Vec>, n: nat)
    requires |s| == 25 && n < 25 && Stored(out0, Low(s), n) && Stored(out1, High(s), n)
    ensures Stored(out0 + LaneBytes(s[n].lo), Low(s), n + 1) && Stored(out1 + LaneBytes(s[n].hi), High(s), n + 1)
  {
    hide LaneBytes, Low, High, Stored;
    HalvesAt(s, n);
    StoreNext(out0, Low(s), n);
    StoreNext(out1, High(s), n);
  }

  lemma FourStored(out0: Bytes, out1: Bytes, s: seq<Vec>, n: nat)
    requires |s| == 25 && n + 4 <= 25 && Stored(out0, Low(s), n) && Stored(out1, High(s), n)
    ensures Stored(out0 + LaneBytes(s[n].lo) + LaneBytes(s[n + 1].lo) + LaneBytes(s[n + 2].lo) + LaneBytes(s[n + 3].lo), Low(s), n + 4)
    ensures Stored(out1 + LaneBytes(s[n].hi) + LaneBytes(s[n + 1].hi) + LaneBytes(s[n + 2].hi) + LaneBytes(s[n + 3].hi), High(s), n + 4)
  {
    hide LaneBytes, Low, High, Stored;
    OneStored(out0, out1, s, n);
    var a0, a1 := out0 + LaneBytes(s[n].lo), out1 + LaneBytes(s[n].hi);
    OneStored(a0, a1, s, n + 1);
    var b0, b1 := a0 + LaneBytes(s[n + 1].lo), a1 + LaneBytes(s[n + 1].hi);
    OneStored(b0, b1, s, n + 2);
    OneStored(b0 + LaneBytes(s[n + 2].lo), b1 + LaneBytes(s[n + 2].hi), s, n + 3);
  }

  lemma ZeroHalves(s: seq<Vec>)
    requires |s| == 25 && forall j | 0 <= j < 25 :: s[j] == Vec(0, 0)
    ensures Low(s) == Zero && High(s) == Zero
  {
  }

  lemma HoldsHalves(s0: seq<Vec>, s: seq<Vec>, in0: Bytes, in1: Bytes, pos: nat, n: nat)
    requires |s0| == 25 && |in0| == |in1| && pos + n <= |in0| && n <= 200 && Holds(s0, s, in0, in1, pos, n)
    ensures Low(s) == XorBytes(Low(s0), 0, in0[pos..pos + n]) && High(s) == XorBytes(High(s0), 0, in1[pos..pos + n])
  {
  }

  lemma AmountIsAligned(n: nat)
    requires n < 8
    ensures Amount(n) & 7 == 0
  {
  }

  lemma AmountGrows(n: nat, k: nat)
    requires n <= k < 8
    ensures Amount(n) <= Amount(k)
  {
  }

  /** Masking a loaded lane to its low n bytes is loading only them. */
  lemma {:induction false} MaskedPrefix(x: Bytes, n: nat, k: nat)
    requires |x| >= 8 && n <= k <= 8 && n < 8
    ensures And(LoadPrefix(x, k), MaskBelow(Amount(n))) == LoadPrefix(x, n)
    decreases k
  {
    if k == n {
      LoadBelow(x, n);
      AmountIsAligned(n);
      hide And, Or, MaskBelow, ShlByte, Amount, Shr;
      MaskKeeps(LoadPrefix(x, n), Amount(n));
    } else {
      hide And, Or, MaskBelow, ShlByte, Amount, Shr;
      MaskedPrefix(x, n, k - 1);
      AmountGrows(n, k - 1);
      MaskDrops(LoadPrefix(x, k - 1), x[k - 1], Amount(n), Amount(k - 1));
    }
  }

  lemma {:induction false} LastLane(s: Lanes, m: Bytes, past: Bytes, i: nat, left: nat)
    requires |s| == 25 && i < 25 && 0 < left < 8 && left <= |m| && |past| >= 8
    ensures s[i := Xor(s[i], And(LaneAt(m + past, |m| - left), MaskBelow(Amount(left))))]
         == XorBytes(s, 8 * i, m[|m| - left..])
  {
    hide Xor, And, MaskBelow, LoadPrefix, XorBytes, Amount;
    var x := (m + past)[|m| - left..|m| - left + 8];
    MaskedPrefix(x, left, 8);
    XorLoadPrefix(s, i, x, left);
    assert x[..left] == m[|m| - left..];
  }

  /** The tail bytes, the domain byte and the last bit make the finalized state of the whole message. */
  lemma {:induction false} TailFinal(f: Permutation, r: nat, s: Lanes, m: Bytes, pos: nat, i: nat, p: byte)
    requires KeepsSize(f) && Rate(r) && |s| == 25 && pos <= |m| < pos + r && i == (|m| - pos) / 8
    requires Inc(s, 0) == Absorb(f, r, Inc(Zero, 0), m[..pos])
    ensures i < r / 8 && r / 8 <= 25
    ensures var t := XorBytes(XorBytes(s, 0, m[pos..pos + 8 * i]), 8 * i, m[pos + 8 * i..]);
            var left := |m| - pos - 8 * i;
            var u := t[i := Xor(t[i], ShlByte(p, Amount(left)))];
            u[r / 8 - 1 := Xor(u[r / 8 - 1], ShlByte(0x80, Amount(7)))] == Finalize(r, Absorb(f, r, Inc(Zero, 0), m), p)
  {
    hide Absorb, XorBytes, Xor, ShlByte, Amount;
    var tail := m[pos..];
    XorBytesConcat(s, 0, m[pos..pos + 8 * i], m[pos + 8 * i..]);
    assert m[pos..pos + 8 * i] + m[pos + 8 * i..] == tail;
    AbsorbWithinBlock(f, r, Inc(s, 0), tail);
    AbsorbConcat(f, r, Inc(Zero, 0), m[..pos], tail);
    assert m[..pos] + tail == m;
    LaneOf(i, |m| - pos - 8 * i);
    LaneOf(r / 8 - 1, 7);
  }

  lemma {:induction false} BlockAbsorbed(f: Permutation, r: nat, s: Lanes, m: Bytes, pos: nat)
    requires KeepsSize(f) && Rate(r) && |s| == 25 && pos + r <= |m|
    requires Inc(s, 0) == Absorb(f, r, Inc(Zero, 0), m[..pos])
    ensures Inc(f(XorBytes(s, 0, m[pos..pos + r])), 0) == Absorb(f, r, Inc(Zero, 0), m[..pos + r])
  {
    hide Absorb, XorBytes;
    AbsorbWithinBlock(f, r, Inc(s, 0), m[pos..pos + r]);
    AbsorbConcat(f, r, Inc(Zero, 0), m[..pos], m[pos..pos + r]);
    assert m[..pos] + m[pos..pos + r] == m[..pos + r];
  }

  lemma NothingYet(s: seq<Vec>, in0: Bytes, in1: Bytes, pos: nat)
    requires |s| == 25 && |in0| == |in1| && pos <= |in0|
    ensures Holds(s, s, in0, in1, pos, 0)
  {
    hide Low, High;
    XorNothing(Low(s), 0, in0[pos..pos + 0]);
    XorNothing(High(s), 0, in1[pos..pos + 0]);
  }

  /** shake128x2 and shake256x2: each output is the scalar function of its own input. */
  method ShakeTwo(f: Permutation, r: nat, in0: Bytes, in1: Bytes, past0: Bytes, past1: Bytes, outlen: nat)
    returns (out0: Bytes, out1: Bytes)
    requires KeepsSize(f) && FourPlusOne(r) && |in0| == |in1| && |past0| >= 8 && |past1| >= 8
    ensures out0 == Xof(f, r, 0x1F, in0, outlen) && out1 == Xof(f, r, 0x1F, in1, outlen)
  {
    hide Squeeze, Absorb, Finalize, Low, High;
    var nblocks := outlen / r;
    var c := new TwoWay(f, r);
    c.Absorb2(in0, in1, past0, past1, 0x1F);
    ghost var q0, q1 := Sq(Low(c.s[..]), 0), Sq(High(c.s[..]), 0);
    out0, out1 := c.SqueezeBlocks(nblocks);
    var rest := outlen - nblocks * r;
    if rest > 0 {
      ghost var m0, m1 := Sq(Low(c.s[..]), 0), Sq(High(c.s[..]), 0);
      var t0, t1 := c.SqueezeBlocks(1);
      CutBlock(f, r, q0, nblocks * r, m0, out0, rest, t0);
      CutBlock(f, r, q1, nblocks * r, m1, out1, rest, t1);
      out0, out1 := out0 + t0[..rest], out1 + t1[..rest];
    }
  }

  /** The beginning of one more block continues what has been squeezed. */
  lemma CutBlock(f: Permutation, r: nat, q: Sq, n: nat, m: Sq, out: Bytes, rest: nat, t: Bytes)
    requires KeepsSize(f) && Rate(r) && SqReady(r, q) && SqReady(r, m) && rest < r
    requires Squeeze(f, r, q, n) == (m, out) && Squeeze(f, r, m, 1 * r).1 == t
    ensures rest <= |t| && Squeeze(f, r, q, n + rest).1 == out + t[..rest]
  {
    hide Squeeze;
    SqueezePrefix(f, r, m, rest, 1 * r);
    SqueezeConcat(f, r, q, n, rest);
  }
}
