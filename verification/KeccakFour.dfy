/** The four-way Keccak state: 25 vectors of four lanes, one lane of each instance.  Byte operations on one instance leave the
    others alone, and the transposing lane operations are the lane-by-lane ones. */
module KeccakFour {
  import opened Arith
  import opened Primitives
  import opened Words
  import opened Sponge
  import opened SpongeContext

  /** A 256-bit vector of four words. */
  datatype Vec4 = Vec4(w0: word, w1: word, w2: word, w3: word)

  function Get(v: Vec4, j: nat): word
    requires j < 4
  {
    match j case 0 => v.w0 case 1 => v.w1 case 2 => v.w2 case 3 => v.w3
  }

  function Put(v: Vec4, j: nat, w: word): Vec4
    requires j < 4
  {
    match j case 0 => v.(w0 := w) case 1 => v.(w1 := w) case 2 => v.(w2 := w) case 3 => v.(w3 := w)
  }

  function XorVec(a: Vec4, b: Vec4): Vec4 { Vec4(Xor(a.w0, b.w0), Xor(a.w1, b.w1), Xor(a.w2, b.w2), Xor(a.w3, b.w3)) }

  /** The lanes of one instance. */
  function Instance(s: seq<Vec4>, j: nat): (l: Lanes)
    requires j < 4
    ensures |l| == |s|
  {
    seq(|s|, i requires 0 <= i < |s| => Get(s[i], j))
  }

  // ------------------------------------------------------------------ transposition

  datatype Quad = Quad(v0: Vec4, v1: Vec4, v2: Vec4, v3: Vec4)

  function UnpackLow(a: Vec4, b: Vec4): Vec4 { Vec4(a.w0, b.w0, a.w2, b.w2) }

  function UnpackHigh(a: Vec4, b: Vec4): Vec4 { Vec4(a.w1, b.w1, a.w3, b.w3) }

  /** PERM128 with selector 0x20: the two low halves. */
  function LowHalves(a: Vec4, b: Vec4): Vec4 { Vec4(a.w0, a.w1, b.w0, b.w1) }

  /** PERM128 with selector 0x31: the two high halves. */
  function HighHalves(a: Vec4, b: Vec4): Vec4 { Vec4(a.w2, a.w3, b.w2, b.w3) }

  function Intleave(q: Quad): Quad {
    var l01, h01 := LowHalves(q.v0, q.v2), LowHalves(q.v1, q.v3);
    var l23, h23 := HighHalves(q.v0, q.v2), HighHalves(q.v1, q.v3);
    // SHUFFLE64 with 0x00 and 0x0F picks the even and the odd words of both, as unpacking does
    Quad(UnpackLow(l01, h01), UnpackHigh(l01, h01), UnpackLow(l23, h23), UnpackHigh(l23, h23))
  }

  function Unintleave(q: Quad): Quad {
    var l01, h01 := UnpackLow(q.v0, q.v1), UnpackHigh(q.v0, q.v1);
    var l23, h23 := UnpackLow(q.v2, q.v3), UnpackHigh(q.v2, q.v3);
    Quad(LowHalves(l01, l23), LowHalves(h01, h23), HighHalves(l01, l23), HighHalves(h01, h23))
  }

  function Row(q: Quad, i: nat): Vec4
    requires i < 4
  {
    match i case 0 => q.v0 case 1 => q.v1 case 2 => q.v2 case 3 => q.v3
  }

  /** Both shuffles are the transposition of a four by four matrix. */
  lemma BothTranspose(q: Quad, i: nat, j: nat)
    requires i < 4 && j < 4
    ensures Get(Row(Intleave(q), i), j) == Get(Row(q, j), i) && Get(Row(Unintleave(q), i), j) == Get(Row(q, j), i)
  {
  }

  lemma UnintleaveUndoesIntleave(q: Quad)
    ensures Unintleave(Intleave(q)) == q && Intleave(Unintleave(q)) == q
  {
  }

  // ------------------------------------------------------------------ lanes and bytes

  /** A lane holding b from byte o on, zero elsewhere: memcpy into a zeroed lane. */
  function Placed(b: Bytes, o: nat): word
    requires o + |b| <= 8
  {
    LoadPrefix(Zeros(o) + b + Zeros(8 - o - |b|), 8)
  }

  /** Xoring such a lane in is xoring the bytes in at their place. */
  lemma {:induction false} PlacedXor(s: Lanes, k: nat, b: Bytes, o: nat)
    requires |s| == 25 && k < 25 && o + |b| <= 8
    ensures s[k := Xor(s[k], Placed(b, o))] == XorBytes(s, 8 * k + o, b)
  {
    hide Xor, LoadPrefix, XorBytes;
    var z := Zeros(8 - o - |b|);
    var x := Zeros(o) + b + z;
    XorLoadPrefix(s, k, x, 8);
    assert x[..8] == x;
    XorBytesConcat(s, 8 * k, Zeros(o) + b, z);
    XorBytesConcat(s, 8 * k, Zeros(o), b);
    XorZeros(s, 8 * k, o);
    XorZeros(XorBytes(s, 8 * k + o, b), 8 * k + o + |b|, |z|);
  }

  lemma InstanceUpdate(s: seq<Vec4>, k: nat, v: Vec4, j: nat)
    requires k < |s| && j < 4
    ensures Instance(s[k := v], j) == Instance(s, j)[k := Get(v, j)]
  {
    hide Get;
  }

  lemma PutGet(v: Vec4, j: nat, w: word, i: nat)
    requires j < 4 && i < 4
    ensures Get(Put(v, j, w), i) == if i == j then w else Get(v, i)
  {
  }

  class FourWay {
    const f: Permutation
    const s: array<Vec4>

    ghost predicate Valid() { KeepsSize(f) && s.Length == 25 }

    constructor (f: Permutation)
      requires KeepsSize(f)
      ensures Valid() && fresh(s) && this.f == f && forall j | 0 <= j < 4 :: Instance(s[..], j) == Zero
    {
      this.f := f;
      s := new Vec4[25](_ => Vec4(0, 0, 0, 0));
    }

    /** One lane of one instance. */
    method XorLane(j: nat, k: nat, w: word)
      requires Valid() && j < 4 && k < 25
      modifies s
      ensures forall i | 0 <= i < 4 ::
                Instance(s[..], i) == if i == j then old(Instance(s[..], j))[k := Xor(old(Instance(s[..], j))[k], w)]
                                      else old(Instance(s[..], i))
    {
      hide Xor, Get, Put;
      ghost var before := s[..];
      var v := Put(s[k], j, Xor(Get(s[k], j), w));
      s[k] := v;
      assert s[..] == before[k := v];
      forall i | 0 <= i < 4
        ensures Instance(s[..], i) == if i == j then Instance(before, j)[k := Xor(Instance(before, j)[k], w)] else Instance(before, i)
      {
        InstanceUpdate(before, k, v, i);
        PutGet(before[k], j, Xor(Get(before[k], j), w), i);
      }
    }

    /** AddBytes: a partial lane, whole lanes, a partial lane. */
    method AddBytes(j: nat, data: Bytes, offset: nat)
      requires Valid() && j < 4 && offset + |data| <= 200
      modifies s
      ensures forall i | 0 <= i < 4 ::
                Instance(s[..], i) == if i == j then XorBytes(old(Instance(s[..], j)), offset, data) else old(Instance(s[..], i))
    {
      hide Xor, XorBytes, Instance, LoadPrefix, Placed;
      ghost var s0 := Instance(s[..], j);
      var done, k, o := 0, offset / 8, offset % 8;
      assert XorBytes(s0, offset, data[..0]) == s0 by { XorNothing(s0, offset, data[..0]); }
      if |data| > 0 && o != 0 {
        var n := if 8 - o > |data| then |data| else 8 - o;
        AddStep(s0, offset, data, 0, k, o, n);
        XorLane(j, k, Placed(data[0..n], o));
        done, k := n, k + 1;
      }
      while |data| - done >= 8
        invariant 0 <= done <= |data| && (done < |data| ==> 8 * k == offset + done)
        invariant forall i | 0 <= i < 4 ::
                    Instance(s[..], i) == if i == j then XorBytes(s0, offset, data[..done]) else old(Instance(s[..], i))
      {
        AddStep(s0, offset, data, done, k, 0, 8);
        XorLane(j, k, Placed(data[done..done + 8], 0));
        done, k := done + 8, k + 1;
      }
      if done < |data| {
        AddStep(s0, offset, data, done, k, 0, |data| - done);
        XorLane(j, k, Placed(data[done..done + (|data| - done)], 0));
        done := |data|;
      }
      assert data[..|data|] == data;
    }

    /** Xor_In: lane i of all four streams. */
    method XorColumn(data: Bytes, p: nat, i: nat)
      requires Valid() && i < 25 && Start(p, 3) + 8 * i + 8 <= |data|
      modifies s
      ensures s[..] == WithColumn(old(s[..]), data, p, i)
    {
      hide XorVec, LaneAt;
      s[i] := XorVec(s[i], Column(data, p, i));
    }

    /** Xor_In4: four lanes of each stream loaded as one vector, transposed, and xored into four vectors of the state. */
    method XorFourColumns(data: Bytes, p: nat, i: nat)
      requires Valid() && i + 4 <= 25 && Start(p, 3) + 8 * i + 32 <= |data|
      modifies s
      ensures s[..] == WithColumn(WithColumn(WithColumn(WithColumn(old(s[..]), data, p, i), data, p, i + 1), data, p, i + 2), data, p, i + 3)
    {
      hide XorVec, LaneAt;
      var q := Quad(FourLanes(data, Start(p, 0) + 8 * i), FourLanes(data, Start(p, 1) + 8 * i),
                    FourLanes(data, Start(p, 2) + 8 * i), FourLanes(data, Start(p, 3) + 8 * i));
      var t := Intleave(q);
      assert t == Quad(Column(data, p, i), Column(data, p, i + 1), Column(data, p, i + 2), Column(data, p, i + 3));
      s[i] := XorVec(s[i], t.v0);
      s[i + 1] := XorVec(s[i + 1], t.v1);
      s[i + 2] := XorVec(s[i + 2], t.v2);
      s[i + 3] := XorVec(s[i + 3], t.v3);
    }

    /** The columns of the transposing part, then one by one: each instance gets its own stream. */
    method AddLanesAll(data: Bytes, laneCount: nat, p: nat)
      requires Valid() && laneCount <= 25 && Start(p, 3) + 8 * laneCount <= |data|
      modifies s
      ensures Added(old(s[..]), s[..], data, p, laneCount)
    {
      hide Added, WithColumn;
      ghost var s0 := s[..];
      NothingAdded(s0, data, p);
      var i := 0;
      if laneCount >= 16 {
        AddFour(data, p, 0, s0);
        AddFour(data, p, 4, s0);
        AddFour(data, p, 8, s0);
        AddFour(data, p, 12, s0);
        i := 16;
        if laneCount >= 20 {
          AddFour(data, p, 16, s0);
          i := 20;
        }
      }
      while i < laneCount
        invariant i <= laneCount && Added(s0, s[..], data, p, i)
      {
        ColumnAdds(s0, s[..], data, p, i);
        XorColumn(data, p, i);
        i := i + 1;
      }
    }

    method AddFour(data: Bytes, p: nat, i: nat, ghost s0: seq<Vec4>)
      requires Valid() && i + 4 <= 25 && Start(p, 3) + 8 * i + 32 <= |data| && |s0| == 25
      requires Added(s0, s[..], data, p, i)
      modifies s
      ensures Added(s0, s[..], data, p, i + 4)
    {
      hide Added, WithColumn;
      ghost var a := s[..];
      ColumnAdds(s0, a, data, p, i);
      ghost var b := WithColumn(a, data, p, i);
      ColumnAdds(s0, b, data, p, i + 1);
      ghost var c := WithColumn(b, data, p, i + 1);
      ColumnAdds(s0, c, data, p, i + 2);
      ColumnAdds(s0, WithColumn(c, data, p, i + 2), data, p, i + 3);
      XorFourColumns(data, p, i);
    }

    /** ExtractBytes: a partial lane, whole lanes, a partial lane. */
    method ExtractBytes(j: nat, offset: nat, length: nat) returns (out: Bytes)
      requires Valid() && j < 4 && offset + length <= 200
      ensures out == BytesAt(Instance(s[..], j), offset, length)
    {
      hide Instance, LaneBytes, Get;
      out := [];
      var k, o := offset / 8, offset % 8;
      ghost var l := Instance(s[..], j);
      if length > 0 && o != 0 {
        var n := if 8 - o > length then length else 8 - o;
        LaneOfInstance(s[..], j, k);
        ExtractStep(l, offset, out, k, o, n);
        out := LaneBytes(Get(s[k], j))[o..o + n];
        k := k + 1;
      }
      while length - |out| >= 8
        invariant |out| <= length && (|out| < length ==> 8 * k == offset + |out|) && out == BytesAt(l, offset, |out|)
        decreases length - |out|
      {
        LaneOfInstance(s[..], j, k);
        ExtractStep(l, offset, out, k, 0, 8);
        out := out + LaneBytes(Get(s[k], j))[0..8];
        k := k + 1;
      }
      if |out| < length {
        LaneOfInstance(s[..], j, k);
        ExtractStep(l, offset, out, k, 0, length - |out|);
        out := out + LaneBytes(Get(s[k], j))[0..length - |out|];
      }
    }

    /** Extr: lane i of all four instances. */
    method ExtractColumn(i: nat, p: nat, data: array<byte>, ghost d0: Bytes, ghost out: Four) returns (ghost out': Four)
      requires Valid() && i < p && i < 25 && Start(p, 3) + 8 * i + 8 <= data.Length
      requires Extracted(s[..], out, i) && Laid(d0, data[..], p, out, 8 * i)
      modifies data
      ensures Extracted(s[..], out', i + 1) && Laid(d0, data[..], p, out', 8 * (i + 1))
    {
      hide LaneBytes, Extracted, Laid;
      OneExtracted(s[..], out, i);
      var v := s[i];
      var add := Four(LaneBytes(v.w0), LaneBytes(v.w1), LaneBytes(v.w2), LaneBytes(v.w3));
      StoreFour(data, p, 8 * i, add, 8, d0, out);
      out' := Join(out, add);
    }

    /** Extr4: four vectors transposed, so that each holds four neighbouring lanes of one instance. */
    method ExtractFour(i: nat, p: nat, data: array<byte>, ghost d0: Bytes, ghost out: Four) returns (ghost out': Four)
      requires Valid() && i + 4 <= p && i + 4 <= 25 && Start(p, 3) + 8 * i + 32 <= data.Length
      requires Extracted(s[..], out, i) && Laid(d0, data[..], p, out, 8 * i)
      modifies data
      ensures Extracted(s[..], out', i + 4) && Laid(d0, data[..], p, out', 8 * (i + 4))
    {
      hide LaneBytes, Extracted, Laid;
      var q := Unintleave(Quad(s[i], s[i + 1], s[i + 2], s[i + 3]));
      var add := Four(VecBytes(q.v0), VecBytes(q.v1), VecBytes(q.v2), VecBytes(q.v3));
      StoreFour(data, p, 8 * i, add, 32, d0, out);
      out' := Join(out, add);
      FourExtracted(s[..], out, i, out');
    }

    /** The first lanes of every instance, each to its own stream of the buffer; the streams are `p` lanes apart and do not
        overlap, and nothing else in the buffer changes. */
    method ExtractLanesAll(laneCount: nat, p: nat, data: array<byte>)
      requires Valid() && laneCount <= 25 && laneCount <= p && Start(p, 3) + 8 * laneCount <= data.Length
      modifies data
      ensures forall j | 0 <= j < 4 ::
                data[Start(p, j)..Start(p, j) + 8 * laneCount] == BytesAt(Instance(s[..], j), 0, 8 * laneCount)
      ensures forall k | 0 <= k < data.Length && Outside(p, 8 * laneCount, k) :: data[k] == old(data[k])
    {
      hide Extracted, Laid;
      ghost var d0, out := data[..], Four([], [], [], []);
      NothingExtracted(s[..]);
      NothingLaid(d0, p);
      var i := 0;
      if laneCount >= 16 {
        out := ExtractFour(0, p, data, d0, out);
        out := ExtractFour(4, p, data, d0, out);
        out := ExtractFour(8, p, data, d0, out);
        out := ExtractFour(12, p, data, d0, out);
        i := 16;
        if laneCount >= 20 {
          out := ExtractFour(16, p, data, d0, out);
          i := 20;
        }
      }
      while i < laneCount
        invariant i <= laneCount && Extracted(s[..], out, i) && Laid(d0, data[..], p, out, 8 * i)
      {
        out := ExtractColumn(i, p, data, d0, out);
        i := i + 1;
      }
      LaidOut(s[..], d0, data[..], p, out, laneCount);
    }

    /** Every instance through the permutation. */
    method PermuteAll()
      requires Valid()
      modifies s
      ensures forall j | 0 <= j < 4 :: Instance(s[..], j) == f(old(Instance(s[..], j)))
    {
      var l0, l1, l2, l3 := f(Instance(s[..], 0)), f(Instance(s[..], 1)), f(Instance(s[..], 2)), f(Instance(s[..], 3));
      forall i | 0 <= i < 25 { s[i] := Vec4(l0[i], l1[i], l2[i], l3[i]); }
      assert Instance(s[..], 0) == l0 && Instance(s[..], 1) == l1 && Instance(s[..], 2) == l2 && Instance(s[..], 3) == l3;
    }

    /** FastLoop_Absorb: with 21 lanes the columns are xored in one by one, otherwise through AddLanesAll; each instance
        absorbs the blocks of its own stream either way. The lengths allowed are those for which the loop ends within the
        data (StaysExactly). */
    method FastLoopAbsorb(laneCount: nat, p: nat, serial: nat, data: Bytes) returns (consumed: nat)
      requires Valid() && laneCount <= 25 && Stays(|data|, Start(p, 3) + 8 * laneCount, 8 * serial)
      modifies s
      ensures consumed <= |data| && |data| - consumed < Start(p, 3) + 8 * laneCount
      ensures consumed == 0 || (serial > 0 && consumed % (8 * serial) == 0)
      ensures forall j | 0 <= j < 4 :: Instance(s[..], j) == Absorbed(f, old(Instance(s[..], j)), data, laneCount, p, serial, j)
    {
      hide Instance, Absorbed, Added, XorBytes;
      consumed := 0;
      ghost var s0 := s[..];
      while |data| - consumed >= Start(p, 3) + 8 * laneCount
        invariant consumed <= |data| && Stays(|data| - consumed, Start(p, 3) + 8 * laneCount, 8 * serial)
        invariant consumed == 0 || (serial > 0 && consumed % (8 * serial) == 0)
        invariant forall j | 0 <= j < 4 ::
                    Absorbed(f, Instance(s0, j), data, laneCount, p, serial, j)
                    == Absorbed(f, Instance(s[..], j), data[consumed..], laneCount, p, serial, j)
        decreases |data| - consumed
      {
        ghost var before := s[..];
        var rest := data[consumed..];
        StepStays(|rest|, Start(p, 3) + 8 * laneCount, 8 * serial);
        if laneCount == 21 {
          NothingAdded(before, rest, p);
          for i := 0 to 21
            invariant Added(before, s[..], rest, p, i)
          {
            ColumnAdds(before, s[..], rest, p, i);
            XorColumn(rest, p, i);
          }
        } else {
          AddLanesAll(rest, laneCount, p);
        }

        ghost var mid := s[..];
        PermuteAll();
        BlocksAbsorbed(f, before, mid, s[..], rest, laneCount, p, serial);
        assert rest[8 * serial..] == data[consumed + 8 * serial..];
        if consumed > 0 { NextMultiple(consumed, 8 * serial); } else { DivUnique(8 * serial, 8 * serial, 1, 0); }
        consumed := consumed + 8 * serial;
      }
      forall j | 0 <= j < 4
        ensures Instance(s[..], j) == Absorbed(f, Instance(s[..], j), data[consumed..], laneCount, p, serial, j)
      {
        NoBlock(f, Instance(s[..], j), data[consumed..], laneCount, p, serial, j);
      }
    }
  }

  // ------------------------------------------------------------------ what extraction returns

  /** Bytes from .. from + n of a state. */
  function BytesAt(l: Lanes, from: nat, n: nat): (b: Bytes)
    requires |l| == 25 && from + n <= 200
    ensures |b| == n
  {
    seq(n, i requires 0 <= i < n => ByteAt(l, from + i))
  }

  lemma LaneOfInstance(s: seq<Vec4>, j: nat, k: nat)
    requires j < 4 && k < |s|
    ensures Instance(s, j)[k] == Get(s[k], j)
  {
  }

  lemma ExtractStep(l: Lanes, offset: nat, out: Bytes, k: nat, o: nat, n: nat)
    requires |l| == 25 && k < 25 && o + n <= 8 && offset + |out| + n <= 200 && 8 * k + o == offset + |out|
    requires out == BytesAt(l, offset, |out|)
    ensures out + LaneBytes(l[k])[o..o + n] == BytesAt(l, offset, |out| + n)
  {
    hide LaneByte;
    var b, e := out + LaneBytes(l[k])[o..o + n], BytesAt(l, offset, |out| + n);
    forall i | |out| <= i < |out| + n ensures b[i] == e[i] {
      var t := o + i - |out|;
      LaneOf(k, t);
      assert offset + i == 8 * k + t;
      assert e[i] == ByteAt(l, 8 * k + t) == LaneByte(l[k], t);
    }
    forall i | 0 <= i < |out| ensures b[i] == e[i] {
      assert out[i] == BytesAt(l, offset, |out|)[i] == ByteAt(l, offset + i);
    }
  }

  /** Four byte streams. */
  datatype Four = Four(b0: Bytes, b1: Bytes, b2: Bytes, b3: Bytes)

  function VecBytes(v: Vec4): Bytes { LaneBytes(v.w0) + LaneBytes(v.w1) + LaneBytes(v.w2) + LaneBytes(v.w3) }

  function Join(a: Four, b: Four): Four { Four(a.b0 + b.b0, a.b1 + b.b1, a.b2 + b.b2, a.b3 + b.b3) }

  predicate Lengths(a: Four, n: nat) { |a.b0| == n && |a.b1| == n && |a.b2| == n && |a.b3| == n }

  /** Index k lies in none of the first n bytes of the four streams. */
  predicate Outside(p: nat, n: nat, k: nat) {
    k >= n && !(8 * p <= k < 8 * p + n) && !(16 * p <= k < 16 * p + n) && !(24 * p <= k < 24 * p + n)
  }

  /** The buffer d is d0 with the n bytes of each stream in place. */
  ghost predicate Laid(d0: Bytes, d: Bytes, p: nat, out: Four, n: nat) {
    && |d| == |d0| && 24 * p + n <= |d| && Lengths(out, n)
    && d[..n] == out.b0 && d[8 * p..8 * p + n] == out.b1 && d[16 * p..16 * p + n] == out.b2 && d[24 * p..24 * p + n] == out.b3
    && forall k | 0 <= k < |d| && Outside(p, n, k) :: d[k] == d0[k]
  }

  lemma NothingLaid(d: Bytes, p: nat)
    requires 24 * p <= |d|
    ensures Laid(d, d, p, Four([], [], [], []), 0)
  {
  }

  /** Bytes copied into a buffer. */
  function Spliced(d: Bytes, at: nat, b: Bytes): (r: Bytes)
    requires at + |b| <= |d|
    ensures |r| == |d|
  {
    d[..at] + b + d[at + |b|..]
  }

  lemma SplicedAt(d: Bytes, at: nat, b: Bytes, k: nat)
    requires at + |b| <= |d| && k < |d|
    ensures Spliced(d, at, b)[k] == if at <= k < at + |b| then b[k - at] else d[k]
  {
  }

  method Store(data: array<byte>, at: nat, b: Bytes)
    requires at + |b| <= data.Length
    modifies data
    ensures data[..] == Spliced(old(data[..]), at, b)
  {
    forall i | 0 <= i < |b| { data[at + i] := b[i]; }
    assert data[..at] == old(data[..at]) && data[at..at + |b|] == b && data[at + |b|..] == old(data[at + |b|..]);
    assert data[..] == data[..at] + data[at..at + |b|] + data[at + |b|..];
  }

  /** Four stores, one behind what each stream has so far. */
  method StoreFour(data: array<byte>, p: nat, n: nat, add: Four, m: nat, ghost d0: Bytes, ghost out: Four)
    requires Lengths(add, m) && n + m <= 8 * p && 24 * p + n + m <= data.Length && Laid(d0, data[..], p, out, n)
    modifies data
    ensures Laid(d0, data[..], p, Join(out, add), n + m)
  {
    hide Spliced;
    ghost var d := data[..];
    Store(data, n, add.b0);
    Store(data, 8 * p + n, add.b1);
    Store(data, 16 * p + n, add.b2);
    Store(data, 24 * p + n, add.b3);
    FourSpliced(d0, d, p, out, n, add, m);
  }

  /** Byte k after m bytes of four streams were stored n bytes behind their starts. */
  function Overlaid(d: Bytes, p: nat, n: nat, add: Four, m: nat, k: nat): byte
    requires Lengths(add, m) && k < |d|
  {
    if n <= k < n + m then add.b0[k - n]
    else if 8 * p + n <= k < 8 * p + n + m then add.b1[k - 8 * p - n]
    else if 16 * p + n <= k < 16 * p + n + m then add.b2[k - 16 * p - n]
    else if 24 * p + n <= k < 24 * p + n + m then add.b3[k - 24 * p - n]
    else d[k]
  }

  function FourStores(d: Bytes, p: nat, n: nat, add: Four, m: nat): (r: Bytes)
    requires Lengths(add, m) && 24 * p + n + m <= |d|
    ensures |r| == |d|
  {
    Spliced(Spliced(Spliced(Spliced(d, n, add.b0), 8 * p + n, add.b1), 16 * p + n, add.b2), 24 * p + n, add.b3)
  }

  lemma FourStoresAt(d: Bytes, p: nat, n: nat, add: Four, m: nat, k: nat)
    requires Lengths(add, m) && n + m <= 8 * p && 24 * p + n + m <= |d| && k < |d|
    ensures FourStores(d, p, n, add, m)[k] == Overlaid(d, p, n, add, m, k)
  {
    hide Spliced;
    var r1 := Spliced(d, n, add.b0);
    var r2 := Spliced(r1, 8 * p + n, add.b1);
    var r3 := Spliced(r2, 16 * p + n, add.b2);
    SplicedAt(d, n, add.b0, k);
    SplicedAt(r1, 8 * p + n, add.b1, k);
    SplicedAt(r2, 16 * p + n, add.b2, k);
    SplicedAt(r3, 24 * p + n, add.b3, k);
  }

  function Nth(f: Four, j: nat): Bytes
    requires j < 4
  {
    match j case 0 => f.b0 case 1 => f.b1 case 2 => f.b2 case 3 => f.b3
  }

  lemma {:induction false} StreamLaid(d: Bytes, p: nat, n: nat, add: Four, m: nat, j: nat, b: Bytes)
    requires Lengths(add, m) && n + m <= 8 * p && 24 * p + n + m <= |d| && j < 4
    requires d[Start(p, j)..Start(p, j) + n] == b
    ensures FourStores(d, p, n, add, m)[Start(p, j)..Start(p, j) + n + m] == b + Nth(add, j)
  {
    hide FourStores, Overlaid;
    var r, at := FourStores(d, p, n, add, m), Start(p, j);
    forall k | at <= k < at + n + m ensures r[k] == if k < at + n then d[k] else Nth(add, j)[k - at - n] {
      FourStoresAt(d, p, n, add, m, k);
      OverlaidIn(d, p, n, add, m, j, k);
    }
    StreamGrows(d, r, at, n, b, Nth(add, j));
  }

  lemma OverlaidIn(d: Bytes, p: nat, n: nat, add: Four, m: nat, j: nat, k: nat)
    requires Lengths(add, m) && n + m <= 8 * p && 24 * p + n + m <= |d| && j < 4 && Start(p, j) <= k < Start(p, j) + n + m
    ensures |Nth(add, j)| == m
    ensures Overlaid(d, p, n, add, m, k) == if k < Start(p, j) + n then d[k] else Nth(add, j)[k - Start(p, j) - n]
  {
  }

  lemma OverlaidOutside(d: Bytes, p: nat, n: nat, add: Four, m: nat, k: nat)
    requires Lengths(add, m) && k < |d| && Outside(p, n + m, k)
    ensures Overlaid(d, p, n, add, m, k) == d[k] && Outside(p, n, k)
  {
  }

  lemma {:induction false} FourSpliced(d0: Bytes, d: Bytes, p: nat, out: Four, n: nat, add: Four, m: nat)
    requires Lengths(add, m) && n + m <= 8 * p && 24 * p + n + m <= |d| && Laid(d0, d, p, out, n)
    ensures Laid(d0, FourStores(d, p, n, add, m), p, Join(out, add), n + m)
  {
    hide FourStores, Overlaid, Outside;
    var r := FourStores(d, p, n, add, m);
    StreamLaid(d, p, n, add, m, 0, out.b0);
    StreamLaid(d, p, n, add, m, 1, out.b1);
    StreamLaid(d, p, n, add, m, 2, out.b2);
    StreamLaid(d, p, n, add, m, 3, out.b3);
    forall k | 0 <= k < |d| && Outside(p, n + m, k) ensures r[k] == d0[k] {
      FourStoresAt(d, p, n, add, m, k);
      OverlaidOutside(d, p, n, add, m, k);
    }
  }

  lemma StreamGrows(d: Bytes, r: Bytes, at: nat, n: nat, b: Bytes, add: Bytes)
    requires |r| == |d| && at + n + |add| <= |d| && d[at..at + n] == b
    requires forall k | at <= k < at + n :: r[k] == d[k]
    requires forall k | at + n <= k < at + n + |add| :: r[k] == add[k - at - n]
    ensures r[at..at + n + |add|] == b + add
  {
    assert r[at..at + n] == b && r[at + n..at + n + |add|] == add;
    assert r[at..at + n + |add|] == r[at..at + n] + r[at + n..at + n + |add|];
  }

  lemma LaidOut(s: seq<Vec4>, d0: Bytes, d: Bytes, p: nat, out: Four, n: nat)
    requires Extracted(s, out, n) && Laid(d0, d, p, out, 8 * n)
    ensures forall j | 0 <= j < 4 :: d[Start(p, j)..Start(p, j) + 8 * n] == BytesAt(Instance(s, j), 0, 8 * n)
    ensures forall k | 0 <= k < |d| && Outside(p, 8 * n, k) :: d[k] == d0[k]
  {
    hide BytesAt, Instance;
  }

  /** Each stream holds the first n lanes of its instance. */
  ghost predicate Extracted(s: seq<Vec4>, out: Four, n: nat) {
    && |s| == 25 && n <= 25
    && out.b0 == BytesAt(Instance(s, 0), 0, 8 * n) && out.b1 == BytesAt(Instance(s, 1), 0, 8 * n)
    && out.b2 == BytesAt(Instance(s, 2), 0, 8 * n) && out.b3 == BytesAt(Instance(s, 3), 0, 8 * n)
  }

  lemma NothingExtracted(s: seq<Vec4>)
    requires |s| == 25
    ensures Extracted(s, Four([], [], [], []), 0)
  {
    hide Instance;
  }

  lemma NextLane(s: seq<Vec4>, j: nat, out: Bytes, i: nat)
    requires |s| == 25 && i < 25 && j < 4 && out == BytesAt(Instance(s, j), 0, 8 * i)
    ensures out + LaneBytes(Get(s[i], j)) == BytesAt(Instance(s, j), 0, 8 * (i + 1))
  {
    hide LaneBytes, Instance, Get;
    LaneOfInstance(s, j, i);
    var b := LaneBytes(Get(s[i], j));
    ExtractStep(Instance(s, j), 0, out, i, 0, 8);
    assert b[0..0 + 8] == b;
  }

  lemma OneExtracted(s: seq<Vec4>, out: Four, i: nat)
    requires i < 25 && Extracted(s, out, i)
    ensures Extracted(s, Four(out.b0 + LaneBytes(s[i].w0), out.b1 + LaneBytes(s[i].w1),
                              out.b2 + LaneBytes(s[i].w2), out.b3 + LaneBytes(s[i].w3)), i + 1)
  {
    hide LaneBytes, Instance, BytesAt;
    NextLane(s, 0, out.b0, i);
    NextLane(s, 1, out.b1, i);
    NextLane(s, 2, out.b2, i);
    NextLane(s, 3, out.b3, i);
  }

  lemma FourExtracted(s: seq<Vec4>, out: Four, i: nat, out': Four)
    requires |s| == 25 && i + 4 <= 25 && Extracted(s, out, i)
    requires var q := Unintleave(Quad(s[i], s[i + 1], s[i + 2], s[i + 3]));
             out' == Four(out.b0 + VecBytes(q.v0), out.b1 + VecBytes(q.v1), out.b2 + VecBytes(q.v2), out.b3 + VecBytes(q.v3))
    ensures Extracted(s, out', i + 4)
  {
    hide LaneBytes, Extracted;
    OneExtracted(s, out, i);
    var a := Append(out, s[i]);
    OneExtracted(s, a, i + 1);
    var b := Append(a, s[i + 1]);
    OneExtracted(s, b, i + 2);
    var c := Append(b, s[i + 2]);
    OneExtracted(s, c, i + 3);
    Regroup(out.b0, LaneBytes(s[i].w0), LaneBytes(s[i + 1].w0), LaneBytes(s[i + 2].w0), LaneBytes(s[i + 3].w0));
    Regroup(out.b1, LaneBytes(s[i].w1), LaneBytes(s[i + 1].w1), LaneBytes(s[i + 2].w1), LaneBytes(s[i + 3].w1));
    Regroup(out.b2, LaneBytes(s[i].w2), LaneBytes(s[i + 1].w2), LaneBytes(s[i + 2].w2), LaneBytes(s[i + 3].w2));
    Regroup(out.b3, LaneBytes(s[i].w3), LaneBytes(s[i + 1].w3), LaneBytes(s[i + 2].w3), LaneBytes(s[i + 3].w3));
  }

  function Append(out: Four, v: Vec4): Four {
    Four(out.b0 + LaneBytes(v.w0), out.b1 + LaneBytes(v.w1), out.b2 + LaneBytes(v.w2), out.b3 + LaneBytes(v.w3))
  }

  lemma Regroup(o: Bytes, a: Bytes, b: Bytes, c: Bytes, d: Bytes)
    ensures o + (a + b + c + d) == o + a + b + c + d
  {
  }

  // ------------------------------------------------------------------ absorbing many blocks

  /** Steps of r bytes, taken while span bytes are left, end and never take more than is left. */
  predicate Stays(n: nat, span: nat, r: nat) {
    n < span || (0 < r && n % r < span)
  }

  /** What is left of n bytes after k steps of r bytes. */
  function Left(n: nat, r: nat, k: nat): int {
    n - k * r
  }

  /** Stays says exactly that: every step taken with span bytes left finds the r > 0 bytes it takes. */
  lemma StaysExactly(n: nat, span: nat, r: nat)
    ensures Stays(n, span, r) <==> forall k: nat :: Left(n, r, k) >= span ==> 0 < r <= Left(n, r, k)
  {
    if Stays(n, span, r) {
      forall k: nat | Left(n, r, k) >= span ensures 0 < r <= Left(n, r, k) {
        NoGain(r, k);
        if 0 < r && Left(n, r, k) < r { DivUnique(n, r, k, Left(n, r, k)); }
      }
    } else if r == 0 {
      assert Left(n, r, 0) == n;
    } else {
      assert Left(n, r, n / r) == n % r;
    }
  }

  lemma NoGain(r: nat, k: nat)
    ensures k * r >= 0
  {
  }

  /** One step keeps Stays. */
  lemma StepStays(n: nat, span: nat, r: nat)
    requires span <= n && Stays(n, span, r)
    ensures 0 < r <= n && Stays(n - r, span, r)
  {
    if n < r { DivUnique(n, r, 0, n); } else { ModDrop(n, r); }
  }

  /** One instance absorbing the blocks of its stream, while a whole round of four blocks is left. */
  ghost function Absorbed(f: Permutation, l: Lanes, data: Bytes, n: nat, p: nat, serial: nat, j: nat): Lanes
    requires KeepsSize(f) && |l| == 25 && n <= 25 && j < 4 && Stays(|data|, Start(p, 3) + 8 * n, 8 * serial)
    decreases |data|
  {
    if |data| < Start(p, 3) + 8 * n then l
    else
      StepStays(|data|, Start(p, 3) + 8 * n, 8 * serial);
      Absorbed(f, f(XorBytes(l, 0, data[Start(p, j)..Start(p, j) + 8 * n])), data[8 * serial..], n, p, serial, j)
  }

  lemma BlocksAbsorbed(f: Permutation, s: seq<Vec4>, mid: seq<Vec4>, t: seq<Vec4>, data: Bytes, n: nat, p: nat, serial: nat)
    requires KeepsSize(f) && |s| == 25 && |t| == 25 && n <= 25
    requires Start(p, 3) + 8 * n <= |data| && Stays(|data|, Start(p, 3) + 8 * n, 8 * serial) && 0 < 8 * serial <= |data|
    requires Stays(|data| - 8 * serial, Start(p, 3) + 8 * n, 8 * serial)
    requires Added(s, mid, data, p, n) && forall j | 0 <= j < 4 :: Instance(t, j) == f(Instance(mid, j))
    ensures forall j | 0 <= j < 4 ::
              Absorbed(f, Instance(s, j), data, n, p, serial, j) == Absorbed(f, Instance(t, j), data[8 * serial..], n, p, serial, j)
  {
    hide Instance, XorBytes;
  }

  lemma NoBlock(f: Permutation, l: Lanes, data: Bytes, n: nat, p: nat, serial: nat, j: nat)
    requires KeepsSize(f) && |l| == 25 && n <= 25 && j < 4
    requires |data| < Start(p, 3) + 8 * n
    ensures Absorbed(f, l, data, n, p, serial, j) == l
  {
  }

  lemma NextMultiple(a: nat, r: nat)
    requires r > 0 && a % r == 0
    ensures (a + r) % r == 0
  {
    DivUnique(r, r, 1, 0);
    ModSum(a, r, r);
  }

  // ------------------------------------------------------------------ four streams in one buffer

  /** Where stream j starts when streams are p lanes apart. */
  function Start(p: nat, j: nat): nat
    requires j < 4
  {
    match j case 0 => 0 case 1 => 8 * p case 2 => 16 * p case 3 => 24 * p
  }

  /** LOAD4_64: lane i of all four streams. */
  function Column(data: Bytes, p: nat, i: nat): Vec4
    requires Start(p, 3) + 8 * i + 8 <= |data|
  {
    Vec4(LaneAt(data, Start(p, 0) + 8 * i), LaneAt(data, Start(p, 1) + 8 * i),
         LaneAt(data, Start(p, 2) + 8 * i), LaneAt(data, Start(p, 3) + 8 * i))
  }

  /** LOAD256u: four neighbouring lanes of one stream. */
  function FourLanes(data: Bytes, pos: nat): Vec4
    requires pos + 32 <= |data|
  {
    Vec4(LaneAt(data, pos), LaneAt(data, pos + 8), LaneAt(data, pos + 16), LaneAt(data, pos + 24))
  }

  function WithColumn(s: seq<Vec4>, data: Bytes, p: nat, i: nat): (t: seq<Vec4>)
    requires |s| == 25 && i < 25 && Start(p, 3) + 8 * i + 8 <= |data|
    ensures |t| == 25
  {
    s[i := XorVec(s[i], Column(data, p, i))]
  }

  /** Each instance has the first n lanes of its own stream xored in. */
  ghost predicate Added(s0: seq<Vec4>, s: seq<Vec4>, data: Bytes, p: nat, n: nat)
    requires |s0| == 25 && n <= 25 && Start(p, 3) + 8 * n <= |data|
  {
    && |s| == 25
    && forall j | 0 <= j < 4 :: Instance(s, j) == XorBytes(Instance(s0, j), 0, data[Start(p, j)..Start(p, j) + 8 * n])
  }

  lemma NothingAdded(s: seq<Vec4>, data: Bytes, p: nat)
    requires |s| == 25 && Start(p, 3) <= |data|
    ensures Added(s, s, data, p, 0)
  {
    hide Instance, XorBytes;
    forall j | 0 <= j < 4 ensures Instance(s, j) == XorBytes(Instance(s, j), 0, data[Start(p, j)..Start(p, j) + 8 * 0]) {
      XorNothing(Instance(s, j), 0, data[Start(p, j)..Start(p, j) + 8 * 0]);
    }
  }

  lemma ColumnLane(data: Bytes, p: nat, i: nat, j: nat)
    requires Start(p, 3) + 8 * i + 8 <= |data| && j < 4
    ensures Start(p, j) + 8 * i + 8 <= |data| && Get(Column(data, p, i), j) == LaneAt(data, Start(p, j) + 8 * i)
  {
    hide LaneAt;
  }

  lemma XorGet(a: Vec4, b: Vec4, j: nat)
    requires j < 4
    ensures Get(XorVec(a, b), j) == Xor(Get(a, j), Get(b, j))
  {
    hide Xor;
  }

  lemma {:induction false} ColumnAdds(s0: seq<Vec4>, s: seq<Vec4>, data: Bytes, p: nat, i: nat)
    requires |s0| == 25 && i < 25 && Start(p, 3) + 8 * i + 8 <= |data| && Added(s0, s, data, p, i)
    ensures Added(s0, WithColumn(s, data, p, i), data, p, i + 1)
  {
    hide Xor, XorBytes, XorVec, Column, LaneAt, Start, Get;
    var t := WithColumn(s, data, p, i);
    forall j | 0 <= j < 4
      ensures Start(p, j) + 8 * (i + 1) <= |data|
           && Instance(t, j) == XorBytes(Instance(s0, j), 0, data[Start(p, j)..Start(p, j) + 8 * (i + 1)])
    {
      var v := XorVec(s[i], Column(data, p, i));
      InstanceUpdate(s, i, v, j);
      XorGet(s[i], Column(data, p, i), j);
      ColumnLane(data, p, i, j);
      LaneStepAt(Instance(s0, j), data, Start(p, j), i);
    }
  }

  /** One more piece of the data, within lane k. */
  lemma {:induction false} AddStep(s: Lanes, offset: nat, data: Bytes, done: nat, k: nat, o: nat, n: nat)
    requires |s| == 25 && offset + |data| <= 200 && done + n <= |data| && 8 * k + o == offset + done && o + n <= 8 && k < 25
    ensures var t := XorBytes(s, offset, data[..done]);
            t[k := Xor(t[k], Placed(data[done..done + n], o))] == XorBytes(s, offset, data[..done + n])
  {
    hide Xor, XorBytes, Placed;
    PlacedXor(XorBytes(s, offset, data[..done]), k, data[done..done + n], o);
    XorBytesConcat(s, offset, data[..done], data[done..done + n]);
    assert data[..done] + data[done..done + n] == data[..done + n];
  }
}
