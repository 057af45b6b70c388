/** The extendable output of FIPS 202, sections 4 and 5.1, stated on bytes: a padded message, one state for every block of it,
    and output bytes read from the states that follow.  Nothing here mentions how the code absorbs, pads or squeezes. */
module SpongeStandard {
  import opened Arith
  import opened Primitives
  import opened Sponge
  import opened LaneValues

  /** Byte q of a state: a digit, in base 256, of the lane it lies in. */
  function StateByte(s: Lanes, q: nat): byte
    requires |s| == 25 && q < 200
  {
    Digit256(s[q / 8] as int, q % 8) as byte
  }

  lemma ByteIsDigit(s: Lanes, q: nat)
    requires |s| == 25 && q < 200
    ensures ByteAt(s, q) == StateByte(s, q)
  {
    hide ByteAt, Digit256;
    ByteAtValue(s, q);
    SameByte(ByteAt(s, q), StateByte(s, q));
  }

  /** t is s with a block xored into its first bytes. */
  ghost predicate Mixed(s: Lanes, block: Bytes, t: Lanes) {
    && |s| == 25 && |t| == 25 && |block| <= 200
    && forall q | 0 <= q < 200 :: StateByte(t, q) == StateByte(s, q) ^ (if q < |block| then block[q] else 0)
  }

  lemma XorMixes(s: Lanes, block: Bytes)
    requires |s| == 25 && |block| <= 200
    ensures Mixed(s, block, XorBytes(s, 0, block))
  {
    hide StateByte, XorBytes, ByteAt;
    var t := XorBytes(s, 0, block);
    forall q | 0 <= q < 200 ensures StateByte(t, q) == StateByte(s, q) ^ (if q < |block| then block[q] else 0) {
      XorBytesAt(s, 0, block, q);
      ByteIsDigit(s, q);
      ByteIsDigit(t, q);
    }
  }

  /** The message, the domain byte, zeros up to a whole number of blocks, and the last bit of the padding. */
  predicate Padded(r: nat, m: Bytes, p: byte, x: Bytes)
    requires r > 0
  {
    && |x| % r == 0 && |m| < |x| <= |m| + r && x[..|m|] == m
    && x[|m|] == (if |x| == |m| + 1 then p ^ 0x80 else p)
    && (|x| > |m| + 1 ==> x[|x| - 1] == 0x80)
    && forall i | |m| < i < |x| - 1 :: x[i] == 0
  }

  lemma PaddedExists(r: nat, m: Bytes, p: byte)
    requires Rate(r)
    ensures Padded(r, m, p, m + PadTail(r, |m|, p))
  {
    var x := m + PadTail(r, |m|, p);
    Remainder(|m|, r);
    var q, k := |m| / r, |m| % r;
    assert |x| == (q + 1) * r;
    DivUnique(|x|, r, q + 1, 0);
  }

  /** One block of the chain of states. */
  ghost predicate Absorbs(f: Permutation, s: Lanes, block: Bytes, next: Lanes) {
    exists t :: Mixed(s, block, t) && next == f(t)
  }

  /** A state before the first block and after each. */
  ghost predicate Chain(f: Permutation, blocks: seq<Bytes>, states: seq<Lanes>) {
    && |states| == |blocks| + 1 && (forall s | s in states :: |s| == 25)
    && (forall i | 0 <= i < 25 :: states[0][i] == 0)
    && forall j | 0 <= j < |blocks| :: Absorbs(f, states[j], blocks[j], states[j + 1])
  }

  predicate Cut(r: nat, x: Bytes, blocks: seq<Bytes>) { Concat(blocks) == x && forall b | b in blocks :: |b| == r }

  lemma {:induction false} AbsorbChain(f: Permutation, r: nat, x: Bytes) returns (blocks: seq<Bytes>, states: seq<Lanes>)
    requires KeepsSize(f) && Rate(r) && |x| % r == 0
    ensures Cut(r, x, blocks) && Chain(f, blocks, states) && Absorb(f, r, Inc(Zero, 0), x) == Inc(states[|blocks|], 0)
    decreases |x|
  {
    if |x| < r {
      DivUnique(|x|, r, 0, |x|);
      NothingAbsorbed(f, r);
      blocks, states := [], [Zero];
    } else {
      var front, block := x[..|x| - r], x[|x| - r..];
      assert front + block == x;
      ModDrop(|x|, r);
      blocks, states := AbsorbChain(f, r, front);
      ChainEnds(f, blocks, states);
      hide Mixed, Absorb, XorBytes, Absorbs, Chain, Cut;
      var s := states[|blocks|];
      var t := XorBytes(s, 0, block);
      BlockAbsorbed(f, r, front, block, s);
      ChainGrows(f, blocks, states, block, t);
      CutGrows(r, front, blocks, block);
      blocks, states := blocks + [block], states + [f(t)];
    }
  }

  lemma ChainEnds(f: Permutation, blocks: seq<Bytes>, states: seq<Lanes>)
    requires Chain(f, blocks, states)
    ensures |states| == |blocks| + 1 && |states[|blocks|]| == 25
  {
  }

  lemma CutGrows(r: nat, front: Bytes, blocks: seq<Bytes>, block: Bytes)
    requires Cut(r, front, blocks) && |block| == r
    ensures Cut(r, front + block, blocks + [block])
  {
    assert (blocks + [block])[..|blocks|] == blocks;
  }

  lemma BlockAbsorbed(f: Permutation, r: nat, front: Bytes, block: Bytes, s: Lanes)
    requires KeepsSize(f) && Rate(r) && |block| == r && |s| == 25 && Absorb(f, r, Inc(Zero, 0), front) == Inc(s, 0)
    ensures var t := XorBytes(s, 0, block);
            Mixed(s, block, t) && Absorb(f, r, Inc(Zero, 0), front + block) == Inc(f(t), 0)
  {
    hide Mixed, Absorb, XorBytes;
    XorMixes(s, block);
    AbsorbConcat(f, r, Inc(Zero, 0), front, block);
    AbsorbWithinBlock(f, r, Inc(s, 0), block);
  }

  lemma NothingAbsorbed(f: Permutation, r: nat)
    requires KeepsSize(f) && Rate(r)
    ensures Absorb(f, r, Inc(Zero, 0), []) == Inc(Zero, 0)
  {
  }

  lemma ChainGrows(f: Permutation, blocks: seq<Bytes>, states: seq<Lanes>, block: Bytes, t: Lanes)
    requires KeepsSize(f) && |t| == 25 && Chain(f, blocks, states) && Mixed(states[|blocks|], block, t)
    ensures Chain(f, blocks + [block], states + [f(t)])
  {
    hide Mixed;
    assert Absorbs(f, states[|blocks|], block, f(t));
    var bs, ss := blocks + [block], states + [f(t)];
    assert ss[0] == states[0];
    forall j | 0 <= j < |bs| ensures Absorbs(f, ss[j], bs[j], ss[j + 1]) {
      if j < |blocks| {
        assert Absorbs(f, states[j], blocks[j], states[j + 1]);
      }
    }
  }

  lemma {:induction false} TimesShift(f: Permutation, s: Lanes, n: nat)
    requires KeepsSize(f) && |s| == 25
    ensures Times(f, s, n + 1) == Times(f, f(s), n)
  {
    if n > 0 {
      TimesShift(f, s, n - 1);
    } else {
      assert Times(f, s, 0) == s && Times(f, f(s), 0) == f(s);
    }
  }

  /** The whole function: the message is padded, its blocks are absorbed one by one from the zero state, and byte i of the
      output is byte i % r of the state after i / r more permutations. */
  lemma {:induction false} XofIsStandard(f: Permutation, r: nat, p: byte, m: Bytes, n: nat)
    returns (x: Bytes, blocks: seq<Bytes>, states: seq<Lanes>)
    requires KeepsSize(f) && Rate(r)
    ensures Padded(r, m, p, x) && Cut(r, x, blocks) && Chain(f, blocks, states)
    ensures forall i | 0 <= i < n ::
              Xof(f, r, p, m, n)[i] == StateByte(Times(f, states[|blocks|], BlockOf(r, i)), PlaceOf(r, i))
  {
    hide Absorb, Finalize, Squeeze, PadTail, BlockOf, PlaceOf, Digit256, Absorbs, Padded, Cut;
    PadTailWhole(r, m, p);
    x := m + PadTail(r, |m|, p);
    PaddedExists(r, m, p);
    blocks, states := AbsorbChain(f, r, x);
    PaddingIsPad101(f, r, p, m);
    var last := Finalize(r, Absorb(f, r, Inc(Zero, 0), m), p);
    assert states[|blocks|] == f(last);
    SqueezedStream(f, r, Sq(last, 0), n);
    forall i | 0 <= i < n
      ensures Xof(f, r, p, m, n)[i] == StateByte(Times(f, states[|blocks|], BlockOf(r, i)), PlaceOf(r, i))
    {
      NextBlock(r, i);
      TimesShift(f, last, BlockOf(r, i));
      SameByte(Xof(f, r, p, m, n)[i], StateByte(Times(f, states[|blocks|], BlockOf(r, i)), PlaceOf(r, i)));
    }
  }

  lemma PadTailWhole(r: nat, m: Bytes, p: byte)
    requires Rate(r)
    ensures |m + PadTail(r, |m|, p)| % r == 0
  {
    PaddedExists(r, m, p);
  }

  lemma NextBlock(r: nat, i: nat)
    requires r > 0
    ensures BlockOf(r, r + i) == BlockOf(r, i) + 1 && PlaceOf(r, r + i) == PlaceOf(r, i)
  {
    Remainder(i, r);
    var q, k := i / r, i % r;
    assert (q + 1) * r == q * r + r;
    DivUnique(r + i, r, q + 1, k);
  }

  /** out is the extendable output of m in that sense. */
  ghost predicate IsOutput(f: Permutation, r: nat, p: byte, m: Bytes, out: Bytes)
    requires KeepsSize(f) && Rate(r)
  {
    exists x, blocks, states ::
      && Padded(r, m, p, x) && Cut(r, x, blocks) && Chain(f, blocks, states)
      && forall i | 0 <= i < |out| :: out[i] == StateByte(Times(f, states[|blocks|], BlockOf(r, i)), PlaceOf(r, i))
  }

  lemma XofIsOutput(f: Permutation, r: nat, p: byte, m: Bytes, n: nat)
    requires KeepsSize(f) && Rate(r)
    ensures IsOutput(f, r, p, m, Xof(f, r, p, m, n))
  {
    hide Xof, Padded, Cut, BlockOf, PlaceOf, StateByte, Absorbs;
    var x, blocks, states := XofIsStandard(f, r, p, m, n);
    assert |Xof(f, r, p, m, n)| == n;
  }
}
