/** The batched AES of aes.c: four blocks at a time through the bitsliced form, ECB over any number of blocks and CTR over
    any number of bytes, each proved to be the cipher of FIPS 197 applied block by block. */
module Aes {
  import opened Primitives
  import opened SBox
  import opened Words
  import opened Bitslice
  import opened Layout
  import opened AesSpec

  function Words8(s: seq<word>): Oct<word>
    requires |s| == 8
  {
    Oct(s[0], s[1], s[2], s[3], s[4], s[5], s[6], s[7])
  }

  /** Block j of a bitsliced state. */
  function Lane(q: Oct<word>, j: nat): (b: Bytes)
    requires j < 4
    ensures |b| == 16
  {
    seq(16, i requires 0 <= i < 16 => Slot(q, Pos(i % 4, i / 4, j)))
  }

  /** The key that round i adds to lane j. */
  function LaneKey(sk: seq<word>, i: nat, j: nat): (k: Bytes)
    requires 8 * i + 8 <= |sk| && j < 4
    ensures |k| == 16
  {
    Lane(Words8(sk[8 * i..8 * i + 8]), j)
  }

  function LaneKeys(sk: seq<word>, nr: nat, j: nat): (rk: seq<Bytes>)
    requires 8 * nr + 8 <= |sk| && j < 4 && nr >= 1
    ensures RoundKeys(rk) && |rk| == nr + 1
  {
    seq(nr + 1, i requires 0 <= i <= nr => LaneKey(sk, i, j))
  }

  // ------------------------------------------------------------------ the steps, lane by lane

  lemma Coordinates(i: nat)
    requires i < 16
    ensures i / 4 < 4 && 4 * (i / 4) + i % 4 == i
  {
  }

  lemma AtColumn(c: nat, r: nat)
    requires c < 4 && r < 4
    ensures 4 * c + r < 16 && (4 * c + r) / 4 == c && (4 * c + r) % 4 == r
  {
  }

  lemma LaneAt(q: Oct<word>, r: nat, c: nat, j: nat)
    requires r < 4 && c < 4 && j < 4
    ensures 4 * c + r < 16 && Lane(q, j)[4 * c + r] == Slot(q, Pos(r, c, j))
  {
    hide Slot, Pos;
    AtColumn(c, r);
  }

  lemma SubBytesLane(q: Oct<word>, out: Oct<word>, j: nat)
    requires j < 4 && forall p: word | p < 64 :: Slot(out, p) == SubByte(Slot(q, p))
    ensures Lane(out, j) == SubBytes(Lane(q, j))
  {
    hide Slot, SubByte, Pos;
  }

  lemma {:induction false} ShiftRowsLane(q: Oct<word>, j: nat)
    requires j < 4
    ensures Lane(ShiftRowsWords(q), j) == ShiftRows(Lane(q, j))
  {
    hide Slot, Pos, Lane, ShiftRowsWords;
    var a, b := Lane(ShiftRowsWords(q), j), ShiftRows(Lane(q, j));
    forall i | 0 <= i < 16 ensures a[i] == b[i] {
      Coordinates(i);
      var r, c := i % 4, i / 4;
      LaneAt(ShiftRowsWords(q), r, c, j);
      ShiftRowsSlot(q, r, c, j);
      LaneAt(q, r, (c + r) % 4, j);
    }
  }

  lemma {:induction false} MixColumnsLane(q: Oct<word>, j: nat)
    requires j < 4
    ensures Lane(MixColumnsWords(q), j) == MixColumns(Lane(q, j))
  {
    hide Slot, Pos, Lane, MixColumnsWords, Mix;
    var a, b := Lane(MixColumnsWords(q), j), MixColumns(Lane(q, j));
    forall i | 0 <= i < 16 ensures a[i] == b[i] {
      Coordinates(i);
      var r, c := i % 4, i / 4;
      LaneAt(MixColumnsWords(q), r, c, j);
      MixColumnsSlot(q, r, c, j);
      LaneAt(q, r, c, j);
      LaneAt(q, (r + 1) % 4, c, j);
      LaneAt(q, (r + 2) % 4, c, j);
      LaneAt(q, (r + 3) % 4, c, j);
    }
  }

  lemma {:induction false} AddRoundKeyLane(q: Oct<word>, k: Oct<word>, j: nat)
    requires j < 4
    ensures Lane(AddRoundKeyWords(q, k), j) == AddRoundKey(Lane(q, j), Lane(k, j))
  {
    hide Slot, Pos, AddRoundKeyWords;
    forall i | 0 <= i < 16 ensures Lane(AddRoundKeyWords(q, k), j)[i] == Lane(q, j)[i] ^ Lane(k, j)[i] {
      AddRoundKeySlot(q, k, Pos(i % 4, i / 4, j));
    }
  }

  // ------------------------------------------------------------------ the steps, in place

  method SboxStep(q: array<word>)
    requires q.Length == 8
    modifies q
    ensures forall j | 0 <= j < 4 :: Lane(Words8(q[..]), j) == SubBytes(Lane(Words8(old(q[..])), j))
  {
    hide Slot, SubByte, Lane, SubBytes;
    ghost var before := q[..];
    var s := BitsliceSbox(Oct(q[0], q[1], q[2], q[3], q[4], q[5], q[6], q[7]));
    q[0], q[1], q[2], q[3], q[4], q[5], q[6], q[7] := s.q0, s.q1, s.q2, s.q3, s.q4, s.q5, s.q6, s.q7;
    assert Words8(q[..]) == s;
    forall j | 0 <= j < 4 ensures Lane(s, j) == SubBytes(Lane(Words8(before), j)) {
      SubBytesLane(Words8(before), s, j);
    }
  }

  method ShiftRowsStep(q: array<word>)
    requires q.Length == 8
    modifies q
    ensures Words8(q[..]) == ShiftRowsWords(Words8(old(q[..])))
  {
    hide ShiftRowsWord;
    ghost var before := q[..];
    for i := 0 to 8
      invariant forall k | 0 <= k < i :: q[k] == ShiftRowsWord(before[k])
      invariant forall k | i <= k < 8 :: q[k] == before[k]
    {
      q[i] := ShiftRowsWord(q[i]);
    }
  }

  method MixColumnsStep(q: array<word>)
    requires q.Length == 8
    modifies q
    ensures Words8(q[..]) == MixColumnsWords(Words8(old(q[..])))
  {
    hide Rot16, Rot32, Xor, MixColumnsWords;
    var s := MixColumnsWords(Oct(q[0], q[1], q[2], q[3], q[4], q[5], q[6], q[7]));
    q[0], q[1], q[2], q[3], q[4], q[5], q[6], q[7] := s.q0, s.q1, s.q2, s.q3, s.q4, s.q5, s.q6, s.q7;
  }

  method AddRoundKeyStep(q: array<word>, sk: seq<word>, i: nat)
    requires q.Length == 8 && 8 * i + 8 <= |sk|
    modifies q
    ensures Words8(q[..]) == AddRoundKeyWords(Words8(old(q[..])), Words8(sk[8 * i..8 * i + 8]))
  {
    hide Xor;
    var k := sk[8 * i..8 * i + 8];
    q[0], q[1], q[2], q[3] := Xor(q[0], k[0]), Xor(q[1], k[1]), Xor(q[2], k[2]), Xor(q[3], k[3]);
    q[4], q[5], q[6], q[7] := Xor(q[4], k[4]), Xor(q[5], k[5]), Xor(q[6], k[6]), Xor(q[7], k[7]);
  }

  method OrthoStep(q: array<word>)
    requires q.Length == 8
    modifies q
    ensures Words8(q[..]) == Ortho(Words8(old(q[..])))
  {
    hide Lo, Hi;
    ghost var before := Words8(q[..]);
    q[0], q[1] := Lo(L1, 1, q[0], q[1]), Hi(H1, 1, q[0], q[1]);
    q[2], q[3] := Lo(L1, 1, q[2], q[3]), Hi(H1, 1, q[2], q[3]);
    q[4], q[5] := Lo(L1, 1, q[4], q[5]), Hi(H1, 1, q[4], q[5]);
    q[6], q[7] := Lo(L1, 1, q[6], q[7]), Hi(H1, 1, q[6], q[7]);
    assert Words8(q[..]) == Swap2(before);
    q[0], q[2] := Lo(L2, 2, q[0], q[2]), Hi(H2, 2, q[0], q[2]);
    q[1], q[3] := Lo(L2, 2, q[1], q[3]), Hi(H2, 2, q[1], q[3]);
    q[4], q[6] := Lo(L2, 2, q[4], q[6]), Hi(H2, 2, q[4], q[6]);
    q[5], q[7] := Lo(L2, 2, q[5], q[7]), Hi(H2, 2, q[5], q[7]);
    assert Words8(q[..]) == Swap4(Swap2(before));
    q[0], q[4] := Lo(L4, 4, q[0], q[4]), Hi(H4, 4, q[0], q[4]);
    q[1], q[5] := Lo(L4, 4, q[1], q[5]), Hi(H4, 4, q[1], q[5]);
    q[2], q[6] := Lo(L4, 4, q[2], q[6]), Hi(H4, 4, q[2], q[6]);
    q[3], q[7] := Lo(L4, 4, q[3], q[7]), Hi(H4, 4, q[3], q[7]);
  }

  // ------------------------------------------------------------------ four blocks

  /** Block j of a batch of sixteen little-endian words. */
  function InBlock(w: seq<half>, j: nat): (b: Bytes)
    requires |w| == 16 && j < 4
    ensures |b| == 16
  {
    seq(16, i requires 0 <= i < 16 => HalfByte(w[4 * j + i / 4], Small(i % 4)))
  }

  lemma LoadLane(w: seq<half>, j: nat)
    requires |w| == 16 && j < 4
    ensures Lane(Ortho(LoadWords(w)), j) == InBlock(w, j)
  {
    hide Slot, Pos, Ortho, LoadWords, HalfByte, Small;
    forall i | 0 <= i < 16 ensures Lane(Ortho(LoadWords(w)), j)[i] == InBlock(w, j)[i] {
      Coordinates(i);
      LoadSlot(w, i % 4, i / 4, j);
    }
  }

  lemma StoreLane(q: Oct<word>, j: nat)
    requires j < 4
    ensures InBlock(StoreWords(Ortho(q)), j) == Lane(q, j)
  {
    hide Slot, Pos, Ortho, StoreWords, HalfByte, Small;
    forall i | 0 <= i < 16 ensures Lane(q, j)[i] == InBlock(StoreWords(Ortho(q)), j)[i] {
      Coordinates(i);
      StoreSlot(q, i % 4, i / 4, j);
    }
  }

  /** interleave_in of block k, both its words. */
  function Low(w: seq<half>, k: nat): word
    requires |w| == 16 && k < 4
  {
    Interleave(w[4 * k], w[4 * k + 2])
  }

  function High(w: seq<half>, k: nat): word
    requires |w| == 16 && k < 4
  {
    Interleave(w[4 * k + 1], w[4 * k + 3])
  }

  lemma LoadedPairs(w: seq<half>)
    requires |w| == 16
    ensures LoadWords(w) == Oct(Low(w, 0), Low(w, 1), Low(w, 2), Low(w, 3), High(w, 0), High(w, 1), High(w, 2), High(w, 3))
  {
    hide Interleave;
  }

  method InterleaveIn(w: seq<half>) returns (q: array<word>)
    requires |w| == 16
    ensures fresh(q) && q.Length == 8 && Words8(q[..]) == LoadWords(w)
  {
    hide Low, High, LoadWords;
    q := new word[8](_ => 0);
    for i := 0 to 4
      invariant forall k | 0 <= k < i :: q[k] == Low(w, k) && q[k + 4] == High(w, k)
    {
      q[i], q[i + 4] := Low(w, i), High(w, i);
    }
    LoadedPairs(w);
  }

  /** The rounds before the last one. */
  method FullRounds(q: array<word>, sk: seq<word>, nr: nat)
    requires q.Length == 8 && nr >= 1 && 8 * nr + 8 <= |sk|
    modifies q
    ensures forall j | 0 <= j < 4 ::
              Lane(Words8(q[..]), j) == AfterRounds(LaneKeys(sk, nr, j), Lane(Words8(old(q[..])), j), nr - 1)
  {
    hide Lane, Words8, SubBytes, ShiftRows, MixColumns, AddRoundKey, ShiftRowsWords, MixColumnsWords, AddRoundKeyWords;
    ghost var before := Words8(q[..]);
    AddRoundKeyStep(q, sk, 0);
    forall j | 0 <= j < 4
      ensures Lane(Words8(q[..]), j) == AfterRounds(LaneKeys(sk, nr, j), Lane(before, j), 0)
    {
      AddRoundKeyLane(before, Words8(sk[0..8]), j);
    }
    for i := 1 to nr
      invariant forall j | 0 <= j < 4 :: Lane(Words8(q[..]), j) == AfterRounds(LaneKeys(sk, nr, j), Lane(before, j), i - 1)
    {
      ghost var q0 := Words8(q[..]);
      SboxStep(q);
      ghost var q1 := Words8(q[..]);
      ShiftRowsStep(q);
      ghost var q2 := Words8(q[..]);
      MixColumnsStep(q);
      ghost var q3 := Words8(q[..]);
      AddRoundKeyStep(q, sk, i);
      forall j | 0 <= j < 4
        ensures Lane(Words8(q[..]), j) == AfterRounds(LaneKeys(sk, nr, j), Lane(before, j), i)
      {
        ShiftRowsLane(q1, j);
        MixColumnsLane(q2, j);
        AddRoundKeyLane(q3, Words8(sk[8 * i..8 * i + 8]), j);
      }
    }
  }

  /** Four blocks at once: each comes out enciphered by itself, under its own lane of the key words. */
  method Ecb4x(ivw: seq<half>, sk: seq<word>, nr: nat) returns (out: Bytes)
    requires |ivw| == 16 && nr >= 1 && 8 * nr + 8 <= |sk|
    ensures |out| == 64
    ensures forall j | 0 <= j < 4 :: out[16 * j..16 * j + 16] == Cipher(LaneKeys(sk, nr, j), InBlock(ivw, j))
  {
    hide Lane, Words8, SubBytes, ShiftRows, MixColumns, AddRoundKey, ShiftRowsWords, MixColumnsWords, AddRoundKeyWords;
    hide InBlock, LoadWords, StoreWords, Ortho, AfterRounds;
    var q := InterleaveIn(ivw);
    OrthoStep(q);
    ghost var q0 := Words8(q[..]);
    FullRounds(q, sk, nr);
    ghost var q1 := Words8(q[..]);
    SboxStep(q);
    ghost var q2 := Words8(q[..]);
    ShiftRowsStep(q);
    ghost var q3 := Words8(q[..]);
    AddRoundKeyStep(q, sk, nr);
    ghost var q4 := Words8(q[..]);
    OrthoStep(q);
    var w := InterleaveOut(q);
    out := Encode(w);
    forall j | 0 <= j < 4 ensures InBlock(w, j) == Cipher(LaneKeys(sk, nr, j), InBlock(ivw, j)) {
      LoadLane(ivw, j);
      ShiftRowsLane(q2, j);
      AddRoundKeyLane(q3, Words8(sk[8 * nr..8 * nr + 8]), j);
      StoreLane(q4, j);
    }
  }

  lemma StoredFour(q: seq<word>, k: nat)
    requires |q| == 8 && k < 4
    ensures StoreWords(Words8(q))[4 * k..4 * k + 4] == Four(q[k], q[k + 4])
  {
    hide Four;
  }

  method InterleaveOut(q: array<word>) returns (w: seq<half>)
    requires q.Length == 8
    ensures |w| == 16 && w == StoreWords(Words8(q[..]))
  {
    hide Four, StoreWords;
    ghost var all := StoreWords(Words8(q[..]));
    w := [];
    for i := 0 to 4
      invariant w == all[..4 * i]
    {
      StoredFour(q[..], i);
      assert all[..4 * i] + all[4 * i..4 * i + 4] == all[..4 * (i + 1)];
      w := w + Four(q[i], q[i + 4]);
    }
  }

  /** br_range_enc32le: each word as four bytes, the low one first. */
  method Encode(w: seq<half>) returns (out: Bytes)
    requires |w| == 16
    ensures |out| == 64 && forall j | 0 <= j < 4 :: out[16 * j..16 * j + 16] == InBlock(w, j)
  {
    hide HalfByte, Small;
    out := [];
    for i := 0 to 16
      invariant |out| == 4 * i
      invariant forall k, r | 0 <= k < i && 0 <= r < 4 :: out[4 * k + r] == HalfByte(w[k], Small(r))
    {
      out := out + [HalfByte(w[i], Small(0)), HalfByte(w[i], Small(1)), HalfByte(w[i], Small(2)), HalfByte(w[i], Small(3))];
    }
    forall j | 0 <= j < 4 ensures out[16 * j..16 * j + 16] == InBlock(w, j) {
      forall i | 0 <= i < 16 ensures out[16 * j..16 * j + 16][i] == InBlock(w, j)[i] {
        Coordinates(i);
        assert out[4 * (4 * j + i / 4) + i % 4] == HalfByte(w[4 * j + i / 4], Small(i % 4));
      }
    }
  }

  // ------------------------------------------------------------------ decoding

  /** br_dec32le. */
  function Decode(b: Bytes): half
    requires |b| == 4
  {
    (b[0] as half) | ((b[1] as half) << 8) | ((b[2] as half) << 16) | ((b[3] as half) << 24)
  }

  lemma RawDecodeBytes(b0: byte, b1: byte, b2: byte, b3: byte)
    ensures var w := (b0 as half) | ((b1 as half) << 8) | ((b2 as half) << 16) | ((b3 as half) << 24);
            (((w as word) >> 0) & 0xFF) as byte == b0 && (((w as word) >> 8) & 0xFF) as byte == b1
            && (((w as word) >> 16) & 0xFF) as byte == b2 && (((w as word) >> 24) & 0xFF) as byte == b3
  {
  }

  lemma DecodeBytes(b: Bytes, r: nat)
    requires |b| == 4 && r < 4
    ensures HalfByte(Decode(b), Small(r)) == b[r]
  {
    RawDecodeBytes(b[0], b[1], b[2], b[3]);
  }

  /** Reads n words; the rest of the batch keeps whatever it held. */
  method RangeDecode(blocks: array<half>, n: nat, b: Bytes)
    requires n <= blocks.Length && 4 * n <= |b|
    modifies blocks
    ensures forall k | 0 <= k < n :: blocks[k] == Decode(b[4 * k..4 * k + 4])
    ensures forall k | n <= k < blocks.Length :: blocks[k] == old(blocks[k])
  {
    hide Decode;
    for i := 0 to n
      invariant forall k | 0 <= k < i :: blocks[k] == Decode(b[4 * k..4 * k + 4])
      invariant forall k | i <= k < blocks.Length :: blocks[k] == old(blocks[k])
    {
      blocks[i] := Decode(b[4 * i..4 * i + 4]);
    }
  }

  lemma DecodedBlock(w: seq<half>, b: Bytes, j: nat)
    requires |w| == 16 && j < 4 && 16 * j + 16 <= |b|
    requires forall k | 4 * j <= k < 4 * j + 4 :: w[k] == Decode(b[4 * k..4 * k + 4])
    ensures InBlock(w, j) == b[16 * j..16 * j + 16]
  {
    hide Decode, HalfByte, Small;
    forall i | 0 <= i < 16 ensures InBlock(w, j)[i] == b[16 * j..16 * j + 16][i] {
      Coordinates(i);
      var k := 4 * j + i / 4;
      DecodeBytes(b[4 * k..4 * k + 4], i % 4);
    }
  }

  // ------------------------------------------------------------------ ECB

  function BlockAt(b: Bytes, i: nat): (s: Bytes)
    requires 16 * i + 16 <= |b|
    ensures |s| == 16
  {
    b[16 * i..16 * i + 16]
  }

  /** Any number of blocks, four at a time and then the rest: block i is enciphered under lane i % 4. */
  method Ecb(inp: Bytes, nblocks: nat, sk: seq<word>, nr: nat) returns (out: Bytes)
    requires |inp| >= 16 * nblocks && nr >= 1 && 8 * nr + 8 <= |sk|
    ensures |out| == 16 * nblocks
    ensures forall i | 0 <= i < nblocks ::
              BlockAt(out, i) == Cipher(LaneKeys(sk, nr, i % 4), BlockAt(inp, i))
  {
    hide LaneKeys, Cipher, InBlock, Decode;
    out := [];
    var blocks := new half[16];
    var left, done := nblocks, 0;
    while left >= 4
      invariant done + left == nblocks && done % 4 == 0 && |out| == 16 * done && blocks.Length == 16
      invariant forall i | 0 <= i < done ::
                  BlockAt(out, i) == Cipher(LaneKeys(sk, nr, i % 4), BlockAt(inp, i))
      decreases left
    {
      out := EcbBatch(inp, done, 4, blocks, sk, nr, out);
      left := left - 4;
      done := done + 4;
    }
    if left != 0 {
      out := EcbBatch(inp, done, left, blocks, sk, nr, out);
    }
  }

  /** n blocks of a batch, n at most 4; the other lanes carry old data and are dropped. */
  method EcbBatch(inp: Bytes, done: nat, n: nat, blocks: array<half>, sk: seq<word>, nr: nat, out0: Bytes) returns (out: Bytes)
    requires 1 <= n <= 4 && |inp| >= 16 * (done + n) && nr >= 1 && 8 * nr + 8 <= |sk|
    requires blocks.Length == 16 && done % 4 == 0 && |out0| == 16 * done
    modifies blocks
    ensures |out| == 16 * (done + n) && out[..16 * done] == out0
    ensures forall i | done <= i < done + n ::
              BlockAt(out, i) == Cipher(LaneKeys(sk, nr, i % 4), BlockAt(inp, i))
  {
    hide LaneKeys, Cipher, InBlock, Decode;
    var b := inp[16 * done..16 * (done + n)];
    RangeDecode(blocks, 4 * n, b);
    var t := Ecb4x(blocks[..], sk, nr);
    out := out0 + t[..16 * n];
    forall i | done <= i < done + n
      ensures BlockAt(out, i) == Cipher(LaneKeys(sk, nr, i % 4), BlockAt(inp, i))
    {
      var j := i - done;
      assert i % 4 == j;
      DecodedBlock(blocks[..], b, j);
      SubSlice(inp, 16 * done, 16 * (done + n), 16 * j, 16 * j + 16);
      SubSlice(t, 0, 16 * n, 16 * j, 16 * j + 16);
      AfterPrefix(out0, t[..16 * n], 16 * j, 16 * j + 16);
    }
  }
}
