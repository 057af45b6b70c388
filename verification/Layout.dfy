/** How four AES blocks get into the bitsliced form and out of it: the interleaving of aes.c and its 8 x 8 bit
    transposition. */
module Layout {
  import opened Primitives
  import opened SBox
  import opened Words
  import opened Bitslice

  type half = bv32

  // ------------------------------------------------------------------ ortho

  const L1: word := 0x5555555555555555
  const H1: word := 0xAAAAAAAAAAAAAAAA
  const L2: word := 0x3333333333333333
  const H2: word := 0xCCCCCCCCCCCCCCCC
  const L4: word := 0x0F0F0F0F0F0F0F0F
  const H4: word := 0xF0F0F0F0F0F0F0F0

  /** The two results of SWAPN. */
  function Lo(m: word, s: word, a: word, b: word): word
    requires s <= 4
  {
    (a & m) | ((b & m) << s)
  }

  function Hi(m: word, s: word, a: word, b: word): word
    requires s <= 4
  {
    ((a & m) >> s) | (b & m)
  }

  function Swap2(q: Oct<word>): Oct<word> {
    Oct(Lo(L1, 1, q.q0, q.q1), Hi(H1, 1, q.q0, q.q1), Lo(L1, 1, q.q2, q.q3), Hi(H1, 1, q.q2, q.q3),
        Lo(L1, 1, q.q4, q.q5), Hi(H1, 1, q.q4, q.q5), Lo(L1, 1, q.q6, q.q7), Hi(H1, 1, q.q6, q.q7))
  }

  function Swap4(q: Oct<word>): Oct<word> {
    Oct(Lo(L2, 2, q.q0, q.q2), Lo(L2, 2, q.q1, q.q3), Hi(H2, 2, q.q0, q.q2), Hi(H2, 2, q.q1, q.q3),
        Lo(L2, 2, q.q4, q.q6), Lo(L2, 2, q.q5, q.q7), Hi(H2, 2, q.q4, q.q6), Hi(H2, 2, q.q5, q.q7))
  }

  function Swap8(q: Oct<word>): Oct<word> {
    Oct(Lo(L4, 4, q.q0, q.q4), Lo(L4, 4, q.q1, q.q5), Lo(L4, 4, q.q2, q.q6), Lo(L4, 4, q.q3, q.q7),
        Hi(H4, 4, q.q0, q.q4), Hi(H4, 4, q.q1, q.q5), Hi(H4, 4, q.q2, q.q6), Hi(H4, 4, q.q3, q.q7))
  }

  function Ortho(q: Oct<word>): Oct<word> { Swap8(Swap4(Swap2(q))) }

  function Sel(q: Oct<word>, i: word): word {
    if i == 0 then q.q0 else if i == 1 then q.q1 else if i == 2 then q.q2 else if i == 3 then q.q3
    else if i == 4 then q.q4 else if i == 5 then q.q5 else if i == 6 then q.q6 else q.q7
  }

  lemma SwapBit1(a: word, b: word, p: word)
    requires p < 64
    ensures p ^ 1 < 64 && Bit(Lo(L1, 1, a, b), p) == if p & 1 == 0 then Bit(a, p) else Bit(b, p ^ 1)
    ensures Bit(Hi(H1, 1, a, b), p) == if p & 1 == 0 then Bit(a, p ^ 1) else Bit(b, p)
  {
  }

  lemma SwapBit2(a: word, b: word, p: word)
    requires p < 64
    ensures p ^ 2 < 64 && Bit(Lo(L2, 2, a, b), p) == if p & 2 == 0 then Bit(a, p) else Bit(b, p ^ 2)
    ensures Bit(Hi(H2, 2, a, b), p) == if p & 2 == 0 then Bit(a, p ^ 2) else Bit(b, p)
  {
  }

  lemma SwapBit4(a: word, b: word, p: word)
    requires p < 64
    ensures p ^ 4 < 64 && Bit(Lo(L4, 4, a, b), p) == if p & 4 == 0 then Bit(a, p) else Bit(b, p ^ 4)
    ensures Bit(Hi(H4, 4, a, b), p) == if p & 4 == 0 then Bit(a, p ^ 4) else Bit(b, p)
  {
  }

  /** p with bit s taken from i. */
  function Moved(p: word, s: word, i: word): (r: word)
    requires (s == 1 || s == 2 || s == 4) && p < 64 && i < 64
    ensures r < 64
  {
    (p & (s ^ 0x3F)) | (i & s)
  }

  lemma Swap2Pair(q: Oct<word>, i: word)
    requires i < 8
    ensures Sel(Swap2(q), i)
         == if i & 1 == 0 then Lo(L1, 1, Sel(q, i), Sel(q, i | 1)) else Hi(H1, 1, Sel(q, i & 6), Sel(q, i))
  {
    hide Lo, Hi;
  }

  lemma Swap2Bit(q: Oct<word>, i: word, p: word)
    requires i < 8 && p < 64
    ensures Bit(Sel(Swap2(q), i), p) == Bit(Sel(q, Moved(i, 1, p)), Moved(p, 1, i))
  {
    hide Bit, Lo, Hi, Sel, Swap2;
    Swap2Pair(q, i);
    SwapBit1(Sel(q, i & 6), Sel(q, i | 1), p);
  }

  lemma Swap4Pair(q: Oct<word>, i: word)
    requires i < 8
    ensures Sel(Swap4(q), i)
         == if i & 2 == 0 then Lo(L2, 2, Sel(q, i), Sel(q, i | 2)) else Hi(H2, 2, Sel(q, i & 5), Sel(q, i))
  {
    hide Lo, Hi;
  }

  lemma Swap4Bit(q: Oct<word>, i: word, p: word)
    requires i < 8 && p < 64
    ensures Bit(Sel(Swap4(q), i), p) == Bit(Sel(q, Moved(i, 2, p)), Moved(p, 2, i))
  {
    hide Bit, Lo, Hi, Sel, Swap4;
    Swap4Pair(q, i);
    SwapBit2(Sel(q, i & 5), Sel(q, i | 2), p);
  }

  lemma Swap8Pair(q: Oct<word>, i: word)
    requires i < 8
    ensures Sel(Swap8(q), i)
         == if i & 4 == 0 then Lo(L4, 4, Sel(q, i), Sel(q, i | 4)) else Hi(H4, 4, Sel(q, i & 3), Sel(q, i))
  {
    hide Lo, Hi;
  }

  lemma Swap8Bit(q: Oct<word>, i: word, p: word)
    requires i < 8 && p < 64
    ensures Bit(Sel(Swap8(q), i), p) == Bit(Sel(q, Moved(i, 4, p)), Moved(p, 4, i))
  {
    hide Bit, Lo, Hi, Sel, Swap8;
    Swap8Pair(q, i);
    SwapBit4(Sel(q, i & 3), Sel(q, i | 4), p);
  }

  /** Bit p of word i comes from bit i of byte p / 8 of word p % 8. */
  lemma OrthoBit(q: Oct<word>, i: word, p: word)
    requires i < 8 && p < 64
    ensures Bit(Sel(Ortho(q), i), p) == Bit(Sel(q, p & 7), (p & 0x38) | i)
  {
    hide Bit, Sel, Swap2, Swap4, Swap8, Moved;
    RawMoved(i, p);
    Swap8Bit(Swap4(Swap2(q)), i, p);
    var i1, p1 := Moved(i, 4, p), Moved(p, 4, i);
    Swap4Bit(Swap2(q), i1, p1);
    var i2, p2 := Moved(i1, 2, p1), Moved(p1, 2, i1);
    Swap2Bit(q, i2, p2);
  }

  lemma RawMoved(i: word, p: word)
    requires i < 8 && p < 64
    ensures var i1, p1 := Moved(i, 4, p), Moved(p, 4, i);
            i1 < 8 && var i2, p2 := Moved(i1, 2, p1), Moved(p1, 2, i1);
            i2 < 8 && Moved(i2, 1, p2) == p & 7 && Moved(p2, 1, i2) == (p & 0x38) | i
  {
  }

  /** The transposition turns byte k of word l into slot 8 k + l. */
  lemma OrthoSlot(q: Oct<word>, p: word)
    requires p < 64
    ensures Slot(Ortho(q), p) == WordByte(Sel(q, p & 7), p & 0x38)
  {
    hide Bit, Ortho, WordByte, Pack;
    SelAll(Ortho(q));
    OrthoBit(q, 0, p);
    OrthoBit(q, 1, p);
    OrthoBit(q, 2, p);
    OrthoBit(q, 3, p);
    OrthoBit(q, 4, p);
    OrthoBit(q, 5, p);
    OrthoBit(q, 6, p);
    OrthoBit(q, 7, p);
    hide Sel;
    PackByte(Sel(q, p & 7), p & 0x38);
  }

  lemma SelAll(q: Oct<word>)
    ensures q == Oct(Sel(q, 0), Sel(q, 1), Sel(q, 2), Sel(q, 3), Sel(q, 4), Sel(q, 5), Sel(q, 6), Sel(q, 7))
  {
  }

  lemma RawBytes(x: word, y: word)
    requires WordByte(x, 0) == WordByte(y, 0) && WordByte(x, 8) == WordByte(y, 8)
    requires WordByte(x, 16) == WordByte(y, 16) && WordByte(x, 24) == WordByte(y, 24)
    requires WordByte(x, 32) == WordByte(y, 32) && WordByte(x, 40) == WordByte(y, 40)
    requires WordByte(x, 48) == WordByte(y, 48) && WordByte(x, 56) == WordByte(y, 56)
    ensures x == y
  {
  }

  lemma SameByte(x: word, y: word, k: word)
    requires k < 64 && k & 7 == 0 && forall p: word | p < 64 :: Bit(x, p) == Bit(y, p)
    ensures WordByte(x, k) == WordByte(y, k)
  {
    hide Bit, Pack, WordByte;
    PackByte(x, k);
    PackByte(y, k);
  }

  /** Words with the same bits are equal. */
  lemma SameBits(x: word, y: word)
    requires forall p: word | p < 64 :: Bit(x, p) == Bit(y, p)
    ensures x == y
  {
    hide Bit, WordByte;
    SameByte(x, y, 0);
    SameByte(x, y, 8);
    SameByte(x, y, 16);
    SameByte(x, y, 24);
    SameByte(x, y, 32);
    SameByte(x, y, 40);
    SameByte(x, y, 48);
    SameByte(x, y, 56);
    RawBytes(x, y);
  }

  lemma OrthoTwice(q: Oct<word>, i: word)
    requires i < 8
    ensures Sel(Ortho(Ortho(q)), i) == Sel(q, i)
  {
    hide Bit, Sel, Ortho;
    var x, y := Sel(Ortho(Ortho(q)), i), Sel(q, i);
    forall p: word | p < 64 ensures Bit(x, p) == Bit(y, p) {
      OrthoBit(Ortho(q), i, p);
      OrthoBit(q, p & 7, (p & 0x38) | i);
      RawSwapped(i, p);
    }
    SameBits(x, y);
  }

  lemma RawSwapped(i: word, p: word)
    requires i < 8 && p < 64
    ensures ((p & 0x38) | i) & 7 == i && (((p & 0x38) | i) & 0x38) | (p & 7) == p
  {
  }

  /** Transposing twice changes nothing. */
  lemma OrthoIsInvolution(q: Oct<word>)
    ensures Ortho(Ortho(q)) == q
  {
    hide Sel, Ortho;
    SelAll(q);
    SelAll(Ortho(Ortho(q)));
    OrthoTwice(q, 0);
    OrthoTwice(q, 1);
    OrthoTwice(q, 2);
    OrthoTwice(q, 3);
    OrthoTwice(q, 4);
    OrthoTwice(q, 5);
    OrthoTwice(q, 6);
    OrthoTwice(q, 7);
  }

  // ------------------------------------------------------------------ interleaving

  function Spread(w: half): word {
    var x := w as word;
    var y := (x | (x << 16)) & 0x0000FFFF0000FFFF;
    (y | (y << 8)) & 0x00FF00FF00FF00FF
  }

  function Interleave(a: half, b: half): word { Spread(a) | (Spread(b) << 8) }

  function Gather(x: word): half {
    var y := (x | (x >> 8)) & 0x0000FFFF0000FFFF;
    ((y & 0xFFFF_FFFF) as half) | (((y >> 16) & 0xFFFF_FFFF) as half)
  }

  function Even(q: word): half { Gather(q & 0x00FF00FF00FF00FF) }

  function Odd(q: word): half { Gather((q >> 8) & 0x00FF00FF00FF00FF) }

  lemma OutUndoesIn(a: half, b: half)
    ensures Even(Interleave(a, b)) == a && Odd(Interleave(a, b)) == b
  {
  }

  lemma InUndoesOut(q: word)
    ensures Interleave(Even(q), Odd(q)) == q
  {
  }

  function HalfByte(w: half, r: word): byte
    requires r < 4
  {
    (((w as word) >> (r << 3)) & 0xFF) as byte
  }

  function WordByte(x: word, k: word): byte
    requires k < 64
  {
    ((x >> k) & 0xFF) as byte
  }

  lemma InterleaveBytes(a: half, b: half, r: word)
    requires r < 4
    ensures WordByte(Interleave(a, b), r << 4) == HalfByte(a, r)
    ensures WordByte(Interleave(a, b), (r << 4) | 8) == HalfByte(b, r)
  {
  }

  lemma GatherBytes(q: word, r: word)
    requires r < 4
    ensures WordByte(q, r << 4) == HalfByte(Even(q), r)
    ensures WordByte(q, (r << 4) | 8) == HalfByte(Odd(q), r)
  {
  }

  lemma PackByte(x: word, k: word)
    requires k < 64 && k & 7 == 0
    ensures Pack(Oct(Bit(x, k), Bit(x, k | 1), Bit(x, k | 2), Bit(x, k | 3), Bit(x, k | 4), Bit(x, k | 5), Bit(x, k | 6), Bit(x, k | 7)))
      == WordByte(x, k)
  {
  }

  // ------------------------------------------------------------------ four blocks in and out

  /** Four blocks of four words each, block j in words 4 j to 4 j + 3, as interleave_in places them. */
  function LoadWords(w: seq<half>): Oct<word>
    requires |w| == 16
  {
    Oct(Interleave(w[0], w[2]), Interleave(w[4], w[6]), Interleave(w[8], w[10]), Interleave(w[12], w[14]),
        Interleave(w[1], w[3]), Interleave(w[5], w[7]), Interleave(w[9], w[11]), Interleave(w[13], w[15]))
  }

  function Four(a: word, b: word): (w: seq<half>)
    ensures |w| == 4
  {
    [Even(a), Even(b), Odd(a), Odd(b)]
  }

  function StoreWords(q: Oct<word>): (w: seq<half>)
    ensures |w| == 16
  {
    Four(q.q0, q.q4) + Four(q.q1, q.q5) + Four(q.q2, q.q6) + Four(q.q3, q.q7)
  }

  /** The word and the byte of it that a slot is transposed with. */
  lemma SlotHome(r: nat, c: nat, j: nat)
    requires r < 4 && c < 4 && j < 4
    ensures Pos(r, c, j) & 7 == ((Small(c) & 1) << 2) | Small(j)
    ensures Pos(r, c, j) & 0x38 == if c < 2 then Small(r) << 4 else (Small(r) << 4) | 8
  {
  }

  lemma LoadedWord(w: seq<half>, c: nat, j: nat)
    requires |w| == 16 && c < 4 && j < 4
    ensures var x := Sel(LoadWords(w), ((Small(c) & 1) << 2) | Small(j));
            if c < 2 then x == Interleave(w[4 * j + c], w[4 * j + c + 2]) else x == Interleave(w[4 * j + c - 2], w[4 * j + c])
  {
    hide Interleave;
  }

  /** Loading four blocks and transposing puts byte r of column c of block j into its slot. */
  lemma LoadSlot(w: seq<half>, r: nat, c: nat, j: nat)
    requires |w| == 16 && r < 4 && c < 4 && j < 4
    ensures Slot(Ortho(LoadWords(w)), Pos(r, c, j)) == HalfByte(w[4 * j + c], Small(r))
  {
    hide Ortho, LoadWords, Slot, WordByte, HalfByte, Interleave, Sel, Small, Pos;
    OrthoSlot(LoadWords(w), Pos(r, c, j));
    SlotHome(r, c, j);
    LoadedWord(w, c, j);
    if c < 2 {
      InterleaveBytes(w[4 * j + c], w[4 * j + c + 2], Small(r));
    } else {
      InterleaveBytes(w[4 * j + c - 2], w[4 * j + c], Small(r));
    }
  }

  lemma StoredWord(q: Oct<word>, c: nat, j: nat)
    requires c < 4 && j < 4
    ensures var x := Sel(q, ((Small(c) & 1) << 2) | Small(j));
            StoreWords(q)[4 * j + c] == if c < 2 then Even(x) else Odd(x)
  {
    hide Even, Odd;
  }

  /** Transposing and storing takes each slot back to its byte. */
  lemma StoreSlot(q: Oct<word>, r: nat, c: nat, j: nat)
    requires r < 4 && c < 4 && j < 4
    ensures HalfByte(StoreWords(Ortho(q))[4 * j + c], Small(r)) == Slot(q, Pos(r, c, j))
  {
    hide Ortho, StoreWords, Slot, WordByte, HalfByte, Even, Odd, Sel, Small, Pos;
    var t := Ortho(q);
    OrthoIsInvolution(q);
    OrthoSlot(t, Pos(r, c, j));
    SlotHome(r, c, j);
    StoredWord(t, c, j);
    GatherBytes(Sel(t, ((Small(c) & 1) << 2) | Small(j)), Small(r));
  }
}
