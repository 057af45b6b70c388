/** The key schedule of aes.c: words expanded with the bitsliced S-box, each round key compressed to two words and expanded
    again to eight.  Nothing is lost on the way, and every lane of every round key is the key of FIPS 197. */
module AesKeys {
  import opened Primitives
  import opened SBox
  import opened Words
  import opened Bitslice
  import opened Layout
  import opened AesSpec
  import AesStandard
  import opened Aes
  import opened AesCtr

  // ------------------------------------------------------------------ compression

  const M1: word := 0x1111111111111111
  const M2: word := 0x2222222222222222
  const M4: word := 0x4444444444444444
  const M8: word := 0x8888888888888888

  /** The low bit of every nibble copied to the whole nibble. */
  function Fill(x: word): word { (x & M1) | ((x & M1) << 1) | ((x & M1) << 2) | ((x & M1) << 3) }

  /** Every nibble is 0 or 15. */
  predicate Uniform(x: word) { x == Fill(x) }

  function Compress(a: word, b: word, c: word, d: word): word { (a & M1) | (b & M2) | (c & M4) | (d & M8) }

  function Part0(x: word): word { x & M1 }

  function Part1(x: word): word { (x & M2) >> 1 }

  function Part2(x: word): word { (x & M4) >> 2 }

  function Part3(x: word): word { (x & M8) >> 3 }

  /** skey_expand fills nibbles by a shift and a subtraction. */
  function Nibbles(x: word): word { (x << 4) - x }

  lemma RawNibbles(x: word)
    requires x & 0x1111111111111111 == x
    ensures (x << 4) - x == x | (x << 1) | (x << 2) | (x << 3)
  {
  }

  lemma NibblesFill(x: word)
    ensures Nibbles(Part0(x)) == Fill(x)
  {
    RawNibbles(x & M1);
  }

  lemma CompressedParts(a: word, b: word, c: word, d: word)
    requires Uniform(a) && Uniform(b) && Uniform(c) && Uniform(d)
    ensures var x := Compress(a, b, c, d);
            Part0(x) == Part0(a) && Part1(x) == Part0(b) && Part2(x) == Part0(c) && Part3(x) == Part0(d)
  {
  }

  /** Expanding the compressed word gives the four words back. */
  lemma ExpandUndoesCompress(a: word, b: word, c: word, d: word)
    requires Uniform(a) && Uniform(b) && Uniform(c) && Uniform(d)
    ensures var x := Compress(a, b, c, d);
            Nibbles(Part0(x)) == a && Nibbles(Part1(x)) == b && Nibbles(Part2(x)) == c && Nibbles(Part3(x)) == d
  {
    hide Part0, Part1, Part2, Part3, Nibbles, Fill, Compress;
    CompressedParts(a, b, c, d);
    NibblesFill(a);
    NibblesFill(b);
    NibblesFill(c);
    NibblesFill(d);
  }

  predicate UniformByte(b: byte) { b == 0 || b == 0x0F || b == 0xF0 || b == 0xFF }

  lemma RawUniform(x: word)
    requires UniformByte(WordByte(x, 0)) && UniformByte(WordByte(x, 8)) && UniformByte(WordByte(x, 16))
    requires UniformByte(WordByte(x, 24)) && UniformByte(WordByte(x, 32)) && UniformByte(WordByte(x, 40))
    requires UniformByte(WordByte(x, 48)) && UniformByte(WordByte(x, 56))
    ensures Uniform(x)
  {
  }

  lemma PackUniform(a: bit, b: bit)
    ensures UniformByte(Pack(Oct(a, a, a, a, b, b, b, b)))
  {
  }

  lemma UniformAt(x: word, k: word)
    requires k < 64 && k & 7 == 0 && forall p: word | p < 64 :: Bit(x, p) == Bit(x, p & 0x3C)
    ensures UniformByte(WordByte(x, k))
  {
    hide Bit, Pack, WordByte, UniformByte;
    PackByte(x, k);
    RawNibble(k);
    assert Bit(x, k | 1) == Bit(x, k) && Bit(x, k | 2) == Bit(x, k) && Bit(x, k | 3) == Bit(x, k);
    assert Bit(x, k | 5) == Bit(x, k | 4) && Bit(x, k | 6) == Bit(x, k | 4) && Bit(x, k | 7) == Bit(x, k | 4);
    PackUniform(Bit(x, k), Bit(x, k | 4));
  }

  lemma RawNibble(k: word)
    requires k < 64 && k & 7 == 0
    ensures (k | 1) & 0x3C == k && (k | 2) & 0x3C == k && (k | 3) & 0x3C == k
    ensures (k | 5) & 0x3C == k | 4 && (k | 6) & 0x3C == k | 4 && (k | 7) & 0x3C == k | 4
  {
  }

  lemma UniformBits(x: word)
    requires forall p: word | p < 64 :: Bit(x, p) == Bit(x, p & 0x3C)
    ensures Uniform(x)
  {
    hide Bit, WordByte, UniformByte, Uniform;
    UniformAt(x, 0);
    UniformAt(x, 8);
    UniformAt(x, 16);
    UniformAt(x, 24);
    UniformAt(x, 32);
    UniformAt(x, 40);
    UniformAt(x, 48);
    UniformAt(x, 56);
    RawUniform(x);
  }

  /** Transposing a state whose words 0 to 3 are equal and whose words 4 to 7 are equal makes every nibble uniform. */
  lemma CopiesAreUniform(a: word, b: word, i: word)
    requires i < 8
    ensures Uniform(Sel(Ortho(Oct(a, a, a, a, b, b, b, b)), i))
  {
    hide Bit, Ortho, Sel, Uniform;
    var q := Oct(a, a, a, a, b, b, b, b);
    var x := Sel(Ortho(q), i);
    forall p: word | p < 64 ensures Bit(x, p) == Bit(x, p & 0x3C) {
      OrthoBit(q, i, p);
      OrthoBit(q, i, p & 0x3C);
      SameCopy(a, b, p);
      RawSame(p);
    }
    UniformBits(x);
  }

  lemma RawSame(p: word)
    requires p < 64
    ensures p & 0x3C < 64 && (p & 0x3C) & 0x38 == p & 0x38
  {
  }

  lemma SameCopy(a: word, b: word, p: word)
    ensures Sel(Oct(a, a, a, a, b, b, b, b), p & 7) == Sel(Oct(a, a, a, a, b, b, b, b), (p & 0x3C) & 7)
  {
  }

  // ------------------------------------------------------------------ the S-box on one word

  /** The four bytes of a word, the low one first. */
  function WordBytes(w: half): (b: Bytes)
    ensures |b| == 4
  {
    [HalfByte(w, 0), HalfByte(w, 1), HalfByte(w, 2), HalfByte(w, 3)]
  }

  lemma WordBytesAt(w: half, r: nat)
    requires r < 4
    ensures WordBytes(w)[r] == HalfByte(w, Small(r))
  {
    hide HalfByte;
  }

  lemma FirstWordBytes(x: half, r: word)
    requires r < 4
    ensures WordByte(x as word, r << 3) == HalfByte(x, r)
  {
  }

  lemma LowHalfBytes(x: word, r: word)
    requires r < 4
    ensures HalfByte((x & 0xFFFF_FFFF) as half, r) == WordByte(x, r << 3)
  {
  }

  method SubWordC(x: half) returns (out: half)
    ensures forall r: word | r < 4 :: HalfByte(out, r) == SubByte(HalfByte(x, r))
  {
    hide Slot, SubByte, Ortho, WordByte, HalfByte, Sel;
    var q := Oct(x as word, 0, 0, 0, 0, 0, 0, 0);
    var t := Ortho(q);
    var s := BitsliceSbox(t);
    var u := Ortho(s);
    out := (u.q0 & 0xFFFF_FFFF) as half;
    forall r: word | r < 4 ensures HalfByte(out, r) == SubByte(HalfByte(x, r)) {
      var p := r << 3;
      RawByteStart(r);
      FirstWord(q);
      FirstWord(u);
      OrthoSlot(q, p);
      OrthoSlot(u, p);
      OrthoIsInvolution(s);
      FirstWordBytes(x, r);
      LowHalfBytes(u.q0, r);
    }
  }

  lemma FirstWord(q: Oct<word>)
    ensures Sel(q, 0) == q.q0
  {
  }

  lemma RawByteStart(r: word)
    requires r < 4
    ensures r << 3 < 64 && (r << 3) & 7 == 0 && (r << 3) & 0x38 == r << 3
  {
  }

  // ------------------------------------------------------------------ the words of the key

  const RCON: seq<half> := [0x01, 0x02, 0x04, 0x08, 0x10, 0x20, 0x40, 0x80, 0x1B, 0x36]

  function Rcon(k: nat): half
    requires k < 10
  {
    RCON[k]
  }

  function RotateDown(w: half): half { (w << 24) | (w >> 8) }

  lemma RotateBytes(w: half)
    ensures HalfByte(RotateDown(w), 0) == HalfByte(w, 1) && HalfByte(RotateDown(w), 1) == HalfByte(w, 2)
    ensures HalfByte(RotateDown(w), 2) == HalfByte(w, 3) && HalfByte(RotateDown(w), 3) == HalfByte(w, 0)
  {
  }

  function XorHalf(a: half, b: half): half { a ^ b }

  lemma RawShiftXor(a: word, b: word, k: word)
    requires k <= 24
    ensures ((a ^ b) >> k) & 0xFF == ((a >> k) & 0xFF) ^ ((b >> k) & 0xFF)
  {
  }

  lemma RawLowXor(x: word, y: word)
    requires x < 256 && y < 256
    ensures (x ^ y) as byte == (x as byte) ^ (y as byte)
  {
  }

  lemma WordByteXor(x: word, y: word, k: word)
    requires k <= 24
    ensures WordByte(Xor(x, y), k) == WordByte(x, k) ^ WordByte(y, k)
  {
    RawShiftXor(x, y, k);
    RawLowXor((x >> k) & 0xFF, (y >> k) & 0xFF);
  }

  function Widen(w: half): word { w as word }

  lemma WidenXor(a: half, b: half)
    ensures Widen(XorHalf(a, b)) == Xor(Widen(a), Widen(b))
  {
  }

  lemma HalfByteWidens(w: half, r: word)
    requires r < 4
    ensures r << 3 <= 24 && HalfByte(w, r) == WordByte(Widen(w), r << 3)
  {
  }

  lemma XorHalfByte(a: half, b: half, r: word)
    requires r < 4
    ensures HalfByte(XorHalf(a, b), r) == HalfByte(a, r) ^ HalfByte(b, r)
  {
    hide HalfByte, WordByte, XorHalf, Xor, Widen;
    HalfByteWidens(a, r);
    HalfByteWidens(b, r);
    HalfByteWidens(XorHalf(a, b), r);
    WidenXor(a, b);
    WordByteXor(Widen(a), Widen(b), r << 3);
  }

  lemma XorBytes(a: half, b: half)
    ensures WordBytes(XorHalf(a, b)) == XorWord(WordBytes(a), WordBytes(b))
  {
    hide HalfByte, XorHalf;
    XorHalfByte(a, b, 0);
    XorHalfByte(a, b, 1);
    XorHalfByte(a, b, 2);
    XorHalfByte(a, b, 3);
  }

  lemma SubWordBytes(x: half, out: half)
    requires forall r: word | r < 4 :: HalfByte(out, r) == SubByte(HalfByte(x, r))
    ensures WordBytes(out) == SubWord(WordBytes(x))
  {
    hide HalfByte, SubByte;
  }

  lemma RotWordBytes(x: half)
    ensures WordBytes(RotateDown(x)) == RotWord(WordBytes(x))
  {
    hide HalfByte, RotateDown;
    RotateBytes(x);
  }

  /** The table holds the powers of x. */
  lemma RconIsPower(k: nat)
    requires k < 10
    ensures WordBytes(Rcon(k)) == [Power(k), 0, 0, 0]
  {
    Powers();
    hide Power;
  }

  lemma Powers()
    ensures Power(0) == 0x01 && Power(1) == 0x02 && Power(2) == 0x04 && Power(3) == 0x08 && Power(4) == 0x10
    ensures Power(5) == 0x20 && Power(6) == 0x40 && Power(7) == 0x80 && Power(8) == 0x1B && Power(9) == 0x36
  {
    assert Power(1) == 2;
    assert Power(2) == 4;
    assert Power(3) == 8;
    assert Power(4) == 0x10;
    assert Power(5) == 0x20;
    assert Power(6) == 0x40;
    assert Power(7) == 0x80;
    assert Power(8) == 0x1B;
    assert Power(9) == 0x36;
  }

  lemma DecodedBytes(b: Bytes)
    requires |b| == 4
    ensures WordBytes(Decode(b)) == b
  {
    hide HalfByte, Decode;
    SmallValues();
    DecodeBytes(b, 0);
    DecodeBytes(b, 1);
    DecodeBytes(b, 2);
    DecodeBytes(b, 3);
  }

  /** The word xored onto skey[i - nk], from the word before i and the running position j = i % nk and round k. */
  method FeedbackC(tmp: half, nk: nat, i: nat, j: nat, k: nat) returns (out: half)
    requires nk > 0 && i >= nk && j == i % nk && k == i / nk - 1 && k < 10
    ensures WordBytes(out) == Feedback(nk, i, WordBytes(tmp))
  {
    hide HalfByte, RotateDown, XorHalf, WordBytes, SubWord, RotWord, XorWord, Power, Rcon, SubByte;
    if j == 0 {
      var r := RotateDown(tmp);
      RotWordBytes(tmp);
      var s := SubWordC(r);
      SubWordBytes(r, s);
      out := XorHalf(s, Rcon(k));
      XorBytes(s, Rcon(k));
      RconIsPower(k);
    } else if nk > 6 && j == 4 {
      out := SubWordC(tmp);
      SubWordBytes(tmp, out);
    } else {
      out := tmp;
    }
  }

  /** The words of the round keys, in order. */
  method KeyWords(key: Bytes) returns (skey: array<half>)
    requires KeyLength(|key|)
    ensures fresh(skey) && skey.Length == 60
    ensures forall m | 0 <= m < 4 * (RoundCount(|key|) + 1) :: WordBytes(skey[m]) == KeyWord(key, m)
  {
    hide WordBytes, XorHalf, XorWord, Feedback, Decode, KeyWord;
    var nk := |key| / 4;
    var nkf := 4 * (RoundCount(|key|) + 1);
    skey := new half[60];
    RangeDecode(skey, nk, key);
    forall m | 0 <= m < nk ensures WordBytes(skey[m]) == KeyWord(key, m) {
      DecodedBytes(key[4 * m..4 * m + 4]);
      FirstKeyWords(key, m);
    }
    var tmp := skey[nk - 1];
    var j, k := 0, 0;
    for i := nk to nkf
      invariant j < nk && i == nk * (k + 1) + j && fresh(skey)
      invariant WordBytes(tmp) == KeyWord(key, i - 1)
      invariant forall m | 0 <= m < i :: WordBytes(skey[m]) == KeyWord(key, m)
    {
      KeyPosition(nk, i, j, k);
      var t := FeedbackC(tmp, nk, i, j, k);
      tmp := XorHalf(t, skey[i - nk]);
      XorBytes(t, skey[i - nk]);
      NextKeyWord(key, i, WordBytes(t));
      skey[i] := tmp;
      j := j + 1;
      if j == nk {
        j := 0;
        k := k + 1;
      }
    }
  }

  lemma FirstKeyWords(key: Bytes, m: nat)
    requires KeyLength(|key|) && m < |key| / 4
    ensures KeyWord(key, m) == key[4 * m..4 * m + 4]
  {
  }

  lemma NextKeyWord(key: Bytes, i: nat, t: Bytes)
    requires KeyLength(|key|) && i >= |key| / 4 && t == Feedback(|key| / 4, i, KeyWord(key, i - 1))
    ensures XorWord(t, KeyWord(key, i - |key| / 4)) == KeyWord(key, i)
  {
    hide Feedback;
  }

  lemma KeyPosition(nk: nat, i: nat, j: nat, k: nat)
    requires ((nk == 4 && i < 44) || (nk == 6 && i < 52) || (nk == 8 && i < 60)) && j < nk && i == nk * (k + 1) + j
    ensures j == i % nk && k == i / nk - 1 && k < 10
  {
  }

  // ------------------------------------------------------------------ round keys

  /** The eight orthogonalised words of the round key made of four words. */
  function KeySlices(w: seq<half>): Oct<word>
    requires |w| == 4
  {
    var a, b := Interleave(w[0], w[2]), Interleave(w[1], w[3]);
    Ortho(Oct(a, a, a, a, b, b, b, b))
  }

  function Compressed(q: Oct<word>): seq<word> { [Compress(q.q0, q.q1, q.q2, q.q3), Compress(q.q4, q.q5, q.q6, q.q7)] }

  function ExpandOne(x: word): (s: seq<word>)
    ensures |s| == 4
  {
    [Nibbles(Part0(x)), Nibbles(Part1(x)), Nibbles(Part2(x)), Nibbles(Part3(x))]
  }

  /** Compressing a round key to two words and expanding them again loses nothing. */
  lemma RoundKeySurvives(w: seq<half>)
    requires |w| == 4
    ensures var q := KeySlices(w); var c := Compressed(q);
            ExpandOne(c[0]) + ExpandOne(c[1]) == [q.q0, q.q1, q.q2, q.q3, q.q4, q.q5, q.q6, q.q7]
  {
    hide Interleave, Ortho, Sel, Compress, Nibbles, Part0, Part1, Part2, Part3, Uniform;
    var q := KeySlices(w);
    SelAll(q);
    var a, b := Interleave(w[0], w[2]), Interleave(w[1], w[3]);
    CopiesAreUniform(a, b, 0);
    CopiesAreUniform(a, b, 1);
    CopiesAreUniform(a, b, 2);
    CopiesAreUniform(a, b, 3);
    CopiesAreUniform(a, b, 4);
    CopiesAreUniform(a, b, 5);
    CopiesAreUniform(a, b, 6);
    CopiesAreUniform(a, b, 7);
    ExpandUndoesCompress(q.q0, q.q1, q.q2, q.q3);
    ExpandUndoesCompress(q.q4, q.q5, q.q6, q.q7);
  }

  /** Four copies of the four words load as those slices. */
  lemma SlicesAreLoaded(w: seq<half>)
    requires |w| == 4
    ensures KeySlices(w) == Ortho(LoadWords(w + w + w + w))
  {
    hide Interleave, Ortho;
  }

  /** Every lane of the slices is the sixteen bytes of the four words. */
  lemma SlicesLane(w: seq<half>, j: nat)
    requires |w| == 4 && j < 4
    ensures Lane(KeySlices(w), j) == WordBytes(w[0]) + WordBytes(w[1]) + WordBytes(w[2]) + WordBytes(w[3])
  {
    hide HalfByte, KeySlices, Ortho, LoadWords, Lane;
    SlicesAreLoaded(w);
    var v := w + w + w + w;
    LoadLane(v, j);
    assert v[4 * j] == w[0] && v[4 * j + 1] == w[1] && v[4 * j + 2] == w[2] && v[4 * j + 3] == w[3];
    InBlockWords(v, j);
  }

  lemma InBlockWords(v: seq<half>, j: nat)
    requires |v| == 16 && j < 4
    ensures InBlock(v, j) == WordBytes(v[4 * j]) + WordBytes(v[4 * j + 1]) + WordBytes(v[4 * j + 2]) + WordBytes(v[4 * j + 3])
  {
    hide HalfByte, WordBytes, Small, InBlock;
    var b := WordBytes(v[4 * j]) + WordBytes(v[4 * j + 1]) + WordBytes(v[4 * j + 2]) + WordBytes(v[4 * j + 3]);
    forall i | 0 <= i < 16 ensures InBlock(v, j)[i] == b[i] {
      InBlockAt(v, j, i);
      WordBytesAt(v[4 * j + i / 4], i % 4);
      FourParts(WordBytes(v[4 * j]), WordBytes(v[4 * j + 1]), WordBytes(v[4 * j + 2]), WordBytes(v[4 * j + 3]), i);
    }
  }

  lemma FourParts(a: Bytes, b: Bytes, c: Bytes, d: Bytes, i: nat)
    requires |a| == 4 && |b| == 4 && |c| == 4 && |d| == 4 && i < 16
    ensures (a + b + c + d)[i] == (if i / 4 == 0 then a else if i / 4 == 1 then b else if i / 4 == 2 then c else d)[i % 4]
  {
  }

  /** Lane j of round key i as the cipher will use it. */
  function ExpandedLane(comp: seq<word>, i: nat, j: nat): (k: Bytes)
    requires 2 * i + 1 < |comp| && j < 4
    ensures |k| == 16
  {
    Lane(Words8(ExpandOne(comp[2 * i]) + ExpandOne(comp[2 * i + 1])), j)
  }

  /** br_aes_ct64_keysched. */
  method Keysched(key: Bytes) returns (comp: seq<word>)
    requires KeyLength(|key|)
    ensures |comp| == 2 * (RoundCount(|key|) + 1)
    ensures forall i, j | 0 <= i <= RoundCount(|key|) && 0 <= j < 4 :: ExpandedLane(comp, i, j) == RoundKey(key, i)
  {
    hide Lane, Words8, ExpandOne, KeyWord, WordBytes, Compress;
    var nkf := 4 * (RoundCount(|key|) + 1);
    var skey := KeyWords(key);
    var words := skey[..];
    comp := [];
    for n := 0 to RoundCount(|key|) + 1
      invariant |comp| == 2 * n
      invariant forall i, j | 0 <= i < n && 0 <= j < 4 :: ExpandedLane(comp, i, j) == RoundKey(key, i)
    {
      var w := words[4 * n..4 * n + 4];
      var c := CompressKey(w);
      assert WordBytes(w[0]) == KeyWord(key, 4 * n) && WordBytes(w[1]) == KeyWord(key, 4 * n + 1);
      assert WordBytes(w[2]) == KeyWord(key, 4 * n + 2) && WordBytes(w[3]) == KeyWord(key, 4 * n + 3);
      assert WordBytes(w[0]) + WordBytes(w[1]) + WordBytes(w[2]) + WordBytes(w[3]) == RoundKey(key, n);
      forall i, j | 0 <= i <= n && 0 <= j < 4 ensures ExpandedLane(comp + c, i, j) == RoundKey(key, i) {
        if i < n {
          assert (comp + c)[2 * i] == comp[2 * i] && (comp + c)[2 * i + 1] == comp[2 * i + 1];
          assert ExpandedLane(comp + c, i, j) == ExpandedLane(comp, i, j);
        } else {
          assert (comp + c)[2 * i] == c[0] && (comp + c)[2 * i + 1] == c[1];
        }
      }
      comp := comp + c;
    }
  }

  method CompressKey(w: seq<half>) returns (c: seq<word>)
    requires |w| == 4
    ensures |c| == 2
    ensures forall j | 0 <= j < 4 ::
              Lane(Words8(ExpandOne(c[0]) + ExpandOne(c[1])), j)
              == WordBytes(w[0]) + WordBytes(w[1]) + WordBytes(w[2]) + WordBytes(w[3])
  {
    hide Lane, ExpandOne, WordBytes, Compress, Interleave, Ortho;
    var a, b := Interleave(w[0], w[2]), Interleave(w[1], w[3]);
    var q := Ortho(Oct(a, a, a, a, b, b, b, b));
    c := [Compress(q.q0, q.q1, q.q2, q.q3), Compress(q.q4, q.q5, q.q6, q.q7)];
    assert c == Compressed(KeySlices(w));
    RoundKeySurvives(w);
    assert Words8(ExpandOne(c[0]) + ExpandOne(c[1])) == KeySlices(w);
    forall j | 0 <= j < 4
      ensures Lane(KeySlices(w), j) == WordBytes(w[0]) + WordBytes(w[1]) + WordBytes(w[2]) + WordBytes(w[3])
    {
      SlicesLane(w, j);
    }
  }

  /** br_aes_ct64_skey_expand: four words for each compressed one. */
  method SkeyExpand(comp: seq<word>, nr: nat) returns (sk: seq<word>)
    requires |comp| == 2 * (nr + 1)
    ensures |sk| == 8 * (nr + 1)
    ensures forall i | 0 <= i <= nr :: sk[8 * i..8 * i + 8] == ExpandOne(comp[2 * i]) + ExpandOne(comp[2 * i + 1])
  {
    hide Nibbles, Part0, Part1, Part2, Part3;
    var n := (nr + 1) * 2;
    sk := [];
    for u := 0 to n
      invariant |sk| == 4 * u
      invariant forall v | 0 <= v < u :: sk[4 * v..4 * v + 4] == ExpandOne(comp[v])
    {
      var x := comp[u];
      sk := sk + [Nibbles(Part0(x)), Nibbles(Part1(x)), Nibbles(Part2(x)), Nibbles(Part3(x))];
    }
    forall i | 0 <= i <= nr ensures sk[8 * i..8 * i + 8] == ExpandOne(comp[2 * i]) + ExpandOne(comp[2 * i + 1]) {
      hide ExpandOne;
      assert sk[4 * (2 * i)..4 * (2 * i) + 4] == ExpandOne(comp[2 * i]);
      assert sk[4 * (2 * i + 1)..4 * (2 * i + 1) + 4] == ExpandOne(comp[2 * i + 1]);
      SliceSplits(sk, 8 * i, 8 * i + 4, 8 * i + 8);
    }
  }

  /** Key expansion of all three sizes: every lane holds the round keys of the standard. */
  method KeyExp(key: Bytes) returns (sk: seq<word>)
    requires KeyLength(|key|)
    ensures |sk| == 8 * (RoundCount(|key|) + 1)
    ensures forall j | 0 <= j < 4 :: LaneKeys(sk, RoundCount(|key|), j) == KeyExpansion(key)
    ensures AesStandard.IsSchedule(key, LaneKeys(sk, RoundCount(|key|), 0))
  {
    hide Lane, Words8, ExpandOne, RoundKey, AesStandard.IsSchedule;
    AesStandard.ExpansionIsSchedule(key);
    var comp := Keysched(key);
    sk := SkeyExpand(comp, RoundCount(|key|));
    forall j, i | 0 <= j < 4 && 0 <= i <= RoundCount(|key|) ensures LaneKey(sk, i, j) == RoundKey(key, i) {
      assert sk[8 * i..8 * i + 8] == ExpandOne(comp[2 * i]) + ExpandOne(comp[2 * i + 1]);
      assert ExpandedLane(comp, i, j) == RoundKey(key, i);
    }
  }

  // ------------------------------------------------------------------ the interface

  /** ECB under a key: every block by itself, by the cipher of the standard. */
  method AesEcb(key: Bytes, inp: Bytes, nblocks: nat) returns (out: Bytes)
    requires KeyLength(|key|) && |inp| >= 16 * nblocks
    ensures |out| == 16 * nblocks
    ensures forall i | 0 <= i < nblocks ::
              BlockAt(out, i) == AesSpec.Aes(key, BlockAt(inp, i))
              && AesStandard.Enciphers(key, BlockAt(inp, i), BlockAt(out, i))
  {
    hide LaneKeys, KeyExpansion, Cipher, AesStandard.Enciphers;
    var sk := KeyExp(key);
    out := Ecb(inp, nblocks, sk, RoundCount(|key|));
    forall i | 0 <= i < nblocks
      ensures BlockAt(out, i) == AesSpec.Aes(key, BlockAt(inp, i))
              && AesStandard.Enciphers(key, BlockAt(inp, i), BlockAt(out, i))
    {
      AesStandard.AesIsStandard(key, BlockAt(inp, i));
      var j := i % 4;
      assert LaneKeys(sk, RoundCount(|key|), j) == KeyExpansion(key);
    }
  }

  /** CTR under a key: byte k is byte k % 16 of the cipher applied to the nonce and the counter k / 16. */
  method AesCtrMode(key: Bytes, iv: Bytes, outlen: nat) returns (out: Bytes)
    requires KeyLength(|key|) && |iv| == 12
    ensures |out| == outlen
    ensures forall k | 0 <= k < outlen :: out[k] == AesSpec.Aes(key, CtrBlock(iv, k / 16))[k % 16]
  {
    hide LaneKeys, KeyExpansion, Cipher, CtrBlock;
    var sk := KeyExp(key);
    out := Ctr(outlen, iv, sk, RoundCount(|key|));
  }
}
