/** The key schedule and the cipher of FIPS 197, sections 5.1 and 5.2, byte by byte: what the bytes of every word and of every
    state are, for each key size, in terms of the S-box, the field and exclusive or alone. */
module AesStandard {
  import opened Primitives
  import opened SBox
  import opened AesSpec

  /** The round constants of section 5.2. */
  const RCON: Bytes := [0x01, 0x02, 0x04, 0x08, 0x10, 0x20, 0x40, 0x80, 0x1B, 0x36]

  function RoundConstant(k: nat): byte { if 1 <= k <= 10 then RCON[k - 1] else 0 }

  predicate Blocks(rk: seq<Bytes>) { forall k | k in rk :: |k| == 16 }

  /** Byte r of word i of the schedule; four words make a round key. */
  function W(rk: seq<Bytes>, i: nat, r: nat): byte
    requires Blocks(rk) && i < 4 * |rk| && r < 4
  {
    rk[i / 4][4 * (i % 4) + r]
  }

  /** What is xored onto byte r of the word |key| bytes before word i. */
  function Added(key: Bytes, rk: seq<Bytes>, i: nat, r: nat): byte
    requires KeyLength(|key|) && Blocks(rk) && |key| / 4 <= i < 4 * |rk| && r < 4
  {
    if |key| == 16 && i % 4 == 0 then SubByte(W(rk, i - 1, (r + 1) % 4)) ^ (if r == 0 then RoundConstant(i / 4) else 0)
    else if |key| == 24 && i % 6 == 0 then SubByte(W(rk, i - 1, (r + 1) % 4)) ^ (if r == 0 then RoundConstant(i / 6) else 0)
    else if |key| == 32 && i % 8 == 0 then SubByte(W(rk, i - 1, (r + 1) % 4)) ^ (if r == 0 then RoundConstant(i / 8) else 0)
    else if |key| == 32 && i % 8 == 4 then SubByte(W(rk, i - 1, r))
    else W(rk, i - 1, r)
  }

  /** Eleven, thirteen or fifteen round keys: the key itself, then every word from the one before it and the one |key| bytes
      back. */
  ghost predicate IsSchedule(key: Bytes, rk: seq<Bytes>)
    requires KeyLength(|key|)
  {
    && Blocks(rk) && |rk| == (if |key| == 16 then 11 else if |key| == 24 then 13 else 15)
    && (forall i: nat, r: nat | i < |key| / 4 && r < 4 :: W(rk, i, r) == key[4 * i + r])
    && forall i: nat, r: nat | |key| / 4 <= i < 4 * |rk| && r < 4 ::
         W(rk, i, r) == W(rk, i - |key| / 4, r) ^ Added(key, rk, i, r)
  }

  lemma RoundKeyByte(key: Bytes, k: nat, t: nat, r: nat)
    requires KeyLength(|key|) && t < 4 && r < 4
    ensures RoundKey(key, k)[4 * t + r] == KeyWord(key, 4 * k + t)[r]
  {
    hide KeyWord;
    var a, b, c, d := KeyWord(key, 4 * k), KeyWord(key, 4 * k + 1), KeyWord(key, 4 * k + 2), KeyWord(key, 4 * k + 3);
    assert RoundKey(key, k) == a + b + c + d;
  }

  lemma ExpandedByte(key: Bytes, i: nat, r: nat)
    requires KeyLength(|key|) && i < 4 * (RoundCount(|key|) + 1) && r < 4
    ensures W(KeyExpansion(key), i, r) == KeyWord(key, i)[r]
  {
    hide KeyWord, RoundKey;
    RoundKeyByte(key, i / 4, i % 4, r);
    assert i == 4 * (i / 4) + i % 4;
    assert KeyExpansion(key)[i / 4] == RoundKey(key, i / 4);
  }

  lemma PowersTabulated(n: nat)
    requires n < 10
    ensures Power(n) == RCON[n]
  {
    assert Power(1) == 2;
    assert Power(2) == 4;
    assert Power(3) == 8;
    assert Power(4) == 0x10;
    assert Power(5) == 0x20;
    assert Power(6) == 0x40;
    assert Power(7) == 0x80;
    assert Power(8) == 0x1B;
    assert Power(9) == 0x36;
  }

  function XorPair(a: byte, b: byte): byte { a ^ b }

  lemma XorWordIs(a: Bytes, b: Bytes)
    requires |a| == 4 && |b| == 4
    ensures XorWord(a, b) == [XorPair(a[0], b[0]), XorPair(a[1], b[1]), XorPair(a[2], b[2]), XorPair(a[3], b[3])]
  {
  }

  lemma XorWordByte(a: Bytes, b: Bytes, r: nat)
    requires |a| == 4 && |b| == 4 && r < 4
    ensures XorWord(a, b)[r] == XorPair(a[r], b[r])
  {
    hide XorWord, XorPair;
    XorWordIs(a, b);
  }

  lemma WordStep(key: Bytes, i: nat, r: nat)
    requires KeyLength(|key|) && |key| / 4 <= i && r < 4
    ensures KeyWord(key, i)[r]
         == XorPair(KeyWord(key, i - |key| / 4)[r], Feedback(|key| / 4, i, KeyWord(key, i - 1))[r])
  {
    hide Feedback, XorWord, XorPair;
    XorWordByte(KeyWord(key, i - |key| / 4), Feedback(|key| / 4, i, KeyWord(key, i - 1)), r);
  }

  /** The byte of the rotated and substituted word, with the round constant on the first. */
  function Turned(prev: Bytes, k: nat, r: nat): byte
    requires |prev| == 4 && r < 4
  {
    XorPair(SubByte(prev[(r + 1) % 4]), if r == 0 then RoundConstant(k) else 0)
  }

  lemma TurnedByte(prev: Bytes, k: nat, r: nat)
    requires |prev| == 4 && r < 4 && 1 <= k <= 10
    ensures XorWord(SubWord(RotWord(prev)), [Power(k - 1), 0, 0, 0])[r] == Turned(prev, k, r)
  {
    hide XorWord, SubWord, RotWord, SubByte, XorPair, Power;
    PowersTabulated(k - 1);
    XorWordByte(SubWord(RotWord(prev)), [Power(k - 1), 0, 0, 0], r);
    SubWordByte(RotWord(prev), r);
    RotWordByte(prev, r);
  }

  lemma FeedbackByte(nk: nat, i: nat, prev: Bytes, r: nat)
    requires (nk == 4 || nk == 6 || nk == 8) && nk <= i && i / nk <= 10 && |prev| == 4 && r < 4
    ensures Feedback(nk, i, prev)[r] ==
            if i % nk == 0 then Turned(prev, i / nk, r)
            else if nk == 8 && i % 8 == 4 then SubByte(prev[r]) else prev[r]
  {
    hide SubByte, Power, Turned, XorWord, SubWord, RotWord;
    if i % nk == 0 {
      TurnedByte(prev, i / nk, r);
    } else {
      SubWordByte(prev, r);
    }
  }

  lemma SubWordByte(w: Bytes, r: nat)
    requires |w| == 4 && r < 4
    ensures SubWord(w)[r] == SubByte(w[r])
  {
    hide SubByte;
  }

  lemma RotWordByte(w: Bytes, r: nat)
    requires |w| == 4 && r < 4
    ensures RotWord(w)[r] == w[(r + 1) % 4]
  {
  }

  lemma FewRounds(n: nat, i: nat)
    requires KeyLength(n) && i < 4 * (RoundCount(n) + 1)
    ensures i / (n / 4) <= 10
  {
  }

  lemma ExpandedStep(key: Bytes, i: nat, r: nat)
    requires KeyLength(|key|) && |key| / 4 <= i < 4 * (RoundCount(|key|) + 1) && r < 4
    ensures var rk := KeyExpansion(key); W(rk, i, r) == W(rk, i - |key| / 4, r) ^ Added(key, rk, i, r)
  {
    hide KeyWord, Feedback, SubByte, W, KeyExpansion, RoundConstant;
    FewRounds(|key|, i);
    ExpandedByte(key, i, r);
    ExpandedByte(key, i - |key| / 4, r);
    ExpandedByte(key, i - 1, r);
    ExpandedByte(key, i - 1, (r + 1) % 4);
    WordStep(key, i, r);
    FeedbackByte(|key| / 4, i, KeyWord(key, i - 1), r);
  }

  /** The recursive key expansion is that schedule. */
  lemma ExpansionIsSchedule(key: Bytes)
    requires KeyLength(|key|)
    ensures IsSchedule(key, KeyExpansion(key))
  {
    hide KeyWord, SubByte, W, KeyExpansion, Added;
    var rk := KeyExpansion(key);
    forall i: nat, r: nat | i < |key| / 4 && r < 4 ensures W(rk, i, r) == key[4 * i + r] {
      ExpandedByte(key, i, r);
      FirstWords(key, i);
    }
    forall i: nat, r: nat | |key| / 4 <= i < 4 * |rk| && r < 4
      ensures W(rk, i, r) == W(rk, i - |key| / 4, r) ^ Added(key, rk, i, r)
    {
      ExpandedStep(key, i, r);
    }
  }

  lemma FirstWords(key: Bytes, i: nat)
    requires KeyLength(|key|) && i < |key| / 4
    ensures KeyWord(key, i) == key[4 * i..4 * i + 4]
  {
  }

  // ------------------------------------------------------------------ the cipher

  /** A substituted byte of a state after its rows were shifted: row r of column c comes from r columns further on. */
  function Moved(s: Bytes, c: nat, r: nat): byte
    requires |s| == 16 && c < 4 && r < 4
  {
    SubByte(s[4 * ((c + r) % 4) + r])
  }

  /** The state after the first key addition and after each round but the last, and the output. */
  ghost predicate IsCipher(rk: seq<Bytes>, b: Bytes, states: seq<Bytes>, out: Bytes) {
    && |rk| >= 2 && Blocks(rk) && Blocks(states) && |states| == |rk| - 1 && |b| == 16 && |out| == 16
    && (forall i: nat | i < 16 :: states[0][i] == b[i] ^ rk[0][i])
    && (forall k: nat, c: nat, r: nat | 1 <= k < |states| && c < 4 && r < 4 ::
          InColumn(states[k], c, r) == Mixed(states[k - 1], c, r) ^ InColumn(rk[k], c, r))
    && forall c: nat, r: nat | c < 4 && r < 4 ::
         InColumn(out, c, r) == Moved(states[|states| - 1], c, r) ^ InColumn(rk[|states|], c, r)
  }

  /** Row r of column c. */
  function InColumn(s: Bytes, c: nat, r: nat): byte
    requires |s| == 16 && c < 4 && r < 4
  {
    s[4 * c + r]
  }

  /** The product of a shifted column with the row 2 3 1 1, rotated. */
  function Mixed(s: Bytes, c: nat, r: nat): byte
    requires |s| == 16 && c < 4 && r < 4
  {
    GfMul(Moved(s, c, r), 2) ^ GfMul(Moved(s, c, (r + 1) % 4), 3) ^ Moved(s, c, (r + 2) % 4) ^ Moved(s, c, (r + 3) % 4)
  }

  lemma ShiftedByte(s: Bytes, c: nat, r: nat)
    requires |s| == 16 && c < 4 && r < 4
    ensures ShiftRows(SubBytes(s))[4 * c + r] == Moved(s, c, r)
  {
    hide SubByte;
    assert (4 * c + r) / 4 == c && (4 * c + r) % 4 == r;
  }

  lemma MixedByte(s: Bytes, c: nat, r: nat)
    requires |s| == 16 && c < 4 && r < 4
    ensures MixColumns(ShiftRows(SubBytes(s)))[4 * c + r] == Mixed(s, c, r)
  {
    hide SubByte, GfMul, Mix, SubBytes, ShiftRows, Moved;
    assert (4 * c + r) / 4 == c && (4 * c + r) % 4 == r;
    ShiftedByte(s, c, r);
    ShiftedByte(s, c, (r + 1) % 4);
    ShiftedByte(s, c, (r + 2) % 4);
    ShiftedByte(s, c, (r + 3) % 4);
    MixIsMixColumn(Moved(s, c, r), Moved(s, c, (r + 1) % 4), Moved(s, c, (r + 2) % 4), Moved(s, c, (r + 3) % 4));
  }

  lemma AddedByte(s: Bytes, k: Bytes, i: nat)
    requires |s| == 16 && |k| == 16 && i < 16
    ensures AddRoundKey(s, k)[i] == s[i] ^ k[i]
  {
  }

  /** The cipher of the specification is that run. */
  lemma CipherIsStandard(rk: seq<Bytes>, b: Bytes) returns (states: seq<Bytes>)
    requires RoundKeys(rk) && |b| == 16
    ensures IsCipher(rk, b, states, Cipher(rk, b))
  {
    hide AddRoundKey, MixColumns, ShiftRows, SubBytes, Mixed, Moved, AfterRounds;
    states := seq(|rk| - 1, k requires 0 <= k < |rk| - 1 => AfterRounds(rk, b, k));
    forall i: nat | i < 16 ensures states[0][i] == b[i] ^ rk[0][i] {
      RoundStep(rk, b, 0);
      AddedByte(b, rk[0], i);
    }
    forall k: nat, c: nat, r: nat | 1 <= k < |states| && c < 4 && r < 4
      ensures InColumn(states[k], c, r) == Mixed(states[k - 1], c, r) ^ InColumn(rk[k], c, r)
    {
      RoundStep(rk, b, k);
      MixedByte(states[k - 1], c, r);
      AddedByte(MixColumns(ShiftRows(SubBytes(states[k - 1]))), rk[k], 4 * c + r);
    }
    forall c: nat, r: nat | c < 4 && r < 4
      ensures InColumn(Cipher(rk, b), c, r) == Moved(states[|states| - 1], c, r) ^ InColumn(rk[|states|], c, r)
    {
      ShiftedByte(states[|states| - 1], c, r);
      AddedByte(ShiftRows(SubBytes(states[|states| - 1])), rk[|states|], 4 * c + r);
    }
  }

  lemma RoundStep(rk: seq<Bytes>, b: Bytes, k: nat)
    requires RoundKeys(rk) && |b| == 16 && k < |rk|
    ensures AfterRounds(rk, b, k)
         == if k == 0 then AddRoundKey(b, rk[0])
            else AddRoundKey(MixColumns(ShiftRows(SubBytes(AfterRounds(rk, b, k - 1)))), rk[k])
  {
    hide AddRoundKey, MixColumns, ShiftRows, SubBytes;
  }

  /** out is the block b enciphered under the key. */
  ghost predicate Enciphers(key: Bytes, b: Bytes, out: Bytes) {
    KeyLength(|key|) && exists rk, states :: IsSchedule(key, rk) && IsCipher(rk, b, states, out)
  }

  lemma AesIsStandard(key: Bytes, b: Bytes)
    requires KeyLength(|key|) && |b| == 16
    ensures Enciphers(key, b, AesSpec.Aes(key, b))
  {
    hide IsSchedule, IsCipher, Cipher, KeyExpansion;
    ExpansionIsSchedule(key);
    var states := CipherIsStandard(KeyExpansion(key), b);
  }

  // ------------------------------------------------------------------ there is only one

  lemma {:induction false} SameWords(key: Bytes, x: seq<Bytes>, y: seq<Bytes>, i: nat, r: nat)
    requires KeyLength(|key|) && IsSchedule(key, x) && IsSchedule(key, y) && i < 4 * |x| && r < 4
    ensures W(x, i, r) == W(y, i, r)
    decreases i
  {
    hide W, SubByte, RoundConstant;
    if i >= |key| / 4 {
      SameWords(key, x, y, i - |key| / 4, r);
      SameWords(key, x, y, i - 1, r);
      SameWords(key, x, y, i - 1, (r + 1) % 4);
      assert Added(key, x, i, r) == Added(key, y, i, r);
      assert W(x, i, r) == W(x, i - |key| / 4, r) ^ Added(key, x, i, r);
      assert W(y, i, r) == W(y, i - |key| / 4, r) ^ Added(key, y, i, r);
    }
  }

  lemma ScheduleIsUnique(key: Bytes, x: seq<Bytes>, y: seq<Bytes>)
    requires KeyLength(|key|) && IsSchedule(key, x) && IsSchedule(key, y)
    ensures x == y
  {
    forall k: nat, i: nat | k < |x| && i < 16 ensures x[k][i] == y[k][i] {
      SameWords(key, x, y, 4 * k + i / 4, i % 4);
      hide IsSchedule;
      assert (4 * k + i / 4) / 4 == k && (4 * k + i / 4) % 4 == i / 4;
    }
    forall k: nat | k < |x| ensures x[k] == y[k] { }
  }

  lemma {:induction false} SameStates(rk: seq<Bytes>, b: Bytes, s: seq<Bytes>, t: seq<Bytes>, x: Bytes, y: Bytes, k: nat)
    requires IsCipher(rk, b, s, x) && IsCipher(rk, b, t, y) && k < |s|
    ensures s[k] == t[k]
    decreases k
  {
    hide Mixed, Moved;
    if k > 0 {
      SameStates(rk, b, s, t, x, y, k - 1);
    }
    forall i: nat | i < 16 ensures s[k][i] == t[k][i] {
      var c, r := i / 4, i % 4;
      assert i == 4 * c + r;
      if k > 0 {
        assert InColumn(s[k], c, r) == Mixed(s[k - 1], c, r) ^ InColumn(rk[k], c, r);
        assert InColumn(t[k], c, r) == Mixed(t[k - 1], c, r) ^ InColumn(rk[k], c, r);
      }
    }
  }

  lemma SameOutput(rk: seq<Bytes>, b: Bytes, s: seq<Bytes>, t: seq<Bytes>, x: Bytes, y: Bytes)
    requires IsCipher(rk, b, s, x) && IsCipher(rk, b, t, y)
    ensures x == y
  {
    hide Mixed, Moved;
    SameStates(rk, b, s, t, x, y, |s| - 1);
    forall i: nat | i < 16 ensures x[i] == y[i] {
      var c, r := i / 4, i % 4;
      assert i == 4 * c + r;
      assert InColumn(x, c, r) == Moved(s[|s| - 1], c, r) ^ InColumn(rk[|s|], c, r);
      assert InColumn(y, c, r) == Moved(t[|s| - 1], c, r) ^ InColumn(rk[|s|], c, r);
    }
  }

  /** The byte-wise statement determines the output. */
  lemma {:induction false} EnciphersOnce(key: Bytes, b: Bytes, x: Bytes, y: Bytes)
    requires Enciphers(key, b, x) && Enciphers(key, b, y)
    ensures x == y
  {
    hide IsSchedule, IsCipher;
    var rk, s :| IsSchedule(key, rk) && IsCipher(rk, b, s, x);
    var rk', t :| IsSchedule(key, rk') && IsCipher(rk', b, t, y);
    ScheduleIsUnique(key, rk, rk');
    SameOutput(rk, b, s, t, x, y);
  }
}
