/** AES as FIPS 197 defines it, on blocks of sixteen bytes in column order: the cipher (section 5.1) and the key expansion
    (section 5.2). */
module AesSpec {
  import opened Primitives
  import opened SBox

  function SubBytes(b: Bytes): (s: Bytes)
    requires |b| == 16
    ensures |s| == 16
  {
    seq(16, i requires 0 <= i < 16 => SubByte(b[i]))
  }

  /** Row i % 4, column i / 4 comes from the same row, i % 4 columns to the right. */
  function ShiftRows(b: Bytes): (s: Bytes)
    requires |b| == 16
    ensures |s| == 16
  {
    seq(16, i requires 0 <= i < 16 => b[4 * ((i / 4 + i % 4) % 4) + i % 4])
  }

  /** 2 a + 3 b + c + d in the field. */
  function Mix(a: byte, b: byte, c: byte, d: byte): byte { XTime(a) ^ XTime(b) ^ b ^ c ^ d }

  function MixAt(b: Bytes, c: nat, r: nat): byte
    requires |b| == 16 && c < 4 && r < 4
  {
    Mix(b[4 * c + r], b[4 * c + (r + 1) % 4], b[4 * c + (r + 2) % 4], b[4 * c + (r + 3) % 4])
  }

  function MixColumns(b: Bytes): (s: Bytes)
    requires |b| == 16
    ensures |s| == 16
  {
    seq(16, i requires 0 <= i < 16 => MixAt(b, i / 4, i % 4))
  }

  /** The coefficients are those of the standard. */
  lemma MixIsMixColumn(a: byte, b: byte, c: byte, d: byte)
    ensures Mix(a, b, c, d) == GfMul(a, 2) ^ GfMul(b, 3) ^ c ^ d
  {
  }

  function AddRoundKey(b: Bytes, k: Bytes): (s: Bytes)
    requires |b| == 16 && |k| == 16
    ensures |s| == 16
  {
    seq(16, i requires 0 <= i < 16 => b[i] ^ k[i])
  }

  predicate RoundKeys(rk: seq<Bytes>) { |rk| >= 2 && forall k | k in rk :: |k| == 16 }

  /** The state after the initial key addition and i full rounds. */
  function AfterRounds(rk: seq<Bytes>, b: Bytes, i: nat): (s: Bytes)
    requires RoundKeys(rk) && |b| == 16 && i < |rk|
    ensures |s| == 16
  {
    if i == 0 then AddRoundKey(b, rk[0])
    else AddRoundKey(MixColumns(ShiftRows(SubBytes(AfterRounds(rk, b, i - 1)))), rk[i])
  }

  /** The last round has no MixColumns. */
  function Cipher(rk: seq<Bytes>, b: Bytes): (s: Bytes)
    requires RoundKeys(rk) && |b| == 16
    ensures |s| == 16
  {
    var nr := |rk| - 1;
    AddRoundKey(ShiftRows(SubBytes(AfterRounds(rk, b, nr - 1))), rk[nr])
  }

  // ------------------------------------------------------------------ key expansion

  predicate KeyLength(n: nat) { n == 16 || n == 24 || n == 32 }

  /** 10, 12 or 14 rounds. */
  function RoundCount(n: nat): nat
    requires KeyLength(n)
  {
    10 + (n - 16) / 4
  }

  function SubWord(w: Bytes): (s: Bytes)
    requires |w| == 4
    ensures |s| == 4
  {
    [SubByte(w[0]), SubByte(w[1]), SubByte(w[2]), SubByte(w[3])]
  }

  function RotWord(w: Bytes): (s: Bytes)
    requires |w| == 4
    ensures |s| == 4
  {
    [w[1], w[2], w[3], w[0]]
  }

  function XorWord(a: Bytes, b: Bytes): (s: Bytes)
    requires |a| == 4 && |b| == 4
    ensures |s| == 4
  {
    [a[0] ^ b[0], a[1] ^ b[1], a[2] ^ b[2], a[3] ^ b[3]]
  }

  /** x to the power n in the field. */
  function Power(n: nat): byte {
    if n == 0 then 1 else XTime(Power(n - 1))
  }

  /** What is xored onto the word nk places back to give word i. */
  function Feedback(nk: nat, i: nat, prev: Bytes): (s: Bytes)
    requires nk > 0 && i >= nk && |prev| == 4
    ensures |s| == 4
  {
    if i % nk == 0 then XorWord(SubWord(RotWord(prev)), [Power(i / nk - 1), 0, 0, 0])
    else if nk > 6 && i % nk == 4 then SubWord(prev)
    else prev
  }

  function KeyWord(key: Bytes, i: nat): (w: Bytes)
    requires KeyLength(|key|)
    ensures |w| == 4
  {
    var nk := |key| / 4;
    if i < nk then key[4 * i..4 * i + 4] else XorWord(KeyWord(key, i - nk), Feedback(nk, i, KeyWord(key, i - 1)))
  }

  function RoundKey(key: Bytes, i: nat): (k: Bytes)
    requires KeyLength(|key|)
    ensures |k| == 16
  {
    KeyWord(key, 4 * i) + KeyWord(key, 4 * i + 1) + KeyWord(key, 4 * i + 2) + KeyWord(key, 4 * i + 3)
  }

  function KeyExpansion(key: Bytes): (rk: seq<Bytes>)
    requires KeyLength(|key|)
    ensures RoundKeys(rk) && |rk| == RoundCount(|key|) + 1
  {
    seq(RoundCount(|key|) + 1, i requires 0 <= i => RoundKey(key, i))
  }

  /** AES under a key of 16, 24 or 32 bytes. */
  function Aes(key: Bytes, b: Bytes): (s: Bytes)
    requires KeyLength(|key|) && |b| == 16
    ensures |s| == 16
  {
    Cipher(KeyExpansion(key), b)
  }
}
