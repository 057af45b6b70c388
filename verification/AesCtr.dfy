/** The counter mode of aes.c: a batch of four counters stepped by four, big-endian, modulo 2^32. */
module AesCtr {
  import opened Primitives
  import opened Words
  import opened WordBits
  import opened Bitslice
  import opened Layout
  import opened AesSpec
  import opened Aes

  function Swap32(x: half): half {
    var y := ((x & 0x00FF00FF) << 8) | ((x >> 8) & 0x00FF00FF);
    (y << 16) | (y >> 16)
  }

  lemma SwapTwice(x: half)
    ensures Swap32(Swap32(x)) == x
  {
  }

  /** Addition modulo 2^32. */
  function Plus(a: half, b: half): half { a + b }

  /** The 32-bit counter after i increments. */
  function Counter(i: nat): half {
    if i == 0 then 0 else Plus(Counter(i - 1), 1)
  }

  lemma RawPlus(a: half)
    ensures (a + 1) + 1 == a + 2 && (a + 2) + 1 == a + 3 && (a + 3) + 1 == a + 4
  {
  }

  lemma Plus2(a: half)
    ensures Plus(Plus(a, 1), 1) == Plus(a, 2)
  {
    RawPlus(a);
  }

  lemma Plus3(a: half)
    ensures Plus(Plus(a, 2), 1) == Plus(a, 3)
  {
    RawPlus(a);
  }

  lemma Plus4(a: half)
    ensures Plus(Plus(a, 3), 1) == Plus(a, 4)
  {
    RawPlus(a);
  }

  lemma CounterSteps(i: nat)
    ensures Counter(i + 1) == Plus(Counter(i), 1) && Counter(i + 2) == Plus(Counter(i), 2)
    ensures Counter(i + 3) == Plus(Counter(i), 3) && Counter(i + 4) == Plus(Counter(i), 4)
  {
    hide Plus;
    Plus2(Counter(i));
    Plus3(Counter(i));
    Plus4(Counter(i));
    assert Counter(i + 1) == Plus(Counter(i), 1);
    assert Counter(i + 2) == Plus(Counter(i + 1), 1);
    assert Counter(i + 3) == Plus(Counter(i + 2), 1);
    assert Counter(i + 4) == Plus(Counter(i + 3), 1);
  }

  function BigEndian(n: half): (b: Bytes)
    ensures |b| == 4
  {
    [((n >> 24) & 0xFF) as byte, ((n >> 16) & 0xFF) as byte, ((n >> 8) & 0xFF) as byte, (n & 0xFF) as byte]
  }

  function CtrBlock(iv: Bytes, i: nat): (b: Bytes)
    requires |iv| == 12
    ensures |b| == 16
  {
    iv + BigEndian(Counter(i))
  }

  /** Byte k of the keystream. */
  function StreamByte(sk: seq<word>, nr: nat, iv: Bytes, k: nat): byte
    requires |iv| == 12 && nr >= 1 && 8 * nr + 8 <= |sk|
  {
    Cipher(LaneKeys(sk, nr, (k / 16) % 4), CtrBlock(iv, k / 16))[k % 16]
  }

  function Stream(sk: seq<word>, nr: nat, iv: Bytes, n: nat): (s: Bytes)
    requires |iv| == 12 && nr >= 1 && 8 * nr + 8 <= |sk|
    ensures |s| == n
  {
    seq(n, k requires 0 <= k => StreamByte(sk, nr, iv, k))
  }

  // ------------------------------------------------------------------ the counter batch

  function NonceWord(iv: Bytes, t: nat): half
    requires |iv| == 12 && t < 3
  {
    Decode(iv[4 * t..4 * t + 4])
  }

  /** Four copies of the nonce, with counters c, c + 1, c + 2 and c + 3. */
  predicate Batch(w: seq<half>, iv: Bytes, c: nat)
    requires |iv| == 12
  {
    |w| == 16 && forall k | 0 <= k < 16 :: w[k] == if k % 4 == 3 then Swap32(Counter(c + k / 4)) else NonceWord(iv, k % 4)
  }

  lemma SwapBytes(n: half, r: nat)
    requires r < 4
    ensures HalfByte(Swap32(n), Small(r)) == BigEndian(n)[r]
  {
  }

  lemma NonceByte(iv: Bytes, t: nat, r: nat)
    requires |iv| == 12 && t < 3 && r < 4
    ensures HalfByte(NonceWord(iv, t), Small(r)) == iv[4 * t + r]
  {
    hide Decode, HalfByte, Small;
    DecodeBytes(iv[4 * t..4 * t + 4], r);
  }

  lemma InBlockAt(w: seq<half>, j: nat, i: nat)
    requires |w| == 16 && j < 4 && i < 16
    ensures i / 4 < 4 && InBlock(w, j)[i] == HalfByte(w[4 * j + i / 4], Small(i % 4))
  {
    hide HalfByte, Small;
  }

  lemma BatchByte(w: seq<half>, iv: Bytes, c: nat, j: nat, i: nat)
    requires |iv| == 12 && Batch(w, iv, c) && j < 4 && i < 16
    ensures InBlock(w, j)[i] == CtrBlock(iv, c + j)[i]
  {
    hide NonceWord, HalfByte, Small, Counter, BigEndian, Swap32, InBlock;
    var t, r := i / 4, i % 4;
    assert i == 4 * t + r;
    BatchWord(w, iv, c, j, t);
    hide Batch;
    InBlockAt(w, j, i);
    if t < 3 {
      NonceByte(iv, t, r);
    } else {
      SwapBytes(Counter(c + j), r);
    }
  }

  lemma BatchBlock(w: seq<half>, iv: Bytes, c: nat, j: nat)
    requires |iv| == 12 && Batch(w, iv, c) && j < 4
    ensures InBlock(w, j) == CtrBlock(iv, c + j)
  {
    forall i | 0 <= i < 16 ensures InBlock(w, j)[i] == CtrBlock(iv, c + j)[i] {
      hide *;
      BatchByte(w, iv, c, j, i);
    }
    hide *;
  }

  lemma BatchWord(w: seq<half>, iv: Bytes, c: nat, j: nat, t: nat)
    requires |iv| == 12 && Batch(w, iv, c) && j < 4 && t < 4
    ensures w[4 * j + t] == if t == 3 then Swap32(Counter(c + j)) else NonceWord(iv, t)
  {
    hide NonceWord, Counter, Swap32;
    AtColumn(j, t);
  }

  /** inc4_be. */
  method Inc4(w: array<half>, k: nat)
    requires k < w.Length
    modifies w
    ensures w[k] == Swap32(Plus(Swap32(old(w[k])), 4)) && forall i | 0 <= i < w.Length && i != k :: w[i] == old(w[i])
  {
    hide Swap32, Plus;
    var t := Plus(Swap32(w[k]), 4);
    w[k] := Swap32(t);
  }

  /** Four keystream blocks; the counters move on by four. */
  method Ctr4x(ivw: array<half>, sk: seq<word>, nr: nat, ghost iv: Bytes, ghost c: nat) returns (out: Bytes)
    requires |iv| == 12 && Batch(ivw[..], iv, c) && nr >= 1 && 8 * nr + 8 <= |sk| && c % 4 == 0
    modifies ivw
    ensures Batch(ivw[..], iv, c + 4)
    ensures |out| == 64 && forall k | 0 <= k < 64 :: out[k] == StreamByte(sk, nr, iv, 16 * c + k)
  {
    hide Decode, Counter, Swap32, InBlock, CtrBlock, Cipher, LaneKeys;
    out := Ecb4x(ivw[..], sk, nr);
    ghost var w := ivw[..];
    BatchBytes(w, out, sk, nr, iv, c);
    hide Batch, StreamByte;
    Inc4(ivw, 3);
    Inc4(ivw, 7);
    Inc4(ivw, 11);
    Inc4(ivw, 15);
    BatchStep(w, ivw[..], iv, c);
  }

  lemma BatchBytes(w: seq<half>, out: Bytes, sk: seq<word>, nr: nat, iv: Bytes, c: nat)
    requires |iv| == 12 && Batch(w, iv, c) && nr >= 1 && 8 * nr + 8 <= |sk| && c % 4 == 0 && |out| == 64
    requires forall j | 0 <= j < 4 :: out[16 * j..16 * j + 16] == Cipher(LaneKeys(sk, nr, j), InBlock(w, j))
    ensures forall k | 0 <= k < 64 :: out[k] == StreamByte(sk, nr, iv, 16 * c + k)
  {
    hide Batch, InBlock, CtrBlock, Cipher, LaneKeys;
    forall k | 0 <= k < 64 ensures out[k] == StreamByte(sk, nr, iv, 16 * c + k) {
      var j := k / 16;
      BatchBlock(w, iv, c, j);
      StreamIndex(c, k);
      assert out[16 * j..16 * j + 16][k % 16] == out[k];
    }
  }

  lemma StreamIndex(c: nat, k: nat)
    requires c % 4 == 0 && k < 64
    ensures (16 * c + k) / 16 == c + k / 16 && (16 * c + k) % 16 == k % 16 && (c + k / 16) % 4 == k / 16
  {
  }

  lemma BatchStep(w: seq<half>, w': seq<half>, iv: Bytes, c: nat)
    requires |iv| == 12 && Batch(w, iv, c) && |w'| == 16
    requires forall k | 0 <= k < 16 :: w'[k] == if k % 4 == 3 then Swap32(Plus(Swap32(w[k]), 4)) else w[k]
    ensures Batch(w', iv, c + 4)
  {
    hide NonceWord, Counter, Swap32, Plus;
    forall k | 0 <= k < 16 && k % 4 == 3 ensures w'[k] == Swap32(Counter(c + 4 + k / 4)) {
      SwapTwice(Counter(c + k / 4));
      CounterSteps(c + k / 4);
    }
  }

  // ------------------------------------------------------------------ CTR

  method CopyNonce(ivw: array<half>, ghost iv: Bytes)
    requires ivw.Length == 16 && |iv| == 12 && forall t | 0 <= t < 3 :: ivw[t] == NonceWord(iv, t)
    modifies ivw
    ensures forall k | 0 <= k < 16 && k % 4 != 3 :: ivw[k] == NonceWord(iv, k % 4)
  {
    hide NonceWord;
    for j := 1 to 4
      invariant forall k | 0 <= k < 4 * j && k % 4 != 3 :: ivw[k] == NonceWord(iv, k % 4)
    {
      AtColumn(j, 0);
      AtColumn(j, 1);
      AtColumn(j, 2);
      ivw[4 * j], ivw[4 * j + 1], ivw[4 * j + 2] := ivw[0], ivw[1], ivw[2];
    }
  }

  method StartBatch(iv: Bytes) returns (ivw: array<half>)
    requires |iv| == 12
    ensures fresh(ivw) && Batch(ivw[..], iv, 0)
  {
    hide Decode, Swap32, Plus;
    ivw := new half[16];
    RangeDecode(ivw, 3, iv);
    CopyNonce(ivw, iv);
    StartCounters(ivw);
    CounterSteps(0);
    hide Counter, NonceWord;
    assert Counter(0) == 0 by { CounterZero(); }
  }

  lemma CounterZero()
    ensures Counter(0) == 0
  {
  }

  method StartCounters(ivw: array<half>)
    requires ivw.Length == 16
    modifies ivw
    ensures forall k | 0 <= k < 16 && k % 4 != 3 :: ivw[k] == old(ivw[k])
    ensures ivw[3] == Swap32(0) && ivw[7] == Swap32(Plus(0, 1)) && ivw[11] == Swap32(Plus(0, 2)) && ivw[15] == Swap32(Plus(0, 3))
  {
    hide Swap32, Plus;
    var cc: half := 0;
    ivw[3] := Swap32(cc);
    ivw[7] := Swap32(Plus(cc, 1));
    ivw[11] := Swap32(Plus(cc, 2));
    ivw[15] := Swap32(Plus(cc, 3));
  }

  /** Any number of keystream bytes. */
  method Ctr(outlen: nat, iv: Bytes, sk: seq<word>, nr: nat) returns (out: Bytes)
    requires |iv| == 12 && nr >= 1 && 8 * nr + 8 <= |sk|
    ensures out == Stream(sk, nr, iv, outlen)
  {
    hide Batch, StreamByte;
    var ivw := StartBatch(iv);
    out := [];
    ghost var c := 0;
    var left := outlen;
    while left > 64
      invariant left + |out| == outlen && 0 <= left && |out| == 16 * c && c % 4 == 0
      invariant Batch(ivw[..], iv, c) && fresh(ivw)
      invariant forall k | 0 <= k < |out| :: out[k] == StreamByte(sk, nr, iv, k)
      decreases left
    {
      var t := Ctr4x(ivw, sk, nr, iv, c);
      out := out + t;
      left := left - 64;
      c := c + 4;
    }
    if left > 0 {
      var tmp := Ctr4x(ivw, sk, nr, iv, c);
      out := out + tmp[..left];
    }
  }

  /** A shorter request gives a prefix of a longer one. */
  lemma StreamPrefix(sk: seq<word>, nr: nat, iv: Bytes, n: nat, m: nat)
    requires |iv| == 12 && nr >= 1 && 8 * nr + 8 <= |sk| && n <= m
    ensures Stream(sk, nr, iv, n) == Stream(sk, nr, iv, m)[..n]
  {
  }

  // ------------------------------------------------------------------ the counter block as a number

  lemma RawBigEndian(n: half, a: byte, b: byte, c: byte, d: byte)
    requires a == ((n >> 24) & 0xFF) as byte && b == ((n >> 16) & 0xFF) as byte
    requires c == ((n >> 8) & 0xFF) as byte && d == (n & 0xFF) as byte
    ensures n == ((a as bv32) << 24) | ((b as bv32) << 16) | ((c as bv32) << 8) | (d as bv32)
  {
  }

  lemma RawJoined(n: half, a: byte, b: byte, c: byte, d: byte)
    requires n == ((a as bv32) << 24) | ((b as bv32) << 16) | ((c as bv32) << 8) | (d as bv32)
    ensures n as int == 0x100_0000 * (a as int) + 0x1_0000 * (b as int) + 0x100 * (c as int) + d as int
  {
  }

  lemma RawInt(n: half, a: byte, b: byte, c: byte, d: byte)
    requires a == ((n >> 24) & 0xFF) as byte && b == ((n >> 16) & 0xFF) as byte
    requires c == ((n >> 8) & 0xFF) as byte && d == (n & 0xFF) as byte
    ensures n as int == 0x100_0000 * (a as int) + 0x1_0000 * (b as int) + 0x100 * (c as int) + d as int
  {
    RawBigEndian(n, a, b, c, d);
    RawJoined(n, a, b, c, d);
  }

  lemma BigEndianInt(n: half)
    ensures var b := BigEndian(n);
            Value32(n) == 0x100_0000 * (b[0] as int) + 0x1_0000 * (b[1] as int) + 0x100 * (b[2] as int) + b[3] as int
  {
    var b := BigEndian(n);
    RawInt(n, b[0], b[1], b[2], b[3]);
  }

  lemma PlusIsAdd(a: half, b: half)
    ensures Plus(a, b) == Add32(a, b)
  {
  }

  lemma OneIsOne()
    ensures Value32(1) == 1 && Value32(0) == 0
  {
  }

  lemma {:induction false} CounterValue(i: nat)
    ensures Value32(Counter(i)) == i % 0x1_0000_0000
  {
    hide Plus, Add32, Value32;
    OneIsOne();
    if i > 0 {
      CounterValue(i - 1);
      PlusIsAdd(Counter(i - 1), 1);
      AddValue32(Counter(i - 1), 1);
    }
  }

  /** Block i of the counter mode: the nonce, and i modulo 2^32 in four octets, most significant first. */
  lemma CtrBlockMeans(iv: Bytes, i: nat)
    requires |iv| == 12
    ensures CtrBlock(iv, i)[..12] == iv && FromDigits(CtrBlock(iv, i)[12..]) == i % 0x1_0000_0000
  {
    var b := BigEndian(Counter(i));
    BigEndianInt(Counter(i));
    hide BigEndian, FromDigits, Counter, Value32;
    CounterValue(i);
    Digits4(b);
    assert CtrBlock(iv, i)[12..] == b;
  }
}
