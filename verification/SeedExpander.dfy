/** The AES-256 seed expander: requests served from a sixteen-byte buffer refilled with AES(key, counter block). */
module SeedExpander {
  import opened Primitives
  import opened AesSpec
  import AesStandard
  import opened Aes
  import opened AesKeys

  // ------------------------------------------------------------------ the counter bytes

  function Succ(b: byte): byte { b + 1 }

  /** Big-endian increment: trailing 0xFF bytes become 0 and the byte before them grows by one. */
  function Ripple(b: Bytes): (r: Bytes)
    ensures |r| == |b|
  {
    if |b| == 0 then []
    else if b[|b| - 1] == 0xFF then Ripple(b[..|b| - 1]) + [0]
    else b[..|b| - 1] + [Succ(b[|b| - 1])]
  }

  function Val(b: byte): int { b as int }

  lemma SuccValue(b: byte)
    requires b != 0xFF
    ensures Val(Succ(b)) == Val(b) + 1
  {
  }

  lemma SameValue(a: byte, b: byte)
    requires Val(a) == Val(b)
    ensures a == b
  {
  }

  lemma EndValues()
    ensures Val(0xFF) == 255 && Val(0) == 0
  {
  }

  lemma OctetVal(n: nat)
    ensures Val(Octet(n)) == n % 256
  {
    OctetValue(n);
  }

  lemma NextOctet(n: nat)
    ensures if n % 256 == 255 then Octet(n) == 0xFF && Octet(n + 1) == 0
            else Octet(n) != 0xFF && Octet(n + 1) == Succ(Octet(n))
  {
    hide Octet, Succ, Val;
    OctetVal(n);
    OctetVal(n + 1);
    EndValues();
    if n % 256 == 255 {
      assert (n + 1) % 256 == 0;
      SameValue(Octet(n), 0xFF);
      SameValue(Octet(n + 1), 0);
    } else {
      assert (n + 1) % 256 == n % 256 + 1;
      SuccValue(Octet(n));
      SameValue(Octet(n + 1), Succ(Octet(n)));
    }
  }

  /** Incrementing k big-endian digits gives the digits of the next number, modulo 256^k. */
  lemma {:induction false} RippleIsNext(n: nat, k: nat)
    ensures Ripple(Digits(n, k)) == Digits(n + 1, k)
  {
    hide Octet;
    if k > 0 {
      var b := Digits(n, k);
      assert b[..k - 1] == Digits(n / 256, k - 1) && b[k - 1] == Octet(n);
      NextOctet(n);
      if n % 256 == 255 {
        assert (n + 1) / 256 == n / 256 + 1;
        RippleIsNext(n / 256, k - 1);
      } else {
        assert (n + 1) / 256 == n / 256;
      }
    }
  }

  lemma {:induction false} RippleAt(a: Bytes, x: byte, n: nat)
    requires x != 0xFF
    ensures Ripple(a + [x] + seq(n, _ => 0xFF)) == a + [Succ(x)] + Zeros(n)
  {
    var b := a + [x] + seq(n, _ => 0xFF);
    if n == 0 {
      assert b == a + [x] && b[..|b| - 1] == a;
      assert a + [Succ(x)] + Zeros(0) == a + [Succ(x)];
    } else {
      RippleAt(a, x, n - 1);
      assert b[..|b| - 1] == a + [x] + seq(n - 1, _ => 0xFF);
      assert Zeros(n - 1) + [0] == Zeros(n);
    }
  }

  lemma {:induction false} RippleOver(b: Bytes)
    requires forall k | 0 <= k < |b| :: b[k] == 0xFF
    ensures Ripple(b) == Zeros(|b|)
  {
    if |b| > 0 {
      RippleOver(b[..|b| - 1]);
      assert Zeros(|b| - 1) + [0] == Zeros(|b|);
    }
  }

  // ------------------------------------------------------------------ the stream

  /** The counter block numbered i: diversifier, maximal length and a 32-bit big-endian counter. */
  function CounterBlock(prefix: Bytes, i: nat): (b: Bytes)
    requires |prefix| == 12
    ensures |b| == 16
  {
    prefix + Digits(i, 4)
  }

  function StreamByte(key: Bytes, prefix: Bytes, n: nat): byte
    requires |key| == 32 && |prefix| == 12
  {
    AesSpec.Aes(key, CounterBlock(prefix, n / 16))[n % 16]
  }

  /** Bytes from .. from + n of the stream. */
  function Stream(key: Bytes, prefix: Bytes, from: nat, n: nat): (s: Bytes)
    requires |key| == 32 && |prefix| == 12
    ensures |s| == n
  {
    seq(n, k requires 0 <= k => StreamByte(key, prefix, from + k))
  }

  lemma StreamConcat(key: Bytes, prefix: Bytes, from: nat, m: nat, n: nat)
    requires |key| == 32 && |prefix| == 12
    ensures Stream(key, prefix, from, m) + Stream(key, prefix, from + m, n) == Stream(key, prefix, from, m + n)
  {
    hide StreamByte;
  }

  /** Blocks up to 2^32 have different counter blocks. */
  lemma CounterBlocksDiffer(prefix: Bytes, i: nat, j: nat)
    requires |prefix| == 12 && i < 0x1_0000_0000 && j < 0x1_0000_0000
    ensures CounterBlock(prefix, i) == CounterBlock(prefix, j) <==> i == j
  {
    hide Digits;
    if CounterBlock(prefix, i) == CounterBlock(prefix, j) {
      ConcatSplits(prefix, Digits(i, 4), prefix, Digits(j, 4));
      assert Pow256(4) == 0x1_0000_0000 by { Pow256Of4(); }
      DigitsRoundTrip(i, 4);
      DigitsRoundTrip(j, 4);
    }
  }

  lemma Pow256Of4()
    ensures Pow256(4) == 0x1_0000_0000
  {
  }

  // ------------------------------------------------------------------ the expander

  /** From pos on, the buffer is the newest of the blocks made so far. */
  ghost predicate Holds(b: Bytes, pos: nat, key: Bytes, prefix: Bytes, blocks: nat)
    requires |b| == 16 && |key| == 32 && |prefix| == 12
  {
    forall k | pos <= k < 16 :: blocks > 0 && b[k] == StreamByte(key, prefix, 16 * (blocks - 1) + k)
  }

  lemma FreshBlock(key: Bytes, prefix: Bytes, i: nat)
    requires |key| == 32 && |prefix| == 12
    ensures Holds(AesSpec.Aes(key, CounterBlock(prefix, i)), 0, key, prefix, i + 1)
  {
    hide AesSpec.Aes, CounterBlock, StreamByte;
    var b := AesSpec.Aes(key, CounterBlock(prefix, i));
    forall k | 0 <= k < 16 ensures b[k] == StreamByte(key, prefix, 16 * i + k) {
      StreamByteAt(key, prefix, i, k);
    }
  }

  class Expander {
    var lengthRemaining: nat
    const key: Bytes
    const ctr: array<byte>
    const buffer: array<byte>
    var bufferPos: nat

    /** The first twelve bytes of the counter, the length asked for, the bytes given out and the blocks made so far. */
    ghost const prefix: Bytes
    ghost const maxlen: nat
    ghost var produced: nat
    ghost var blocks: nat

    /** The buffer, the counter and the position in the stream agree. */
    ghost predicate Inner()
      reads this, ctr, buffer
    {
      && |key| == 32 && |prefix| == 12 && ctr.Length == 16 && buffer.Length == 16 && ctr != buffer
      && bufferPos <= 16 && produced + 16 == 16 * blocks + bufferPos
      && ctr[..] == CounterBlock(prefix, blocks)
      && Holds(buffer[..], bufferPos, key, prefix, blocks)
    }

    /** Besides, what is left is never 0 unless nothing was ever allowed. */
    ghost predicate Valid()
      reads this, ctr, buffer
    {
      Inner() && lengthRemaining + produced == maxlen && (maxlen > 0 ==> lengthRemaining > 0)
    }

    constructor (seed: Bytes, diversifier: Bytes, maxlen: nat)
      requires |seed| == 32 && |diversifier| == 8
      ensures Valid() && fresh(ctr) && fresh(buffer)
      ensures key == seed && prefix == diversifier + Digits(maxlen, 4) && this.maxlen == maxlen && produced == 0
    {
      lengthRemaining := maxlen;
      key := seed;
      var c := new byte[16](_ => 0);
      forall i | 0 <= i < 8 { c[i] := diversifier[i]; }
      c[11] := Octet(maxlen);
      c[10] := Octet(maxlen / 256);
      c[9] := Octet(maxlen / 256 / 256);
      c[8] := Octet(maxlen / 256 / 256 / 256);
      ctr := c;
      bufferPos := 16;
      buffer := new byte[16](_ => 0);
      prefix := diversifier + Digits(maxlen, 4);
      this.maxlen := maxlen;
      produced := 0;
      blocks := 0;
      new;
      FourDigits(maxlen);
      FourDigits(0);
      assert ctr[..] == prefix + Digits(0, 4);
    }

    /** The counter's last four bytes, incremented with carry. */
    method Increment()
      requires ctr.Length == 16
      modifies ctr
      ensures ctr[..] == old(ctr[..12]) + Ripple(old(ctr[12..]))
    {
      hide Ripple, Succ;
      ghost var low := ctr[12..];
      ghost var before := ctr[..];
      var i := 15;
      while i >= 12
        invariant 11 <= i <= 15
        invariant forall k | i < k < 16 :: before[k] == 0xFF && ctr[k] == 0
        invariant forall k | 0 <= k <= i :: ctr[k] == before[k]
      {
        if ctr[i] == 0xFF {
          ctr[i] := 0;
        } else {
          ctr[i] := Succ(ctr[i]);
          RippleAt(before[12..i], before[i], 15 - i);
          assert low == before[12..i] + [before[i]] + seq(15 - i, _ => 0xFF);
          assert ctr[..] == before[..12] + Ripple(low);
          return;
        }
        i := i - 1;
      }
      RippleOver(low);
      assert ctr[..] == before[..12] + Ripple(low);
    }

    /** AES256_ECB on the counter. */
    method Encrypt()
      requires Inner()
      modifies buffer
      ensures buffer[..] == AesSpec.Aes(key, ctr[..])
    {
      hide Holds, AesSpec.Aes;
      ghost var c := ctr[..];
      var block := AesEcb(key, ctr[..], 1);
      assert BlockAt(block, 0) == AesSpec.Aes(key, BlockAt(c, 0));
      assert BlockAt(block, 0) == block && BlockAt(c, 0) == c;
      forall k | 0 <= k < 16 { buffer[k] := block[k]; }
      assert buffer[..] == block;
      assert ctr[..] == c;
    }

    /** Encrypts the counter into the buffer and steps it. */
    method Refill()
      requires Inner() && bufferPos == 16
      modifies this`bufferPos, this`blocks, ctr, buffer
      ensures Inner() && bufferPos == 0
    {
      hide Digits, Holds, Ripple, AesSpec.Aes;
      Encrypt();
      bufferPos := 0;
      RippleIsNext(blocks, 4);
      assert ctr[..12] == prefix && ctr[12..] == Digits(blocks, 4);
      Increment();
      FreshBlock(key, prefix, blocks);
      blocks := blocks + 1;
    }

    /** The next n bytes of the buffer. */
    method TakeFrom(n: nat) returns (out: Bytes)
      requires Inner() && n <= 16 - bufferPos
      modifies this`bufferPos, this`produced
      ensures out == Stream(key, prefix, old(produced), n)
      ensures Inner() && bufferPos == old(bufferPos) + n && produced == old(produced) + n
    {
      hide StreamByte, Digits;
      out := buffer[bufferPos..bufferPos + n];
      assert forall k | 0 <= k < n :: out[k] == StreamByte(key, prefix, 16 * (blocks - 1) + (bufferPos + k));
      bufferPos := bufferPos + n;
      produced := produced + n;
    }

    /** seedexpander: refuses a request that would use up the allowance, else returns the next xlen bytes of the
        stream. */
    method Request(xlen: nat) returns (out: Option<Bytes>)
      requires Valid()
      modifies this, ctr, buffer
      ensures Valid()
      ensures out.Some? <==> xlen < old(lengthRemaining)
      ensures out.Some? ==> out.value == Stream(key, prefix, old(produced), xlen)
                            && produced == old(produced) + xlen && lengthRemaining == old(lengthRemaining) - xlen
      ensures out.None? ==> produced == old(produced) && lengthRemaining == old(lengthRemaining)
    {
      hide Stream, Holds, CounterBlock;
      if xlen >= lengthRemaining {
        return None;
      }

      ghost var start := produced;
      lengthRemaining := lengthRemaining - xlen;
      ghost var target := produced + xlen;
      var x: Bytes := [];
      var left := xlen;
      while left > 0
        invariant Inner() && 0 <= left && produced + left == target && lengthRemaining + target == maxlen && lengthRemaining > 0
        invariant produced == start + |x| && x == Stream(key, prefix, start, |x|)
        decreases left, if bufferPos == 16 then 1 else 0
      {
        if left <= 16 - bufferPos {
          var last := TakeFrom(left);
          StreamConcat(key, prefix, start, |x|, left);
          return Some(x + last);
        }
        var n := 16 - bufferPos;
        var rest := TakeFrom(n);
        StreamConcat(key, prefix, start, |x|, n);
        x := x + rest;
        left := left - n;
        Refill();
      }
      out := Some(x);
    }
  }

  lemma FourDigits(n: nat)
    ensures Digits(n, 4) == [Octet(n / 256 / 256 / 256), Octet(n / 256 / 256), Octet(n / 256), Octet(n)]
  {
    hide Octet;
    assert Digits(n, 4) == Digits(n / 256, 3) + [Octet(n)];
    assert Digits(n / 256, 3) == Digits(n / 256 / 256, 2) + [Octet(n / 256)];
    assert Digits(n / 256 / 256, 2) == Digits(n / 256 / 256 / 256, 1) + [Octet(n / 256 / 256)];
  }

  lemma StreamByteAt(key: Bytes, prefix: Bytes, i: nat, k: nat)
    requires |key| == 32 && |prefix| == 12 && k < 16
    ensures StreamByte(key, prefix, 16 * i + k) == AesSpec.Aes(key, CounterBlock(prefix, i))[k]
  {
    hide AesSpec.Aes, CounterBlock;
    assert (16 * i + k) / 16 == i && (16 * i + k) % 16 == k;
  }

  /** The bytes of the successful requests, in order. */
  function Joined(outs: seq<Option<Bytes>>): Bytes {
    if |outs| == 0 then []
    else Joined(outs[..|outs| - 1]) + (match outs[|outs| - 1] case Some(b) => b case None => [])
  }

  /** Over any sequence of requests, refused ones included, the bytes returned are the next bytes of one stream, however
      they were split; the allowance falls by exactly their number. */
  method RequestMany(e: Expander, lens: seq<nat>) returns (outs: seq<Option<Bytes>>)
    requires e.Valid()
    modifies e, e.ctr, e.buffer
    ensures e.Valid() && |outs| == |lens|
    ensures Joined(outs) == Stream(e.key, e.prefix, old(e.produced), |Joined(outs)|)
    ensures e.produced == old(e.produced) + |Joined(outs)|
    ensures e.lengthRemaining == old(e.lengthRemaining) - |Joined(outs)|
    ensures forall i | 0 <= i < |lens| && outs[i].Some? :: |outs[i].value| == lens[i]
  {
    hide Stream;
    ghost var start := e.produced;
    outs := [];
    for i := 0 to |lens|
      invariant e.Valid() && |outs| == i && e.produced == start + |Joined(outs)|
      invariant e.lengthRemaining == old(e.lengthRemaining) - |Joined(outs)|
      invariant Joined(outs) == Stream(e.key, e.prefix, start, |Joined(outs)|)
      invariant forall k | 0 <= k < i && outs[k].Some? :: |outs[k].value| == lens[k]
    {
      var out := e.Request(lens[i]);
      if out.Some? {
        StreamConcat(e.key, e.prefix, start, |Joined(outs)|, lens[i]);
      }
      assert (outs + [out])[..i] == outs;
      outs := outs + [out];
    }
  }

  /** With an allowance below 2^32, no counter value has been used twice. */
  lemma CounterNeverWraps(e: Expander)
    requires e.Valid() && e.maxlen < 0x1_0000_0000
    ensures e.blocks <= 0x1000_0000
    ensures forall i, j | 0 <= i < j <= e.blocks :: CounterBlock(e.prefix, i) != CounterBlock(e.prefix, j)
  {
    hide CounterBlock, Holds;
    forall i, j | 0 <= i < j <= e.blocks ensures CounterBlock(e.prefix, i) != CounterBlock(e.prefix, j) {
      CounterBlocksDiffer(e.prefix, i, j);
    }
  }

  // ------------------------------------------------------------------ the stream, spelled out

  /** Byte n of the stream is byte n % 16 of the block enciphered from the twelve fixed bytes and the number n / 16 in four
      bytes, most significant first. */
  lemma StreamMeans(key: Bytes, prefix: Bytes, n: nat) returns (block: Bytes, out: Bytes)
    requires |key| == 32 && |prefix| == 12
    ensures |block| == 16 && block[..12] == prefix && (n / 16 < 0x1_0000_0000 ==> FromDigits(block[12..]) == n / 16)
    ensures AesStandard.Enciphers(key, block, out) && |out| == 16 && StreamByte(key, prefix, n) == out[n % 16]
  {
    hide AesSpec.Aes, AesStandard.Enciphers, Digits, FromDigits;
    block := CounterBlock(prefix, n / 16);
    out := AesSpec.Aes(key, block);
    AesStandard.AesIsStandard(key, block);
    assert block[12..] == Digits(n / 16, 4);
    if n / 16 < 0x1_0000_0000 {
      Pow256Of4();
      DigitsRoundTrip(n / 16, 4);
    }
  }
}
