/** HKDF-SHA-256 (RFC 5869) and the RFC 5295 PRF+ as the sources write them.  The output-block chain is the
    reference definition; the loops of edhoc4.c, edhoc03.c, bootstrap.c and keyschedule.py are proved against it. */
module Hkdf {
  import opened Primitives

  /** T(0) is empty, T(i) = HMAC(prk, T(i-1) | info | i) with the counter octet taken modulo 256. */
  function Block(S: Suite, prk: Bytes, info: Bytes, i: nat): (t: Bytes)
    decreases i
  {
    if i == 0 then [] else S.hmac(prk, Block(S, prk, info, i - 1) + info + [Octet(i)])
  }

  /** T(1) | ... | T(n) */
  function Blocks(S: Suite, prk: Bytes, info: Bytes, n: nat): (okm: Bytes)
    decreases n
  {
    if n == 0 then [] else Blocks(S, prk, info, n - 1) + Block(S, prk, info, n)
  }

  lemma {:induction false} BlocksLength(S: Suite, prk: Bytes, info: Bytes, n: nat)
    requires LawfulHash(S)
    ensures |Blocks(S, prk, info, n)| == HASH_LEN * n
    decreases n
  {
    hide Octet;
    if n > 0 {
      BlocksLength(S, prk, info, n - 1);
    }
  }

  /** The number of blocks that cover `len` octets. */
  function BlockCount(len: nat): nat {
    (len + HASH_LEN - 1) / HASH_LEN
  }

  function Take(b: Bytes, n: nat): (r: Bytes) {
    if n <= |b| then b[..n] else b
  }

  /** OKM: the first `len` octets of the block chain. */
  function Expand(S: Suite, prk: Bytes, info: Bytes, len: nat): (okm: Bytes) {
    Take(Blocks(S, prk, info, BlockCount(len)), len)
  }

  lemma {:induction false} ExpandLength(S: Suite, prk: Bytes, info: Bytes, len: nat)
    requires LawfulHash(S)
    ensures |Expand(S, prk, info, len)| == len
  {
    BlocksLength(S, prk, info, BlockCount(len));
  }

  /** HKDF-Extract: the salt is the HMAC key. */
  function Extract(S: Suite, salt: Bytes, ikm: Bytes): Bytes {
    S.hmac(salt, ikm)
  }

  lemma OctetWraps(n: nat)
    ensures Octet(n) == Octet(n % 256)
  {
  }

  /** One more block extends the cut chain by the part of the block that is still missing. */
  lemma {:induction false} TakeGrows(S: Suite, prk: Bytes, info: Bytes, n: nat, len: nat)
    requires LawfulHash(S) && HASH_LEN * n < len
    ensures var take := if len - HASH_LEN * n < HASH_LEN then len - HASH_LEN * n else HASH_LEN;
            && |Block(S, prk, info, n + 1)| == HASH_LEN
            && Take(Blocks(S, prk, info, n), len) == Blocks(S, prk, info, n)
            && Take(Blocks(S, prk, info, n + 1), len)
               == Take(Blocks(S, prk, info, n), len) + Block(S, prk, info, n + 1)[..take]
  {
    hide Octet;
    BlocksLength(S, prk, info, n);
  }

  /** The C loop: `ctr` is an 8-bit counter, the last block is cut to what is still missing. */
  method ExpandC(S: Suite, prk: Bytes, info: Bytes, len: nat) returns (okm: Bytes)
    requires LawfulHash(S)
    ensures okm == Expand(S, prk, info, len) && |okm| == len
  {
    hide Octet, LawfulHash, Block, Blocks, Take;
    NoBlock(S, prk, info);
    ExpandLength(S, prk, info, len);
    okm := [];
    var t: Bytes := [];
    var done: nat, ctr: int := 0, 1;
    ghost var n: nat := 0;
    assert Take(Blocks(S, prk, info, 0), len) == [] by { EmptyTake(S, prk, info, len); }
    while done < len
      invariant t == Block(S, prk, info, n) && ctr == (n + 1) % 256
      invariant done == |okm| == if HASH_LEN * n < len then HASH_LEN * n else len
      invariant done < len || n == BlockCount(len)
      invariant okm == Take(Blocks(S, prk, info, n), len)
      decreases len - done
    {
      OctetWraps(n + 1);
      TakeGrows(S, prk, info, n, len);
      NextBlock(S, prk, info, n);
      t := S.hmac(prk, (if |t| > 0 then t else []) + info + [Octet(ctr)]);
      var take := if len - done < HASH_LEN then len - done else HASH_LEN;
      okm := okm + t[..take];
      done := done + take;
      ctr := (ctr + 1) % 256;
      n := n + 1;
    }
  }

  lemma NextBlock(S: Suite, prk: Bytes, info: Bytes, n: nat)
    ensures Block(S, prk, info, n + 1) == S.hmac(prk, Block(S, prk, info, n) + info + [Octet(n + 1)])
  {
  }

  lemma NoBlock(S: Suite, prk: Bytes, info: Bytes)
    ensures Block(S, prk, info, 0) == []
  {
  }

  lemma EmptyTake(S: Suite, prk: Bytes, info: Bytes, len: nat)
    ensures Take(Blocks(S, prk, info, 0), len) == []
  {
  }

  // ------------------------------------------------------------------ the derivations of the handshakes, spelled out

  /** Up to 64 octets, in HMAC calls: T(1) = HMAC(prk, info | 1), T(2) = HMAC(prk, T(1) | info | 2), cut. */
  function Kdf(S: Suite, prk: Bytes, info: Bytes, n: nat): Bytes
    requires n <= 64
  {
    var t1 := S.hmac(prk, info + [0x01]);
    if n <= 32 then Take(t1, n) else Take(t1 + S.hmac(prk, t1 + info + [0x02]), n)
  }

  lemma KdfIsExpand(S: Suite, prk: Bytes, info: Bytes, n: nat)
    requires n <= 64
    ensures Expand(S, prk, info, n) == Kdf(S, prk, info, n)
  {
    FirstBlocks(S, prk, info);
    hide Block, Blocks;
  }

  lemma FirstBlocks(S: Suite, prk: Bytes, info: Bytes)
    ensures var t1 := S.hmac(prk, info + [0x01]);
            && Blocks(S, prk, info, 0) == [] && Blocks(S, prk, info, 1) == t1
            && Blocks(S, prk, info, 2) == t1 + S.hmac(prk, t1 + info + [0x02])
  {
    var t1 := S.hmac(prk, info + [0x01]);
    OneAndTwo();
    hide Octet, Block;
    NoBlock(S, prk, info);
    NextBlock(S, prk, info, 0);
    NextBlock(S, prk, info, 1);
    assert [] + info + [0x01] == info + [0x01];
    assert Blocks(S, prk, info, 1) == [] + t1 == t1;
    assert Blocks(S, prk, info, 2) == t1 + Block(S, prk, info, 2);
  }

  lemma OneAndTwo()
    ensures Octet(1) == 0x01 && Octet(2) == 0x02
  {
  }

  /** The first n blocks. */
  function Chain(S: Suite, prk: Bytes, info: Bytes, n: nat): (t: seq<Bytes>)
    ensures |t| == n
  {
    seq(n, i requires 0 <= i < n => Block(S, prk, info, i + 1))
  }

  lemma ChainMeans(S: Suite, prk: Bytes, info: Bytes, n: nat)
    ensures var t := Chain(S, prk, info, n);
            && (n > 0 ==> t[0] == S.hmac(prk, info + [0x01]))
            && forall i | 0 < i < n :: t[i] == S.hmac(prk, t[i - 1] + info + [Octet(i + 1)])
  {
    hide Octet;
    OneAndTwo();
    assert Block(S, prk, info, 0) == [] && [] + info + [0x01] == info + [0x01];
  }

  /** Any number of octets: octet k is octet k % 32 of block k / 32, and each block is the HMAC of the one before it, the info
      string and its number modulo 256. */
  lemma {:induction false} ExpandOctets(S: Suite, prk: Bytes, info: Bytes, len: nat) returns (t: seq<Bytes>)
    requires LawfulHash(S)
    ensures |t| == (len + 31) / 32 && (forall i | 0 <= i < |t| :: |t[i]| == 32)
    ensures |t| > 0 ==> t[0] == S.hmac(prk, info + [0x01])
    ensures forall i | 0 < i < |t| :: t[i] == S.hmac(prk, t[i - 1] + info + [Octet(i + 1)])
    ensures |Expand(S, prk, info, len)| == len && forall k | 0 <= k < len :: Expand(S, prk, info, len)[k] == t[k / 32][k % 32]
  {
    hide Octet, Block, Blocks;
    var n := BlockCount(len);
    t := Chain(S, prk, info, n);
    ChainMeans(S, prk, info, n);
    ExpandLength(S, prk, info, len);
    BlocksLength(S, prk, info, n);
    forall i | 0 <= i < n ensures |t[i]| == 32 {
      OctetOf(S, prk, info, n, 32 * i);
    }
    forall k | 0 <= k < len ensures Expand(S, prk, info, len)[k] == t[k / 32][k % 32] {
      OctetOf(S, prk, info, n, k);
    }
  }

  lemma {:induction false} OctetOf(S: Suite, prk: Bytes, info: Bytes, n: nat, k: nat)
    requires LawfulHash(S) && k < HASH_LEN * n
    ensures |Blocks(S, prk, info, n)| == HASH_LEN * n && |Block(S, prk, info, k / 32 + 1)| == 32
    ensures Blocks(S, prk, info, n)[k] == Block(S, prk, info, k / 32 + 1)[k % 32]
    decreases n
  {
    hide Octet;
    BlocksLength(S, prk, info, n);
    BlocksLength(S, prk, info, n - 1);
    if k < HASH_LEN * (n - 1) {
      OctetOf(S, prk, info, n - 1, k);
    }
  }
}
