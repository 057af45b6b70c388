/** 64-bit words by name, so that proofs about positions and loops need not look at bits, and the few bit laws they use. */
module Words {
  import opened Primitives

  type word = bv64

  function Xor(a: word, b: word): word { a ^ b }

  function Or(a: word, b: word): word { a | b }

  function And(a: word, b: word): word { a & b }

  function Not(a: word): word { !a }

  function Shr(a: word, n: word): word
    requires n <= 64
  {
    a >> n
  }

  /** A byte moved up by n bits. */
  function ShlByte(b: byte, n: word): word
    requires n <= 56
  {
    (b as bv64) << n
  }

  function LowByte(a: word): byte { (a & 0xFF) as bv8 }

  lemma RawXorAssociates(x: word, a: word, b: word)
    ensures (x ^ a) ^ b == x ^ (a ^ b)
  {
  }

  lemma XorAssociates(x: word, a: word, b: word)
    ensures Xor(Xor(x, a), b) == Xor(x, Xor(a, b))
  {
    RawXorAssociates(x, a, b);
  }

  lemma RawXorZero(x: word)
    ensures x ^ 0 == x
  {
  }

  lemma XorZero(x: word)
    ensures Xor(x, 0) == x
  {
    RawXorZero(x);
  }

  lemma RawXorDiffers(x: word, a: word, b: word)
    requires a != b
    ensures x ^ a != x ^ b
  {
    assert x ^ (x ^ a) == a && x ^ (x ^ b) == b;
  }

  lemma XorDiffers(x: word, a: word, b: word)
    requires a != b
    ensures Xor(x, a) != Xor(x, b)
  {
    RawXorDiffers(x, a, b);
  }

  lemma RawShlXor(a: byte, b: byte, n: word)
    requires n <= 56
    ensures ((a as bv64) << n) ^ ((b as bv64) << n) == ((a ^ b) as bv64) << n
  {
  }

  lemma ShlXor(a: byte, b: byte, n: word)
    requires n <= 56
    ensures Xor(ShlByte(a, n), ShlByte(b, n)) == ShlByte(a ^ b, n)
  {
    RawShlXor(a, b, n);
  }

  lemma RawShlInjective(a: byte, b: byte, n: word)
    requires n <= 56 && a != b
    ensures (a as bv64) << n != (b as bv64) << n
  {
  }

  lemma ShlInjective(a: byte, b: byte, n: word)
    requires n <= 56 && a != b
    ensures ShlByte(a, n) != ShlByte(b, n)
  {
    RawShlInjective(a, b, n);
  }

  lemma RawShlZero(n: word)
    requires n <= 56
    ensures (0 as bv64) << n == 0
  {
  }

  lemma ShlZero(n: word)
    requires n <= 56
    ensures ShlByte(0, n) == 0
  {
    RawShlZero(n);
  }

  lemma RawOrAbove(a: word, b: byte, n: word)
    requires n <= 56 && a >> n == 0
    ensures a | ((b as bv64) << n) == a ^ ((b as bv64) << n)
  {
  }

  /** Or-ing a byte above every set bit is xoring it. */
  lemma OrAbove(a: word, b: byte, n: word)
    requires n <= 56 && Shr(a, n) == 0
    ensures Or(a, ShlByte(b, n)) == Xor(a, ShlByte(b, n))
  {
    RawOrAbove(a, b, n);
  }

  lemma RawOrStaysBelow(a: word, b: byte, n: word)
    requires n < 56 && a >> n == 0
    ensures (a | ((b as bv64) << n)) >> (n + 8) == 0
  {
  }

  lemma OrStaysBelow(a: word, b: byte, n: word)
    requires n < 56 && Shr(a, n) == 0
    ensures n + 8 <= 64 && Shr(Or(a, ShlByte(b, n)), n + 8) == 0
  {
    RawOrStaysBelow(a, b, n);
  }

  lemma RawShrZero(n: word)
    requires n <= 64
    ensures (0 as bv64) >> n == 0
  {
  }

  lemma ShrZero(n: word)
    requires n <= 64
    ensures Shr(0, n) == 0
  {
    RawShrZero(n);
  }

  /** The low n bits. */
  function MaskBelow(n: word): word
    requires n <= 56
  {
    (1 << n) - 1
  }

  lemma RawMaskKeeps(a: word, n: word)
    requires n <= 56 && n & 7 == 0 && a >> n == 0
    ensures a & ((1 << n) - 1) == a
  {
  }

  lemma RawMaskDrops(a: word, b: byte, n: word, m: word)
    requires n <= m <= 56
    ensures (a | ((b as bv64) << m)) & ((1 << n) - 1) == a & ((1 << n) - 1)
  {
  }

  lemma MaskKeeps(a: word, n: word)
    requires n <= 56 && n & 7 == 0 && Shr(a, n) == 0
    ensures And(a, MaskBelow(n)) == a
  {
    RawMaskKeeps(a, n);
  }

  /** Bytes at or above bit n do not survive the mask. */
  lemma MaskDrops(a: word, b: byte, n: word, m: word)
    requires n <= m <= 56
    ensures And(Or(a, ShlByte(b, m)), MaskBelow(n)) == And(a, MaskBelow(n))
  {
    RawMaskDrops(a, b, n, m);
  }
}
