/** The bit reader and writer of the UE simulator: values packed most significant bit first into a byte buffer. */
module BitBuffer {
  import opened Arith
  import opened Primitives

  // ------------------------------------------------------------------ bits of a byte

  function Mask(k: nat): byte
    requires k < 8
  {
    match k case 0 => 0x80 case 1 => 0x40 case 2 => 0x20 case 3 => 0x10 case 4 => 0x08 case 5 => 0x04 case 6 => 0x02 case 7 => 0x01
  }

  /** Bit k of a byte, counted from the most significant. */
  predicate GetBit(b: byte, k: nat)
    requires k < 8
  {
    b & Mask(k) != 0
  }

  function SetBit(b: byte, k: nat, bit: bool): byte
    requires k < 8
  {
    if bit then b | Mask(k) else b & (Mask(k) ^ 0xFF)
  }

  lemma SetGet(b: byte, k: nat, bit: bool, j: nat)
    requires k < 8 && j < 8
    ensures GetBit(SetBit(b, k, bit), j) == if j == k then bit else GetBit(b, j)
  {
  }

  /** Bit i of a buffer. */
  predicate BitAt(d: Bytes, i: nat)
    requires i < 8 * |d|
  {
    GetBit(d[i / 8], i % 8)
  }

  function Digit(bit: bool): nat { if bit then 1 else 0 }

  /** The number that len bits from index i on spell. */
  function ValueAt(d: Bytes, i: nat, len: nat): nat
    requires i + len <= 8 * |d|
  {
    if len == 0 then 0 else 2 * ValueAt(d, i, len - 1) + Digit(BitAt(d, i + len - 1))
  }

  /** The quotient of an arithmetic shift. */
  function Shifted(v: int, n: nat): int {
    if n == 0 then v else Shifted(v, n - 1) / 2
  }

  /** Bit n of a two's complement number. */
  predicate NumberBit(v: int, n: nat) { Shifted(v, n) % 2 == 1 }

  lemma {:induction false} ShiftedRange(v: int, n: nat)
    ensures 0 <= v - Shifted(v, n) * Pow2(n) < Pow2(n)
  {
    if n > 0 {
      ShiftedRange(v, n - 1);
      HalfStep(Shifted(v, n - 1), Pow2(n - 1));
    }
  }

  lemma HalfStep(q: int, p: nat)
    ensures (q / 2) * (2 * p) == q * p - (if q % 2 == 1 then p else 0)
  {
    assert q == 2 * (q / 2) + q % 2;
    if q % 2 == 1 {
      assert (2 * (q / 2) + 1) * p == (q / 2) * (2 * p) + p;
    } else {
      assert (2 * (q / 2)) * p == (q / 2) * (2 * p);
    }
  }

  /** Shifting drops the low n bits, which are the remainder modulo 2^n also for negative numbers. */
  lemma ShiftedIsQuotient(v: int, n: nat)
    ensures v % Pow2(n) == v - Shifted(v, n) * Pow2(n)
  {
    ShiftedRange(v, n);
    DivUnique(v, Pow2(n), Shifted(v, n), v - Shifted(v, n) * Pow2(n));
  }

  /** Bits i to i + m of the buffer are the bits of v from bit len - 1 downwards. */
  ghost predicate Spells(d: Bytes, i: nat, m: nat, v: int, len: nat)
    requires m <= len && i + m <= 8 * |d|
  {
    forall p | i <= p < i + m :: BitAt(d, p) <==> NumberBit(v, len - 1 - (p - i))
  }

  lemma {:induction false} SpelledPrefix(d: Bytes, i: nat, m: nat, v: int, len: nat)
    requires m <= len && i + m <= 8 * |d| && Spells(d, i, m, v, len)
    ensures ValueAt(d, i, m) == Shifted(v, len - m) - Shifted(v, len) * Pow2(m)
  {
    hide BitAt;
    if m > 0 {
      SpelledPrefix(d, i, m - 1, v, len);
      assert BitAt(d, i + (m - 1)) <==> NumberBit(v, len - m);
      NextShift(v, len - m);
      Doubled(Shifted(v, len), Pow2(m - 1));
    }
  }

  lemma NextShift(v: int, n: nat)
    ensures Shifted(v, n) == 2 * Shifted(v, n + 1) + (if NumberBit(v, n) then 1 else 0)
  {
  }

  lemma Doubled(s: int, p: nat)
    ensures 2 * (s * p) == s * (2 * p)
  {
  }

  /** The bits of a written number spell it modulo 2^len. */
  lemma SpelledValue(d: Bytes, i: nat, v: int, len: nat)
    requires i + len <= 8 * |d| && Spells(d, i, len, v, len)
    ensures ValueAt(d, i, len) == v % Pow2(len)
  {
    SpelledPrefix(d, i, len, v, len);
    ShiftedIsQuotient(v, len);
  }

  lemma {:induction false} SameValue(d: Bytes, e: Bytes, i: nat, len: nat)
    requires |d| == |e| && i + len <= 8 * |d|
    requires forall k | i <= k < i + len :: BitAt(d, k) == BitAt(e, k)
    ensures ValueAt(d, i, len) == ValueAt(e, i, len)
  {
    hide BitAt;
    if len > 0 {
      SameValue(d, e, i, len - 1);
    }
  }

  lemma NextBoundary(i: nat)
    ensures var j := i + (8 - i % 8) % 8; j % 8 == 0 && i <= j < i + 8 && j == 8 * ((i + 7) / 8) && (j + 7) / 8 == (i + 7) / 8
    ensures forall n: nat | i <= 8 * n :: i + (8 - i % 8) % 8 <= 8 * n
  {
  }

  lemma NothingLeft(n: nat)
    ensures 0 % Pow2(n) == 0
  {
    DivUnique(0, Pow2(n), 0, 0);
  }

  // ------------------------------------------------------------------ peeking

  /** The same bit of the octet counted from its other end. */
  function Mirror(i: nat): (m: nat)
    ensures m / 8 == i / 8 && m % 8 == 7 - i % 8
  {
    8 * (i / 8) + (7 - i % 8)
  }

  /** What peeking sees at index i is what reading there would give. */
  predicate PeekAgrees(d: Bytes, i: nat)
    requires i < 8 * |d|
  {
    BitAt(d, Mirror(i)) == BitAt(d, i)
  }

  /** The octet with its bits in the opposite order. */
  function Reversed(b: byte): byte {
    var x := (b >> 4) | (b << 4);
    var y := ((x & 0xCC) >> 2) | ((x & 0x33) << 2);
    ((y & 0xAA) >> 1) | ((y & 0x55) << 1)
  }

  lemma ReversedBit(b: byte, j: nat)
    requires j < 8
    ensures GetBit(Reversed(b), j) == GetBit(b, 7 - j)
  {
  }

  lemma SameBits(a: byte, b: byte)
    requires forall j: nat | j < 8 :: GetBit(a, j) == GetBit(b, j)
    ensures a == b
  {
    assert GetBit(a, 0) == GetBit(b, 0) && GetBit(a, 1) == GetBit(b, 1) && GetBit(a, 2) == GetBit(b, 2) && GetBit(a, 3) == GetBit(b, 3);
    assert GetBit(a, 4) == GetBit(b, 4) && GetBit(a, 5) == GetBit(b, 5) && GetBit(a, 6) == GetBit(b, 6) && GetBit(a, 7) == GetBit(b, 7);
  }

  lemma PeekAt(d: Bytes, k: nat, i: nat)
    requires k < |d| && 8 * k <= i < 8 * k + 8
    ensures PeekAgrees(d, i) <==> GetBit(d[k], i - 8 * k) == GetBit(Reversed(d[k]), i - 8 * k)
  {
    hide GetBit, Reversed, Mirror;
    DivUnique(i, 8, k, i - 8 * k);
    ReversedBit(d[k], i - 8 * k);
  }

  /** Peeking agrees with reading at all eight positions of an octet if and only if the octet is its own reversal. */
  lemma {:induction false} PeekAgreesExactly(d: Bytes, k: nat)
    requires k < |d|
    ensures (forall i | 8 * k <= i < 8 * k + 8 :: PeekAgrees(d, i)) <==> d[k] == Reversed(d[k])
  {
    hide GetBit, Reversed, PeekAgrees;
    forall i | 8 * k <= i < 8 * k + 8 ensures PeekAgrees(d, i) <==> GetBit(d[k], i - 8 * k) == GetBit(Reversed(d[k]), i - 8 * k) {
      PeekAt(d, k, i);
    }
    if forall i | 8 * k <= i < 8 * k + 8 :: PeekAgrees(d, i) {
      forall j: nat | j < 8 ensures GetBit(d[k], j) == GetBit(Reversed(d[k]), j) {
        PeekAt(d, k, 8 * k + j);
      }
      SameBits(d[k], Reversed(d[k]));
    }
  }

  /** An octet where it does not: the first bit read is 1 while peeking before reading it sees 0. */
  lemma PeekIsNotRead()
    ensures !PeekAgrees([0x80], 0) && Reversed(0x80) == 0x01
  {
  }

  // ------------------------------------------------------------------ the buffer

  class BitBuffer {
    const data: array<byte>
    var index: nat

    constructor (data: array<byte>)
      ensures this.data == data && index == 0
    {
      this.data := data;
      index := 0;
    }

    method Seek(i: nat)
      modifies this
      ensures index == i
    {
      index := i;
    }

    /** peek counts bits from the other end of the octet than read does, and does not move. */
    method Peek() returns (bit: nat)
      requires index < 8 * data.Length
      ensures bit == Digit(BitAt(data[..], Mirror(index)))
    {
      bit := if GetBit(data[index / 8], 7 - index % 8) then 1 else 0;
      assert (8 * (index / 8) + (7 - index % 8)) / 8 == index / 8;
    }

    method Read() returns (bit: nat)
      requires index < 8 * data.Length
      modifies this
      ensures index == old(index) + 1 && bit == Digit(BitAt(data[..], old(index)))
    {
      var octetIndex, bitIndex := index / 8, index % 8;
      index := index + 1;
      bit := if GetBit(data[octetIndex], bitIndex) then 1 else 0;
    }

    /** readBitsLong, and readBits for fewer than 32 bits: the next len bits as a number. */
    method ReadBits(len: nat) returns (i: nat)
      requires 0 < len < 64 && index + len <= 8 * data.Length
      modifies this
      ensures index == old(index) + len && i == ValueAt(data[..], old(index), len)
    {
      hide BitAt;
      i := 0;
      var left := len;
      while left > 0
        invariant 0 <= left <= len && index == old(index) + (len - left)
        invariant i == ValueAt(data[..], old(index), len - left)
      {
        left := left - 1;
        var bit := Read();
        i := 2 * i + bit;
      }
    }

    method Write(bit: bool)
      requires index < 8 * data.Length
      modifies this, data
      ensures index == old(index) + 1
      ensures forall k | 0 <= k < 8 * data.Length ::
                BitAt(data[..], k) == if k == old(index) then bit else BitAt(old(data[..]), k)
    {
      hide GetBit, SetBit;
      ghost var before, at := data[..], index;
      var octetIndex, bitIndex := index / 8, index % 8;
      data[octetIndex] := SetBit(data[octetIndex], bitIndex, bit);
      index := index + 1;
      forall k | 0 <= k < 8 * data.Length ensures BitAt(data[..], k) == if k == at then bit else BitAt(before, k) {
        if k / 8 == octetIndex {
          SetGet(before[octetIndex], bitIndex, bit, k % 8);
        }
      }
    }

    /** writeBits: the low len bits of a signed number, most significant first; nothing else changes. */
    method WriteBits(value: int, len: nat)
      requires len <= 64 && index + len <= 8 * data.Length
      modifies this, data
      ensures index == old(index) + len && ValueAt(data[..], old(index), len) == value % Pow2(len)
      ensures forall k | 0 <= k < 8 * data.Length && !(old(index) <= k < old(index) + len) ::
                BitAt(data[..], k) == BitAt(old(data[..]), k)
    {
      hide BitAt, NumberBit;
      for i := 0 to len
        invariant index == old(index) + i && Spells(data[..], old(index), i, value, len)
        invariant forall k | 0 <= k < 8 * data.Length && !(old(index) <= k < old(index) + len) ::
                    BitAt(data[..], k) == BitAt(old(data[..]), k)
      {
        Write(NumberBit(value, len - 1 - i));
      }
      SpelledValue(data[..], old(index), value, len);
    }

    method WrittenOctets() returns (n: nat)
      ensures n == (index + 7) / 8
    {
      n := (index + (8 - index % 8) % 8) / 8;
    }

    /** Pads with zero bits to the end of the octet; the number of octets written stays what it was. */
    method OctetAlign()
      requires index <= 8 * data.Length
      modifies this, data
      ensures index % 8 == 0 && old(index) <= index < old(index) + 8 && index <= 8 * data.Length
      ensures (index + 7) / 8 == (old(index) + 7) / 8 && index == 8 * ((old(index) + 7) / 8)
      ensures ValueAt(data[..], old(index), index - old(index)) == 0
      ensures forall k | 0 <= k < 8 * data.Length && !(old(index) <= k < index) :: BitAt(data[..], k) == BitAt(old(data[..]), k)
    {
      hide BitAt, ValueAt, Pow2;
      NextBoundary(index);
      NothingLeft((8 - index % 8) % 8);
      WriteBits(0, (8 - index % 8) % 8);
    }
  }

  // ------------------------------------------------------------------ round trip

  /** Peeking and then reading, at any index of any buffer: peeking gives the mirror image of the bit that is read. */
  method PeekThenRead(b: BitBuffer) returns (peeked: nat, read: nat)
    requires b.index < 8 * b.data.Length
    modifies b
    ensures b.index == old(b.index) + 1
    ensures peeked == Digit(BitAt(b.data[..], Mirror(old(b.index)))) && read == Digit(BitAt(b.data[..], old(b.index)))
    ensures peeked == read <==> PeekAgrees(b.data[..], old(b.index))
  {
    hide BitAt;
    peeked := b.Peek();
    read := b.Read();
  }

  datatype Field = Field(value: int, len: nat)

  function TotalLen(fs: seq<Field>): nat {
    if |fs| == 0 then 0 else TotalLen(fs[..|fs| - 1]) + fs[|fs| - 1].len
  }

  /** The fields stand one after another from bit i on. */
  ghost predicate Holds(d: Bytes, i: nat, fs: seq<Field>)
    requires i + TotalLen(fs) <= 8 * |d|
  {
    |fs| > 0 ==>
      var n, f := TotalLen(fs[..|fs| - 1]), fs[|fs| - 1];
      Holds(d, i, fs[..|fs| - 1]) && ValueAt(d, i + n, f.len) == f.value % Pow2(f.len)
  }

  lemma {:induction false} HoldsElsewhere(d: Bytes, e: Bytes, i: nat, fs: seq<Field>)
    requires |d| == |e| && i + TotalLen(fs) <= 8 * |d| && Holds(d, i, fs)
    requires forall k | i <= k < i + TotalLen(fs) :: BitAt(d, k) == BitAt(e, k)
    ensures Holds(e, i, fs)
  {
    hide BitAt, ValueAt, Pow2;
    if |fs| > 0 {
      HoldsElsewhere(d, e, i, fs[..|fs| - 1]);
      SameValue(d, e, i + TotalLen(fs[..|fs| - 1]), fs[|fs| - 1].len);
    }
  }

  lemma {:induction false} TotalGrows(fs: seq<Field>, k: nat)
    requires k <= |fs|
    ensures TotalLen(fs[..k]) <= TotalLen(fs)
  {
    if k < |fs| {
      assert fs[..|fs| - 1][..k] == fs[..k];
      TotalGrows(fs[..|fs| - 1], k);
    } else {
      assert fs[..k] == fs;
    }
  }

  method WriteAll(b: BitBuffer, fs: seq<Field>)
    requires b.index + TotalLen(fs) <= 8 * b.data.Length && forall f | f in fs :: f.len <= 64
    modifies b, b.data
    ensures b.index == old(b.index) + TotalLen(fs) && Holds(b.data[..], old(b.index), fs)
    ensures forall k | 0 <= k < 8 * b.data.Length && !(old(b.index) <= k < b.index) ::
              BitAt(b.data[..], k) == BitAt(old(b.data[..]), k)
  {
    hide BitAt, ValueAt, Pow2;
    ghost var start := b.index;
    for i := 0 to |fs|
      invariant start + TotalLen(fs[..i]) <= 8 * b.data.Length
      invariant b.index == start + TotalLen(fs[..i]) && Holds(b.data[..], start, fs[..i])
      invariant forall k | 0 <= k < 8 * b.data.Length && !(start <= k < b.index) :: BitAt(b.data[..], k) == BitAt(old(b.data[..]), k)
    {
      ghost var before := b.data[..];
      assert fs[..i + 1][..i] == fs[..i];
      TotalGrows(fs, i + 1);
      b.WriteBits(fs[i].value, fs[i].len);
      HoldsElsewhere(before, b.data[..], start, fs[..i]);
    }
    assert fs[..|fs|] == fs;
  }

  lemma {:induction false} HeldField(d: Bytes, i: nat, fs: seq<Field>, k: nat)
    requires k < |fs| && i + TotalLen(fs) <= 8 * |d| && Holds(d, i, fs)
    ensures TotalLen(fs[..k]) + fs[k].len <= TotalLen(fs)
    ensures ValueAt(d, i + TotalLen(fs[..k]), fs[k].len) == fs[k].value % Pow2(fs[k].len)
  {
    hide BitAt, ValueAt, Pow2;
    if k < |fs| - 1 {
      assert fs[..|fs| - 1][..k] == fs[..k];
      HeldField(d, i, fs[..|fs| - 1], k);
    }
  }

  /** Writing any fields and reading them back from the same place returns each value modulo 2 to its width. */
  method WriteThenRead(b: BitBuffer, fs: seq<Field>) returns (vs: seq<nat>)
    requires b.index + TotalLen(fs) <= 8 * b.data.Length && forall f | f in fs :: 0 < f.len < 64
    modifies b, b.data
    ensures b.index == old(b.index) + TotalLen(fs) && |vs| == |fs|
    ensures forall k | 0 <= k < |fs| :: vs[k] == fs[k].value % Pow2(fs[k].len)
    ensures forall k | 0 <= k < 8 * b.data.Length && !(old(b.index) <= k < b.index) ::
              BitAt(b.data[..], k) == BitAt(old(b.data[..]), k)
  {
    hide BitAt, ValueAt, Pow2;
    var start := b.index;
    WriteAll(b, fs);
    ghost var d := b.data[..];
    b.Seek(start);
    vs := [];
    for i := 0 to |fs|
      invariant b.data[..] == d && start + TotalLen(fs[..i]) <= 8 * b.data.Length
      invariant b.index == start + TotalLen(fs[..i]) && |vs| == i
      invariant forall k | 0 <= k < i :: vs[k] == fs[k].value % Pow2(fs[k].len)
    {
      assert fs[..i + 1][..i] == fs[..i];
      HeldField(d, start, fs, i);
      var v := b.ReadBits(fs[i].len);
      vs := vs + [v];
    }
    assert fs[..|fs|] == fs;
  }

  // ------------------------------------------------------------------ bits as numbers

  /** Bit k of an octet, counted from the most significant, is worth 2^(7 - k). */
  lemma BitWorth(b: byte, k: nat)
    requires k < 8
    ensures GetBit(b, k) <==> (b as int / Pow2(7 - k)) % 2 == 1
  {
    Worths();
    hide Pow2, GetBit;
    match k {
      case 0 => Worth0(b);
      case 1 => Worth1(b);
      case 2 => Worth2(b);
      case 3 => Worth3(b);
      case 4 => Worth4(b);
      case 5 => Worth5(b);
      case 6 => Worth6(b);
      case 7 => Worth7(b);
    }
  }

  lemma Worths()
    ensures Pow2(0) == 1 && Pow2(1) == 2 && Pow2(2) == 4 && Pow2(3) == 8 && Pow2(4) == 16 && Pow2(5) == 32
    ensures Pow2(6) == 64 && Pow2(7) == 128
  {
  }

  lemma Worth0(b: byte)
    ensures GetBit(b, 0) <==> b as int / 128 % 2 == 1
  {
  }

  lemma Worth1(b: byte)
    ensures GetBit(b, 1) <==> b as int / 64 % 2 == 1
  {
  }

  lemma Worth2(b: byte)
    ensures GetBit(b, 2) <==> b as int / 32 % 2 == 1
  {
  }

  lemma Worth3(b: byte)
    ensures GetBit(b, 3) <==> b as int / 16 % 2 == 1
  {
  }

  lemma Worth4(b: byte)
    ensures GetBit(b, 4) <==> b as int / 8 % 2 == 1
  {
  }

  lemma Worth5(b: byte)
    ensures GetBit(b, 5) <==> b as int / 4 % 2 == 1
  {
  }

  lemma Worth6(b: byte)
    ensures GetBit(b, 6) <==> b as int / 2 % 2 == 1
  {
  }

  lemma Worth7(b: byte)
    ensures GetBit(b, 7) <==> b as int / 1 % 2 == 1
  {
  }
}
