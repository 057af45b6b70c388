/** Words as numbers: bit p of a word is the parity of its value divided by 2^p.  The bitwise operators, rotations and
    additions of the C, in these terms, for 32 and for 64 bits. */
module WordBits {
  import opened Arith
  import opened Words

  /** Bit p of a number, bit 0 being worth 1. */
  predicate BitOf(v: int, p: nat) { (v / Pow2(p)) % 2 == 1 }

  lemma HalfPower(v: int, p: nat)
    requires p > 0
    ensures v / Pow2(p) == (v / 2) / Pow2(p - 1)
  {
    var d := Pow2(p - 1);
    var q, r := (v / 2) / d, (v / 2) % d;
    Split(q, d, r, v % 2);
    DivUnique(v, 2 * d, q, 2 * r + v % 2);
  }

  lemma Split(q: int, d: int, r: int, t: int)
    ensures 2 * (q * d + r) + t == q * (2 * d) + (2 * r + t)
  {
  }

  /** Bit p of a number is bit p - 1 of its half. */
  lemma NextBit(v: int, p: nat)
    requires p > 0
    ensures BitOf(v, p) <==> BitOf(v / 2, p - 1)
  {
    HalfPower(v, p);
  }

  lemma FirstBit(v: int)
    ensures BitOf(v, 0) <==> v % 2 == 1
  {
    assert v / Pow2(0) == v;
  }

  lemma {:induction false} DividedBit(v: int, n: nat, p: nat)
    ensures BitOf(v / Pow2(n), p) <==> BitOf(v, n + p)
    decreases n
  {
    if n == 0 {
      assert v / Pow2(0) == v;
    } else {
      hide Pow2, BitOf;
      HalfPower(v, n);
      DividedBit(v / 2, n - 1, p);
      NextBit(v, n + p);
    }
  }

  lemma RemainderHalf(v: int, n: nat)
    requires n > 0
    ensures v % Pow2(n) == 2 * ((v / 2) % Pow2(n - 1)) + v % 2
  {
    var d := Pow2(n - 1);
    var q, r := (v / 2) / d, (v / 2) % d;
    Split(q, d, r, v % 2);
    DivUnique(v, 2 * d, q, 2 * r + v % 2);
  }

  /** The bits below n are those of the remainder modulo 2^n. */
  lemma {:induction false} RemainderBit(v: int, n: nat, p: nat)
    requires p < n
    ensures BitOf(v % Pow2(n), p) <==> BitOf(v, p)
    decreases n
  {
    hide BitOf, Pow2;
    RemainderHalf(v, n);
    var w, r := v % Pow2(n), (v / 2) % Pow2(n - 1);
    if p == 0 {
      FirstBit(v);
      FirstBit(w);
    } else {
      RemainderBit(v / 2, n - 1, p - 1);
      NextBit(v, p);
      NextBit(w, p);
      assert w / 2 == r;
    }
  }

  /** Numbers below 2^n with the same n bits are equal. */
  lemma {:induction false} BitsDetermine(v: nat, w: nat, n: nat)
    requires v < Pow2(n) && w < Pow2(n) && forall p: nat | p < n :: BitOf(v, p) <==> BitOf(w, p)
    ensures v == w
  {
    if n > 0 {
      forall p: nat | p < n - 1 ensures BitOf(v / 2, p) <==> BitOf(w / 2, p) {
        NextBit(v, p + 1);
        NextBit(w, p + 1);
        assert BitOf(v, p + 1) <==> BitOf(w, p + 1);
      }
      BitsDetermine(v / 2, w / 2, n - 1);
      FirstBit(v);
      FirstBit(w);
      assert BitOf(v, 0) <==> BitOf(w, 0);
    }
  }

  lemma {:induction false} BitAbove(v: nat, n: nat, p: nat)
    requires v < Pow2(n) && n <= p
    ensures !BitOf(v, p)
    decreases p
  {
    if p == 0 {
      FirstBit(v);
    } else {
      hide BitOf;
      NextBit(v, p);
      if n == 0 {
        BitAbove(v / 2, 0, p - 1);
      } else {
        BitAbove(v / 2, n - 1, p - 1);
      }
    }
  }

  /** Rotating a number of n bits up by one place. */
  lemma {:induction false} RotatedBit(v: nat, n: nat, w: nat, p: nat)
    requires n > 0 && v < Pow2(n) && w == 2 * (v % Pow2(n - 1)) + v / Pow2(n - 1) && p < n
    ensures BitOf(w, p) <==> BitOf(v, if p == 0 then n - 1 else p - 1)
  {
    TopBit(v, n);
    hide Pow2;
    var low, top := v % Pow2(n - 1), v / Pow2(n - 1);
    if p == 0 {
      FirstBit(w);
      assert BitOf(v, n - 1) <==> top % 2 == 1;
    } else {
      hide BitOf;
      NextBit(w, p);
      assert w / 2 == low;
      RemainderBit(v, n - 1, p - 1);
    }
  }

  lemma TopBit(v: nat, n: nat)
    requires n > 0 && v < Pow2(n)
    ensures 0 <= v / Pow2(n - 1) < 2
  {
    var d := Pow2(n - 1);
    Remainder(v, d);
    if v / d >= 2 { AtLeast(v, d); }
  }

  lemma AtLeast(v: nat, d: nat)
    requires d > 0 && v / d >= 2
    ensures v >= 2 * d
  {
    Remainder(v, d);
    assert d * (v / d) >= d * 2;
  }

  lemma OneOrZero(b: bv1)
    ensures b == 0 <==> b != 1
  {
  }

  lemma OneBit(b: bv1)
    ensures b as int < 2
  {
  }

  lemma BitValue(b: bv1)
    ensures b as int == if b == 1 then 1 else 0
  {
  }

  // ------------------------------------------------------------------ 64 bits

  lemma RawCut64(a: word) returns (h: bv63, l: bv1)
    ensures a == ((h as word) << 1) | (l as word) && h == (a >> 1) as bv63 && l == (a & 1) as bv1
  {
    h, l := (a >> 1) as bv63, (a & 1) as bv1;
  }

  lemma RawUpper64(a: word)
    ensures a >> 1 == ((a >> 1) as bv63) as word
  {
  }

  lemma RawJoin64(h: bv63, l: bv1)
    ensures (((h as word) << 1) | (l as word)) as int == h as int * 2 + l as int
  {
  }

  lemma RawWiden64(h: bv63)
    ensures (h as word) as int == h as int
  {
  }

  lemma RawHalf64(a: word)
    ensures (a >> 1) as int == a as int / 2 && ((a & 1) as bv1) as int == a as int % 2
  {
    var h, l := RawCut64(a);
    RawUpper64(a);
    RawJoin64(h, l);
    RawWiden64(h);
  }

  function Half64(a: word): word { a >> 1 }

  function Low64(a: word): bv1 { (a & 1) as bv1 }

  /** The half and the parity of a word are those of its value. */
  lemma HalfValue64(a: word)
    ensures Half64(a) as int == a as int / 2 && (Low64(a) == 1 <==> a as int % 2 == 1)
  {
    RawHalf64(a);
    BitValue(Low64(a));
  }

  lemma RawXor64(a: word, b: word)
    ensures (a ^ b) >> 1 == (a >> 1) ^ (b >> 1) && ((a ^ b) & 1) as bv1 == ((a & 1) as bv1) ^ ((b & 1) as bv1)
  {
  }

  lemma RawAnd64(a: word, b: word)
    ensures (a & b) >> 1 == (a >> 1) & (b >> 1) && ((a & b) & 1) as bv1 == ((a & 1) as bv1) & ((b & 1) as bv1)
  {
  }

  lemma RawAndNot64(a: word, b: word)
    ensures (!a & b) >> 1 == !(a >> 1) & (b >> 1)
  {
  }

  lemma RawAndNotLow64(a: word, b: word)
    ensures ((!a & b) & 1) as bv1 == 1 <==> (a & 1) as bv1 == 0 && (b & 1) as bv1 == 1
  {
  }

  lemma XorHalf64(a: word, b: word)
    ensures Half64(Xor(a, b)) == Xor(Half64(a), Half64(b)) && (Low64(Xor(a, b)) == 1 <==> Low64(a) != Low64(b))
  {
    RawXor64(a, b);
  }

  lemma AndHalf64(a: word, b: word)
    ensures Half64(And(a, b)) == And(Half64(a), Half64(b)) && (Low64(And(a, b)) == 1 <==> Low64(a) == 1 && Low64(b) == 1)
  {
    RawAnd64(a, b);
  }

  lemma AndNotHalf64(a: word, b: word)
    ensures Half64(And(Not(a), b)) == And(Not(Half64(a)), Half64(b))
  {
    RawAndNot64(a, b);
  }

  lemma AndNotLow64(a: word, b: word)
    ensures Low64(And(Not(a), b)) == 1 <==> Low64(a) == 0 && Low64(b) == 1
  {
    RawAndNotLow64(a, b);
  }

  /** Bit p of a word. */
  predicate Bit64(a: word, p: nat) { BitOf(a as int, p) }

  lemma BitStep64(a: word, p: nat)
    ensures Bit64(a, p) <==> if p == 0 then Low64(a) == 1 else Bit64(Half64(a), p - 1)
  {
    hide BitOf, Half64, Low64;
    HalfValue64(a);
    if p == 0 { FirstBit(a as int); } else { NextBit(a as int, p); }
  }

  lemma {:induction false} XorBit64(a: word, b: word, p: nat)
    ensures Bit64(Xor(a, b), p) <==> Bit64(a, p) != Bit64(b, p)
    decreases p
  {
    hide *;
    BitStep64(a, p);
    BitStep64(b, p);
    BitStep64(Xor(a, b), p);
    XorHalf64(a, b);
    if p > 0 { XorBit64(Half64(a), Half64(b), p - 1); } else { OneOrZero(Low64(a)); OneOrZero(Low64(b)); }
  }

  lemma {:induction false} AndBit64(a: word, b: word, p: nat)
    ensures Bit64(And(a, b), p) <==> Bit64(a, p) && Bit64(b, p)
    decreases p
  {
    hide *;
    BitStep64(a, p);
    BitStep64(b, p);
    BitStep64(And(a, b), p);
    AndHalf64(a, b);
    if p > 0 { AndBit64(Half64(a), Half64(b), p - 1); }
  }

  lemma {:induction false} AndNotBit64(a: word, b: word, p: nat)
    ensures Bit64(And(Not(a), b), p) <==> !Bit64(a, p) && Bit64(b, p)
    decreases p
  {
    hide *;
    BitStep64(a, p);
    BitStep64(b, p);
    BitStep64(And(Not(a), b), p);
    AndNotHalf64(a, b);
    AndNotLow64(a, b);
    if p > 0 { AndNotBit64(Half64(a), Half64(b), p - 1); } else { OneOrZero(Low64(a)); }
  }

  function Xor32(a: bv32, b: bv32): bv32 { a ^ b }

  function And32(a: bv32, b: bv32): bv32 { a & b }

  function Not32(a: bv32): bv32 { !a }

  // ------------------------------------------------------------------ 32 bits

  lemma RawCut32(a: bv32) returns (h: bv31, l: bv1)
    ensures a == ((h as bv32) << 1) | (l as bv32) && h == (a >> 1) as bv31 && l == (a & 1) as bv1
  {
    h, l := (a >> 1) as bv31, (a & 1) as bv1;
  }

  lemma RawUpper32(a: bv32)
    ensures a >> 1 == ((a >> 1) as bv31) as bv32
  {
  }

  lemma RawJoin32(h: bv31, l: bv1)
    ensures (((h as bv32) << 1) | (l as bv32)) as int == h as int * 2 + l as int
  {
  }

  lemma RawWiden32(h: bv31)
    ensures (h as bv32) as int == h as int
  {
  }

  lemma RawHalf32(a: bv32)
    ensures (a >> 1) as int == a as int / 2 && ((a & 1) as bv1) as int == a as int % 2
  {
    var h, l := RawCut32(a);
    RawUpper32(a);
    RawJoin32(h, l);
    RawWiden32(h);
  }

  function Half32(a: bv32): bv32 { a >> 1 }

  function Low32(a: bv32): bv1 { (a & 1) as bv1 }

  /** The half and the parity of a word are those of its value. */
  lemma HalfValue32(a: bv32)
    ensures Half32(a) as int == a as int / 2 && (Low32(a) == 1 <==> a as int % 2 == 1)
  {
    RawHalf32(a);
    BitValue(Low32(a));
  }

  lemma RawXor32(a: bv32, b: bv32)
    ensures (a ^ b) >> 1 == (a >> 1) ^ (b >> 1) && ((a ^ b) & 1) as bv1 == ((a & 1) as bv1) ^ ((b & 1) as bv1)
  {
  }

  lemma RawAnd32(a: bv32, b: bv32)
    ensures (a & b) >> 1 == (a >> 1) & (b >> 1) && ((a & b) & 1) as bv1 == ((a & 1) as bv1) & ((b & 1) as bv1)
  {
  }

  lemma RawAndNot32(a: bv32, b: bv32)
    ensures (!a & b) >> 1 == !(a >> 1) & (b >> 1)
  {
  }

  lemma RawAndNotLow32(a: bv32, b: bv32)
    ensures ((!a & b) & 1) as bv1 == 1 <==> (a & 1) as bv1 == 0 && (b & 1) as bv1 == 1
  {
  }

  lemma XorHalf32(a: bv32, b: bv32)
    ensures Half32(Xor32(a, b)) == Xor32(Half32(a), Half32(b)) && (Low32(Xor32(a, b)) == 1 <==> Low32(a) != Low32(b))
  {
    RawXor32(a, b);
  }

  lemma AndHalf32(a: bv32, b: bv32)
    ensures Half32(And32(a, b)) == And32(Half32(a), Half32(b)) && (Low32(And32(a, b)) == 1 <==> Low32(a) == 1 && Low32(b) == 1)
  {
    RawAnd32(a, b);
  }

  lemma AndNotHalf32(a: bv32, b: bv32)
    ensures Half32(And32(Not32(a), b)) == And32(Not32(Half32(a)), Half32(b))
  {
    RawAndNot32(a, b);
  }

  lemma AndNotLow32(a: bv32, b: bv32)
    ensures Low32(And32(Not32(a), b)) == 1 <==> Low32(a) == 0 && Low32(b) == 1
  {
    RawAndNotLow32(a, b);
  }

  /** Bit p of a word. */
  predicate Bit32(a: bv32, p: nat) { BitOf(a as int, p) }

  lemma BitStep32(a: bv32, p: nat)
    ensures Bit32(a, p) <==> if p == 0 then Low32(a) == 1 else Bit32(Half32(a), p - 1)
  {
    hide BitOf, Half32, Low32;
    HalfValue32(a);
    if p == 0 { FirstBit(a as int); } else { NextBit(a as int, p); }
  }

  lemma {:induction false} XorBit32(a: bv32, b: bv32, p: nat)
    ensures Bit32(Xor32(a, b), p) <==> Bit32(a, p) != Bit32(b, p)
    decreases p
  {
    hide *;
    BitStep32(a, p);
    BitStep32(b, p);
    BitStep32(Xor32(a, b), p);
    XorHalf32(a, b);
    if p > 0 { XorBit32(Half32(a), Half32(b), p - 1); } else { OneOrZero(Low32(a)); OneOrZero(Low32(b)); }
  }

  lemma {:induction false} AndBit32(a: bv32, b: bv32, p: nat)
    ensures Bit32(And32(a, b), p) <==> Bit32(a, p) && Bit32(b, p)
    decreases p
  {
    hide *;
    BitStep32(a, p);
    BitStep32(b, p);
    BitStep32(And32(a, b), p);
    AndHalf32(a, b);
    if p > 0 { AndBit32(Half32(a), Half32(b), p - 1); }
  }

  lemma {:induction false} AndNotBit32(a: bv32, b: bv32, p: nat)
    ensures Bit32(And32(Not32(a), b), p) <==> !Bit32(a, p) && Bit32(b, p)
    decreases p
  {
    hide *;
    BitStep32(a, p);
    BitStep32(b, p);
    BitStep32(And32(Not32(a), b), p);
    AndNotHalf32(a, b);
    AndNotLow32(a, b);
    if p > 0 { AndNotBit32(Half32(a), Half32(b), p - 1); } else { OneOrZero(Low32(a)); }
  }


  // ------------------------------------------------------------------ rotating 64 bits

  function ShlBy64(a: word, n: word): word
    requires n <= 64
  {
    a << n
  }

  function Twice64(a: word): word { a << 1 }

  function Top64(a: word): word { a >> 63 }

  function Up64(a: word, n: word): word
    requires n < 64
  {
    Xor(ShlBy64(a, n), Shr(a, 64 - n))
  }

  function Down64(a: word, n: word): word
    requires n <= 64
  {
    (a >> n) | (a << (64 - n))
  }

  lemma RawDown64(a: word, n: word)
    requires 0 < n < 64
    ensures (a >> n) | (a << (64 - n)) == (a << (64 - n)) ^ (a >> n)
  {
  }

  lemma DownIsUp64(a: word, n: word)
    requires 0 < n < 64
    ensures Down64(a, n) == Up64(a, 64 - n)
  {
    RawDown64(a, n);
  }

  lemma RawShl64(a: word, n: word)
    requires n < 63
    ensures (a << n) << 1 == a << (n + 1)
  {
  }

  lemma RawShr64(a: word, n: word)
    requires n < 64
    ensures (a >> (63 - n)) >> 1 == a >> (64 - n)
  {
  }

  lemma RawTop64(a: word, n: word)
    requires n < 63
    ensures (a >> (63 - n)) & 1 == (a << n) >> 63 && (a >> (64 - n)) >> 63 == 0
  {
  }

  lemma ShlNext64(a: word, n: word)
    requires n < 63
    ensures Twice64(ShlBy64(a, n)) == ShlBy64(a, n + 1)
  {
    RawShl64(a, n);
  }

  lemma ShrNext64(a: word, n: word)
    requires n < 64
    ensures Half64(Shr(a, 63 - n)) == Shr(a, 64 - n)
  {
    RawShr64(a, n);
  }

  lemma TopNext64(a: word, n: word)
    requires n < 63
    ensures Last64(Shr(a, 63 - n)) == Top64(ShlBy64(a, n)) && Top64(Shr(a, 64 - n)) == 0
  {
    RawTop64(a, n);
  }

  function Last64(a: word): word { a & 1 }

  lemma TwiceXor64(x: word, y: word)
    ensures Twice64(Xor(x, y)) == Xor(Twice64(x), Twice64(y)) && Top64(Xor(x, y)) == Xor(Top64(x), Top64(y))
  {
  }

  lemma HalfAndLast64(u: word)
    ensures Xor(Twice64(Half64(u)), Last64(u)) == u
  {
  }

  lemma Merge64(x: word, y: word, u: word)
    requires y == Half64(u) && Last64(u) == Top64(x) && Top64(y) == 0
    ensures Xor(Twice64(Xor(x, y)), Top64(Xor(x, y))) == Xor(Twice64(x), u)
  {
    hide *;
    TwiceXor64(x, y);
    HalfAndLast64(u);
    XorZero(Top64(x));
    XorAssociates(Twice64(x), Twice64(y), Top64(x));
  }

  lemma UpOneIs64(a: word)
    ensures Up64(a, 1) == Xor(Twice64(a), Top64(a))
  {
  }

  lemma UpNextIs64(a: word, n: word)
    requires n < 63
    ensures Up64(a, n + 1) == Xor(ShlBy64(a, n + 1), Shr(a, 63 - n))
  {
    assert 64 - (n + 1) == 63 - n;
  }

  /** Rotating by n + 1 is rotating by n and by one. */
  lemma UpStep64(a: word, n: word)
    requires n < 63
    ensures Up64(Up64(a, n), 1) == Up64(a, n + 1)
  {
    hide ShlBy64, Shr, Xor, Twice64, Top64, Half64, Last64;
    ShlNext64(a, n);
    ShrNext64(a, n);
    TopNext64(a, n);
    UpNextIs64(a, n);
    UpOneIs64(Up64(a, n));
    Merge64(ShlBy64(a, n), Shr(a, 64 - n), Shr(a, 63 - n));
  }

  /** A word of a top bit and the others, and the word in which the top bit has become the lowest. */
  function TopFirst64(t: bv1, l: bv63): word { ((t as word) << 63) | (l as word) }

  function TopLast64(t: bv1, l: bv63): word { ((l as word) << 1) | (t as word) }

  lemma RawParts64(a: word) returns (t: bv1, l: bv63)
    ensures a == ((t as word) << 63) | (l as word) && (a << 1) ^ (a >> 63) == ((l as word) << 1) | (t as word)
  {
    t, l := (a >> 63) as bv1, (a & 0x7fffffffffffffff) as bv63;
  }

  lemma UpOneParts64(a: word) returns (t: bv1, l: bv63)
    ensures a == TopFirst64(t, l) && Up64(a, 1) == TopLast64(t, l)
  {
    t, l := RawParts64(a);
  }

  lemma RawTopFirst64(t: bv1, l: bv63)
    ensures (((t as word) << 63) | (l as word)) as int == t as int * 0x8000000000000000 + l as int && l as int < 0x8000000000000000
  {
  }

  lemma PartsValue64(t: bv1, l: bv63)
    ensures TopFirst64(t, l) as int == t as int * 0x8000000000000000 + l as int && l as int < 0x8000000000000000
    ensures TopLast64(t, l) as int == 2 * (l as int) + t as int
  {
    RawTopFirst64(t, l);
    RawJoin64(l, t);
  }

  lemma UpOne64(a: word)
    ensures Up64(a, 1) as int == 2 * (a as int % Pow2(63)) + a as int / Pow2(63) && (a as int) < Pow2(64)
  {
    hide *;
    var t, l := UpOneParts64(a);
    PartsValue64(t, l);
    Power63();
    OneBit(t);
    DivUnique(a as int, 0x8000000000000000, t as int, l as int);
  }

  lemma Power63()
    ensures Pow2(63) == 0x8000000000000000 && Pow2(64) == 2 * 0x8000000000000000
  {
    assert Pow2(8) == 256;
    assert Pow2(16) == 65536;
    assert Pow2(24) == 16777216;
    assert Pow2(32) == 4294967296;
    assert Pow2(40) == 1099511627776;
    assert Pow2(48) == 281474976710656;
    assert Pow2(56) == 72057594037927936;
  }

  lemma Before64(n: word)
    requires 0 < n < 64
    ensures (n - 1) as int == n as int - 1
  {
  }

  lemma Earlier64(p: nat, q: nat, n: int)
    requires q == if p == 0 then 63 else p - 1
    ensures (p - n) % 64 == (q - (n - 1)) % 64
  {
  }

  lemma {:induction false} UpBitBy64(a: word, n: word, k: nat, p: nat)
    requires n < 64 && k == n as int && p < 64
    ensures Bit64(Up64(a, n), p) <==> Bit64(a, (p - k) % 64)
    decreases k
  {
    hide *;
    if n == 0 {
      UpNone64(a);
    } else {
      Before64(n);
      UpStep64(a, n - 1);
      var q := if p == 0 then 63 else p - 1;
      UpOneBit64(Up64(a, n - 1), p);
      UpBitBy64(a, n - 1, k - 1, q);
      Earlier64(p, q, k);
    }
  }

  /** Bit p of a word rotated up by n places is bit p - n, modulo 64. */
  lemma UpBit64(a: word, n: word, p: nat)
    requires n < 64 && p < 64
    ensures Bit64(Up64(a, n), p) <==> Bit64(a, (p - n as int) % 64)
  {
    UpBitBy64(a, n, n as int, p);
  }

  lemma UpNone64(a: word)
    ensures Up64(a, 0) == a
  {
  }

  lemma UpOneBit64(a: word, p: nat)
    requires p < 64
    ensures Bit64(Up64(a, 1), p) <==> Bit64(a, if p == 0 then 63 else p - 1)
  {
    hide Up64, Pow2, BitOf;
    UpOne64(a);
    RotatedBit(a as int, 64, Up64(a, 1) as int, p);
  }

  /** Bit p of a word rotated down by n places is bit p + n, modulo 64. */
  lemma DownBit64(a: word, n: word, p: nat)
    requires 0 < n < 64 && p < 64
    ensures Bit64(Down64(a, n), p) <==> Bit64(a, (p + n as int) % 64)
  {
    hide Up64, Down64, BitOf, Bit64;
    DownIsUp64(a, n);
    UpBit64(a, 64 - n, p);
    Complement64(n);
    assert (p - (64 - n) as int) % 64 == (p + n as int) % 64;
  }

  lemma Complement64(n: word)
    requires n < 64
    ensures (64 - n) as int == 64 - n as int
  {
  }

  // ------------------------------------------------------------------ rotating 32 bits

  function ShlBy32(a: bv32, n: bv32): bv32
    requires n <= 32
  {
    a << n
  }

  function ShrBy32(a: bv32, n: bv32): bv32
    requires n <= 32
  {
    a >> n
  }

  function Twice32(a: bv32): bv32 { a << 1 }

  function Top32(a: bv32): bv32 { a >> 31 }

  function Up32(a: bv32, n: bv32): bv32
    requires n < 32
  {
    Xor32(ShlBy32(a, n), ShrBy32(a, 32 - n))
  }

  function Down32(a: bv32, n: bv32): bv32
    requires n <= 32
  {
    (a >> n) | (a << (32 - n))
  }

  lemma RawDown32(a: bv32, n: bv32)
    requires 0 < n < 32
    ensures (a >> n) | (a << (32 - n)) == (a << (32 - n)) ^ (a >> n)
  {
  }

  lemma DownIsUp32(a: bv32, n: bv32)
    requires 0 < n < 32
    ensures Down32(a, n) == Up32(a, 32 - n)
  {
    RawDown32(a, n);
  }

  lemma RawShl32(a: bv32, n: bv32)
    requires n < 31
    ensures (a << n) << 1 == a << (n + 1)
  {
  }

  lemma RawShr32(a: bv32, n: bv32)
    requires n < 32
    ensures (a >> (31 - n)) >> 1 == a >> (32 - n)
  {
  }

  lemma RawTop32(a: bv32, n: bv32)
    requires n < 31
    ensures (a >> (31 - n)) & 1 == (a << n) >> 31 && (a >> (32 - n)) >> 31 == 0
  {
  }

  lemma ShlNext32(a: bv32, n: bv32)
    requires n < 31
    ensures Twice32(ShlBy32(a, n)) == ShlBy32(a, n + 1)
  {
    RawShl32(a, n);
  }

  lemma ShrNext32(a: bv32, n: bv32)
    requires n < 32
    ensures Half32(ShrBy32(a, 31 - n)) == ShrBy32(a, 32 - n)
  {
    RawShr32(a, n);
  }

  lemma TopNext32(a: bv32, n: bv32)
    requires n < 31
    ensures Last32(ShrBy32(a, 31 - n)) == Top32(ShlBy32(a, n)) && Top32(ShrBy32(a, 32 - n)) == 0
  {
    RawTop32(a, n);
  }

  function Last32(a: bv32): bv32 { a & 1 }

  lemma TwiceXor32(x: bv32, y: bv32)
    ensures Twice32(Xor32(x, y)) == Xor32(Twice32(x), Twice32(y)) && Top32(Xor32(x, y)) == Xor32(Top32(x), Top32(y))
  {
  }

  lemma HalfAndLast32(u: bv32)
    ensures Xor32(Twice32(Half32(u)), Last32(u)) == u
  {
  }

  lemma Xor32Associates(x: bv32, a: bv32, b: bv32)
    ensures Xor32(Xor32(x, a), b) == Xor32(x, Xor32(a, b))
  {
  }

  lemma Xor32Zero(x: bv32)
    ensures Xor32(x, 0) == x
  {
  }

  lemma Merge32(x: bv32, y: bv32, u: bv32)
    requires y == Half32(u) && Last32(u) == Top32(x) && Top32(y) == 0
    ensures Xor32(Twice32(Xor32(x, y)), Top32(Xor32(x, y))) == Xor32(Twice32(x), u)
  {
    hide *;
    TwiceXor32(x, y);
    HalfAndLast32(u);
    Xor32Zero(Top32(x));
    Xor32Associates(Twice32(x), Twice32(y), Top32(x));
  }

  lemma UpOneIs32(a: bv32)
    ensures Up32(a, 1) == Xor32(Twice32(a), Top32(a))
  {
  }

  lemma UpNextIs32(a: bv32, n: bv32)
    requires n < 31
    ensures Up32(a, n + 1) == Xor32(ShlBy32(a, n + 1), ShrBy32(a, 31 - n))
  {
    assert 32 - (n + 1) == 31 - n;
  }

  /** Rotating by n + 1 is rotating by n and by one. */
  lemma UpStep32(a: bv32, n: bv32)
    requires n < 31
    ensures Up32(Up32(a, n), 1) == Up32(a, n + 1)
  {
    hide ShlBy32, ShrBy32, Xor32, Twice32, Top32, Half32, Last32;
    ShlNext32(a, n);
    ShrNext32(a, n);
    TopNext32(a, n);
    UpNextIs32(a, n);
    UpOneIs32(Up32(a, n));
    Merge32(ShlBy32(a, n), ShrBy32(a, 32 - n), ShrBy32(a, 31 - n));
  }

  /** A word of a top bit and the others, and the word in which the top bit has become the lowest. */
  function TopFirst32(t: bv1, l: bv31): bv32 { ((t as bv32) << 31) | (l as bv32) }

  function TopLast32(t: bv1, l: bv31): bv32 { ((l as bv32) << 1) | (t as bv32) }

  lemma RawParts32(a: bv32) returns (t: bv1, l: bv31)
    ensures a == ((t as bv32) << 31) | (l as bv32) && (a << 1) ^ (a >> 31) == ((l as bv32) << 1) | (t as bv32)
  {
    t, l := (a >> 31) as bv1, (a & 0x7fffffff) as bv31;
  }

  lemma UpOneParts32(a: bv32) returns (t: bv1, l: bv31)
    ensures a == TopFirst32(t, l) && Up32(a, 1) == TopLast32(t, l)
  {
    t, l := RawParts32(a);
  }

  lemma RawTopFirst32(t: bv1, l: bv31)
    ensures (((t as bv32) << 31) | (l as bv32)) as int == t as int * 0x80000000 + l as int && l as int < 0x80000000
  {
  }

  lemma PartsValue32(t: bv1, l: bv31)
    ensures TopFirst32(t, l) as int == t as int * 0x80000000 + l as int && l as int < 0x80000000
    ensures TopLast32(t, l) as int == 2 * (l as int) + t as int
  {
    RawTopFirst32(t, l);
    RawJoin32(l, t);
  }

  lemma UpOne32(a: bv32)
    ensures Up32(a, 1) as int == 2 * (a as int % Pow2(31)) + a as int / Pow2(31) && (a as int) < Pow2(32)
  {
    hide *;
    var t, l := UpOneParts32(a);
    PartsValue32(t, l);
    Power31();
    OneBit(t);
    DivUnique(a as int, 0x80000000, t as int, l as int);
  }

  lemma Power31()
    ensures Pow2(31) == 0x80000000 && Pow2(32) == 2 * 0x80000000
  {
    assert Pow2(8) == 256;
    assert Pow2(16) == 65536;
    assert Pow2(24) == 16777216;
  }

  lemma Before32(n: bv32)
    requires 0 < n < 32
    ensures (n - 1) as int == n as int - 1
  {
  }

  lemma Earlier32(p: nat, q: nat, n: int)
    requires q == if p == 0 then 31 else p - 1
    ensures (p - n) % 32 == (q - (n - 1)) % 32
  {
  }

  lemma {:induction false} UpBitBy32(a: bv32, n: bv32, k: nat, p: nat)
    requires n < 32 && k == n as int && p < 32
    ensures Bit32(Up32(a, n), p) <==> Bit32(a, (p - k) % 32)
    decreases k
  {
    hide *;
    if n == 0 {
      UpNone32(a);
    } else {
      Before32(n);
      UpStep32(a, n - 1);
      var q := if p == 0 then 31 else p - 1;
      UpOneBit32(Up32(a, n - 1), p);
      UpBitBy32(a, n - 1, k - 1, q);
      Earlier32(p, q, k);
    }
  }

  /** Bit p of a word rotated up by n places is bit p - n, modulo 32. */
  lemma UpBit32(a: bv32, n: bv32, p: nat)
    requires n < 32 && p < 32
    ensures Bit32(Up32(a, n), p) <==> Bit32(a, (p - n as int) % 32)
  {
    UpBitBy32(a, n, n as int, p);
  }

  lemma UpNone32(a: bv32)
    ensures Up32(a, 0) == a
  {
  }

  lemma UpOneBit32(a: bv32, p: nat)
    requires p < 32
    ensures Bit32(Up32(a, 1), p) <==> Bit32(a, if p == 0 then 31 else p - 1)
  {
    hide Up32, Pow2, BitOf;
    UpOne32(a);
    RotatedBit(a as int, 32, Up32(a, 1) as int, p);
  }

  /** Bit p of a word rotated down by n places is bit p + n, modulo 32. */
  lemma DownBit32(a: bv32, n: bv32, p: nat)
    requires 0 < n < 32 && p < 32
    ensures Bit32(Down32(a, n), p) <==> Bit32(a, (p + n as int) % 32)
  {
    hide Up32, Down32, BitOf, Bit32;
    DownIsUp32(a, n);
    UpBit32(a, 32 - n, p);
    Complement32(n);
    assert (p - (32 - n) as int) % 32 == (p + n as int) % 32;
  }

  lemma Complement32(n: bv32)
    requires n < 32
    ensures (32 - n) as int == 32 - n as int
  {
  }

  // ------------------------------------------------------------------ shifting 32 bits down

  lemma ShrNone32(a: bv32)
    ensures ShrBy32(a, 0) == a
  {
  }

  lemma ShrOneMore32(a: bv32, n: bv32)
    requires 0 < n < 32
    ensures ShrBy32(a, n) == Half32(ShrBy32(a, n - 1))
  {
    hide ShrBy32, Half32;
    ShrNext32(a, 32 - n);
    Cancel32(n);
  }

  lemma Cancel32(n: bv32)
    requires 0 < n < 32
    ensures 31 - (32 - n) == n - 1 && 32 - (32 - n) == n && 32 - n < 32
  {
  }

  /** Bit p of a word shifted down by n places is bit p + n, and zero beyond the top. */
  lemma {:induction false} ShrBit32(a: bv32, n: bv32, p: nat)
    requires n < 32
    ensures Bit32(ShrBy32(a, n), p) <==> p + n as int < 32 && Bit32(a, p + n as int)
    decreases n as int
  {
    hide *;
    if n == 0 {
      ShrNone32(a);
      NothingAbove32(a, p);
    } else {
      Before32(n);
      ShrOneMore32(a, n);
      BitStep32(ShrBy32(a, n - 1), p + 1);
      ShrBit32(a, n - 1, p + 1);
    }
  }

  lemma NothingAbove32(a: bv32, p: nat)
    ensures p >= 32 ==> !Bit32(a, p)
  {
    hide BitOf, Pow2;
    Power31();
    Fits32(a);
    if p >= 32 { BitAbove(a as int, 32, p); }
  }

  lemma Fits32(a: bv32)
    ensures a as int < 0x1_0000_0000
  {
  }

  // ------------------------------------------------------------------ adding 32 bits

  function Add32(x: bv32, y: bv32): bv32 { x + y }

  /** The sum with its carry, and a carry before a word. */
  function Wide32(x: bv32, y: bv32): bv33 { (x as bv33) + (y as bv33) }

  function Carried32(c: bv1, l: bv32): bv33 { ((c as bv33) << 32) | (l as bv33) }

  function Value32(x: bv32): nat { x as int }

  function WideValue32(x: bv33): nat { x as int }

  lemma RawCarry32(x: bv32, y: bv32) returns (c: bv1)
    ensures (x as bv33) + (y as bv33) == (((c as bv33) << 32) | ((x + y) as bv33))
  {
    c := (((x as bv33) + (y as bv33)) >> 32) as bv1;
  }

  lemma Carry32(x: bv32, y: bv32) returns (c: bv1)
    ensures Wide32(x, y) == Carried32(c, Add32(x, y))
  {
    c := RawCarry32(x, y);
  }

  lemma RawWide32(x: bv32, y: bv32, s: bv33)
    requires s == (x as bv33) + (y as bv33)
    ensures s as int == x as int + y as int
  {
  }

  lemma WideIs32(x: bv32, y: bv32)
    ensures Wide32(x, y) == (x as bv33) + (y as bv33)
  {
  }

  lemma WideInt32(x: bv32, y: bv32)
    ensures Wide32(x, y) as int == x as int + y as int
  {
    hide *;
    WideIs32(x, y);
    RawWide32(x, y, Wide32(x, y));
  }

  lemma WideSum32(x: bv32, y: bv32)
    ensures WideValue32(Wide32(x, y)) == Value32(x) + Value32(y)
  {
    hide Wide32;
    WideInt32(x, y);
  }

  lemma RawCarried32(c: bv1, l: bv32, s: bv33)
    requires s == ((c as bv33) << 32) | (l as bv33)
    ensures s as int == c as int * 0x1_0000_0000 + l as int && (l as int) < 0x1_0000_0000
  {
  }

  lemma CarriedIs32(c: bv1, l: bv32)
    ensures Carried32(c, l) == ((c as bv33) << 32) | (l as bv33)
  {
  }

  lemma CarriedInt32(c: bv1, l: bv32)
    ensures Carried32(c, l) as int == c as int * 0x1_0000_0000 + l as int && (l as int) < 0x1_0000_0000
  {
    hide *;
    CarriedIs32(c, l);
    RawCarried32(c, l, Carried32(c, l));
  }

  lemma CarriedValue32(c: bv1, l: bv32)
    ensures WideValue32(Carried32(c, l)) == c as int * 0x1_0000_0000 + Value32(l) && Value32(l) < 0x1_0000_0000
  {
    hide Carried32;
    CarriedInt32(c, l);
  }

  /** Addition is addition modulo 2^32. */
  lemma AddValue32(x: bv32, y: bv32)
    ensures Value32(Add32(x, y)) == (Value32(x) + Value32(y)) % 0x1_0000_0000
  {
    hide *;
    var c := Carry32(x, y);
    WideSum32(x, y);
    CarriedValue32(c, Add32(x, y));
    DivUnique(Value32(x) + Value32(y), 0x1_0000_0000, c as int, Value32(Add32(x, y)));
  }

  // ------------------------------------------------------------------ shifting 64 bits down

  lemma ShrNone64(a: word)
    ensures Shr(a, 0) == a
  {
  }

  lemma ShrOneMore64(a: word, n: word)
    requires 0 < n < 64
    ensures Shr(a, n) == Half64(Shr(a, n - 1))
  {
    hide Shr, Half64;
    ShrNext64(a, 64 - n);
    Cancel64(n);
  }

  lemma Cancel64(n: word)
    requires 0 < n < 64
    ensures 63 - (64 - n) == n - 1 && 64 - (64 - n) == n && 64 - n < 64
  {
  }

  /** Bit p of a word shifted down by n places is bit p + n, and zero beyond the top. */
  lemma {:induction false} ShrBit64(a: word, n: word, p: nat)
    requires n < 64
    ensures Bit64(Shr(a, n), p) <==> p + n as int < 64 && Bit64(a, p + n as int)
    decreases n as int
  {
    hide *;
    if n == 0 {
      ShrNone64(a);
      NothingAbove64(a, p);
    } else {
      Before64(n);
      ShrOneMore64(a, n);
      BitStep64(Shr(a, n - 1), p + 1);
      ShrBit64(a, n - 1, p + 1);
    }
  }

  lemma NothingAbove64(a: word, p: nat)
    ensures p >= 64 ==> !Bit64(a, p)
  {
    hide BitOf, Pow2;
    Power63();
    Fits64(a);
    if p >= 64 { BitAbove(a as int, 64, p); }
  }

  lemma Fits64(a: word)
    ensures a as int < 0x1_0000_0000_0000_0000
  {
  }

  // ------------------------------------------------------------------ adding 64 bits

  function Add64(x: word, y: word): word { x + y }

  /** The sum with its carry, and a carry before a word. */
  function Wide64(x: word, y: word): bv65 { (x as bv65) + (y as bv65) }

  function Carried64(c: bv1, l: word): bv65 { ((c as bv65) << 64) | (l as bv65) }

  function Value64(x: word): nat { x as int }

  function WideValue64(x: bv65): nat { x as int }

  lemma RawCarry64(x: word, y: word) returns (c: bv1)
    ensures (x as bv65) + (y as bv65) == (((c as bv65) << 64) | ((x + y) as bv65))
  {
    c := (((x as bv65) + (y as bv65)) >> 64) as bv1;
  }

  lemma Carry64(x: word, y: word) returns (c: bv1)
    ensures Wide64(x, y) == Carried64(c, Add64(x, y))
  {
    c := RawCarry64(x, y);
  }

  lemma RawWide64(x: word, y: word, s: bv65)
    requires s == (x as bv65) + (y as bv65)
    ensures s as int == x as int + y as int
  {
  }

  lemma WideIs64(x: word, y: word)
    ensures Wide64(x, y) == (x as bv65) + (y as bv65)
  {
  }

  lemma WideInt64(x: word, y: word)
    ensures Wide64(x, y) as int == x as int + y as int
  {
    hide *;
    WideIs64(x, y);
    RawWide64(x, y, Wide64(x, y));
  }

  lemma WideSum64(x: word, y: word)
    ensures WideValue64(Wide64(x, y)) == Value64(x) + Value64(y)
  {
    hide Wide64;
    WideInt64(x, y);
  }

  lemma RawCarried64(c: bv1, l: word, s: bv65)
    requires s == ((c as bv65) << 64) | (l as bv65)
    ensures s as int == c as int * 0x1_0000_0000_0000_0000 + l as int && (l as int) < 0x1_0000_0000_0000_0000
  {
  }

  lemma CarriedIs64(c: bv1, l: word)
    ensures Carried64(c, l) == ((c as bv65) << 64) | (l as bv65)
  {
  }

  lemma CarriedInt64(c: bv1, l: word)
    ensures Carried64(c, l) as int == c as int * 0x1_0000_0000_0000_0000 + l as int && (l as int) < 0x1_0000_0000_0000_0000
  {
    hide *;
    CarriedIs64(c, l);
    RawCarried64(c, l, Carried64(c, l));
  }

  lemma CarriedValue64(c: bv1, l: word)
    ensures WideValue64(Carried64(c, l)) == c as int * 0x1_0000_0000_0000_0000 + Value64(l) && Value64(l) < 0x1_0000_0000_0000_0000
  {
    hide Carried64;
    CarriedInt64(c, l);
  }

  /** Addition is addition modulo 2^64. */
  lemma AddValue64(x: word, y: word)
    ensures Value64(Add64(x, y)) == (Value64(x) + Value64(y)) % 0x1_0000_0000_0000_0000
  {
    hide *;
    var c := Carry64(x, y);
    WideSum64(x, y);
    CarriedValue64(c, Add64(x, y));
    DivUnique(Value64(x) + Value64(y), 0x1_0000_0000_0000_0000, c as int, Value64(Add64(x, y)));
  }

  // ------------------------------------------------------------------ bytes of a word, most significant first

  lemma Joined32(a: bv8, b: bv8, c: bv8, d: bv8)
    ensures (((a as bv32) << 24) | ((b as bv32) << 16) | ((c as bv32) << 8) | (d as bv32)) as int
         == 0x100_0000 * (a as int) + 0x1_0000 * (b as int) + 0x100 * (c as int) + d as int
  {
  }

  lemma Joined64(a: bv8, b: bv8, c: bv8, d: bv8, e: bv8, f: bv8, g: bv8, h: bv8)
    ensures (((a as bv64) << 56) | ((b as bv64) << 48) | ((c as bv64) << 40) | ((d as bv64) << 32)
             | ((e as bv64) << 24) | ((f as bv64) << 16) | ((g as bv64) << 8) | (h as bv64)) as int
         == 0x100_0000_0000_0000 * (a as int) + 0x1_0000_0000_0000 * (b as int) + 0x100_0000_0000 * (c as int)
            + 0x1_0000_0000 * (d as int) + 0x100_0000 * (e as int) + 0x1_0000 * (f as int) + 0x100 * (g as int) + h as int
  {
  }
}
