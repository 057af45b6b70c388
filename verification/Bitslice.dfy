/** The bitsliced layer of aes.c on 64-bit words: where each byte of four AES blocks sits, and what each step does to it.

    A slot is the byte whose bit i is bit p of word i.  Slot 16 r + 4 c + j holds row r, column c of block j, so the
    block a slot belongs to is its position modulo 4; every step below moves bytes within one class only. */
module Bitslice {
  import opened Primitives
  import opened SBox
  import opened Words
  import opened AesSpec

  function Bit(x: word, p: word): bit
    requires p < 64
  {
    ((x >> p) & 1) as bit
  }

  function Bits(q: Oct<word>, p: word): Oct<bit>
    requires p < 64
  {
    Oct(Bit(q.q0, p), Bit(q.q1, p), Bit(q.q2, p), Bit(q.q3, p), Bit(q.q4, p), Bit(q.q5, p), Bit(q.q6, p), Bit(q.q7, p))
  }

  function Slot(q: Oct<word>, p: word): byte
    requires p < 64
  {
    Pack(Bits(q, p))
  }

  // ------------------------------------------------------------------ bits of words

  lemma RawBitXor(a: word, b: word, p: word)
    requires p < 64
    ensures ((a ^ b) >> p) & 1 == ((a >> p) & 1) ^ ((b >> p) & 1)
  {
  }

  lemma RawBitOr(a: word, b: word, p: word)
    requires p < 64
    ensures ((a | b) >> p) & 1 == ((a >> p) & 1) | ((b >> p) & 1)
  {
  }

  lemma RawBitOnes(p: word)
    requires p < 64
    ensures ((0xFFFF_FFFF_FFFF_FFFF as word) >> p) & 1 == 1
  {
  }

  lemma AndIsOrXor(a: word, b: word)
    ensures a & b == (a | b) ^ (a ^ b) && !a == a ^ 0xFFFF_FFFF_FFFF_FFFF
  {
  }

  lemma LowBits(x: word, y: word)
    requires x < 2 && y < 2
    ensures (x | y) as bit == (x as bit) | (y as bit)
    ensures (x ^ y) as bit == (x as bit) ^ (y as bit) && (x ^ 1) as bit == !(x as bit)
  {
  }

  lemma BitXor(a: word, b: word, p: word)
    requires p < 64
    ensures Bit(Xor(a, b), p) == XorBit(Bit(a, p), Bit(b, p))
  {
    RawBitXor(a, b, p);
    LowBits((a >> p) & 1, (b >> p) & 1);
  }

  lemma BitOr(a: word, b: word, p: word)
    requires p < 64
    ensures Bit(Or(a, b), p) == OrBit(Bit(a, p), Bit(b, p))
  {
    RawBitOr(a, b, p);
    LowBits((a >> p) & 1, (b >> p) & 1);
  }

  function OrBit(a: bit, b: bit): bit { a | b }

  lemma AndFromOr(a: word, b: word)
    ensures And(a, b) == Xor(Or(a, b), Xor(a, b))
  {
    AndIsOrXor(a, b);
  }

  lemma AndBitFromOr(a: bit, b: bit)
    ensures AndBit(a, b) == XorBit(OrBit(a, b), XorBit(a, b))
  {
  }

  lemma BitAnd(a: word, b: word, p: word)
    requires p < 64
    ensures Bit(And(a, b), p) == AndBit(Bit(a, p), Bit(b, p))
  {
    hide And, Or, Xor, Bit, AndBit, OrBit, XorBit;
    AndFromOr(a, b);
    BitXor(Or(a, b), Xor(a, b), p);
    BitOr(a, b, p);
    BitXor(a, b, p);
    AndBitFromOr(Bit(a, p), Bit(b, p));
  }

  lemma BitNot(a: word, p: word)
    requires p < 64
    ensures Bit(Not(a), p) == NotBit(Bit(a, p))
  {
    AndIsOrXor(a, a);
    RawBitXor(a, 0xFFFF_FFFF_FFFF_FFFF, p);
    RawBitOnes(p);
    LowBits((a >> p) & 1, 0);
  }

  lemma XorLaw(p: word)
    requires p < 64
    ensures forall a, b :: Bit(Xor(a, b), p) == XorBit(Bit(a, p), Bit(b, p))
  {
    hide Xor, Bit, XorBit;
    forall a, b ensures Bit(Xor(a, b), p) == XorBit(Bit(a, p), Bit(b, p)) { BitXor(a, b, p); }
  }

  lemma AndLaw(p: word)
    requires p < 64
    ensures forall a, b :: Bit(And(a, b), p) == AndBit(Bit(a, p), Bit(b, p))
  {
    hide And, Bit, AndBit;
    forall a, b ensures Bit(And(a, b), p) == AndBit(Bit(a, p), Bit(b, p)) { BitAnd(a, b, p); }
  }

  lemma NotLaw(p: word)
    requires p < 64
    ensures forall a :: Bit(Not(a), p) == NotBit(Bit(a, p))
  {
    hide Not, Bit, NotBit;
    forall a ensures Bit(Not(a), p) == NotBit(Bit(a, p)) { BitNot(a, p); }
  }

  // ------------------------------------------------------------------ S-box

  /** The circuit on words is the AES S-box on every slot. */
  method BitsliceSbox(q: Oct<word>) returns (out: Oct<word>)
    ensures forall p: word | p < 64 :: Slot(out, p) == SubByte(Slot(q, p))
  {
    hide Xor, And, Not, Bit, XorBit, AndBit, NotBit, Pack, Unpack;
    var x0, x1, x2, x3, x4, x5, x6, x7 := q.q7, q.q6, q.q5, q.q4, q.q3, q.q2, q.q1, q.q0;
    var y14 := Xor(x3, x5); var y13 := Xor(x0, x6); var y9 := Xor(x0, x3); var y8 := Xor(x0, x5);
    var t0 := Xor(x1, x2); var y1 := Xor(t0, x7); var y4 := Xor(y1, x3); var y12 := Xor(y13, y14);
    var y2 := Xor(y1, x0); var y5 := Xor(y1, x6); var y3 := Xor(y5, y8); var t1 := Xor(x4, y12);
    var y15 := Xor(t1, x5); var y20 := Xor(t1, x1); var y6 := Xor(y15, x7); var y10 := Xor(y15, t0);
    var y11 := Xor(y20, y9); var y7 := Xor(x7, y11); var y17 := Xor(y10, y11); var y19 := Xor(y10, y8);
    var y16 := Xor(t0, y11); var y21 := Xor(y13, y16); var y18 := Xor(x0, y16); var t2 := And(y12, y15);
    var t3 := And(y3, y6); var t4 := Xor(t3, t2); var t5 := And(y4, x7); var t6 := Xor(t5, t2);
    var t7 := And(y13, y16); var t8 := And(y5, y1); var t9 := Xor(t8, t7); var t10 := And(y2, y7);
    var t11 := Xor(t10, t7); var t12 := And(y9, y11); var t13 := And(y14, y17); var t14 := Xor(t13, t12);
    var t15 := And(y8, y10); var t16 := Xor(t15, t12); var t17 := Xor(t4, t14); var t18 := Xor(t6, t16);
    var t19 := Xor(t9, t14); var t20 := Xor(t11, t16); var t21 := Xor(t17, y20); var t22 := Xor(t18, y19);
    var t23 := Xor(t19, y21); var t24 := Xor(t20, y18); var t25 := Xor(t21, t22); var t26 := And(t21, t23);
    var t27 := Xor(t24, t26); var t28 := And(t25, t27); var t29 := Xor(t28, t22); var t30 := Xor(t23, t24);
    var t31 := Xor(t22, t26); var t32 := And(t31, t30); var t33 := Xor(t32, t24); var t34 := Xor(t23, t33);
    var t35 := Xor(t27, t33); var t36 := And(t24, t35); var t37 := Xor(t36, t34); var t38 := Xor(t27, t36);
    var t39 := And(t29, t38); var t40 := Xor(t25, t39); var t41 := Xor(t40, t37); var t42 := Xor(t29, t33);
    var t43 := Xor(t29, t40); var t44 := Xor(t33, t37); var t45 := Xor(t42, t41); var z0 := And(t44, y15);
    var z1 := And(t37, y6); var z2 := And(t33, x7); var z3 := And(t43, y16); var z4 := And(t40, y1);
    var z5 := And(t29, y7); var z6 := And(t42, y11); var z7 := And(t45, y17); var z8 := And(t41, y10);
    var z9 := And(t44, y12); var z10 := And(t37, y3); var z11 := And(t33, y4); var z12 := And(t43, y13);
    var z13 := And(t40, y5); var z14 := And(t29, y2); var z15 := And(t42, y9); var z16 := And(t45, y14);
    var z17 := And(t41, y8); var t46 := Xor(z15, z16); var t47 := Xor(z10, z11); var t48 := Xor(z5, z13);
    var t49 := Xor(z9, z10); var t50 := Xor(z2, z12); var t51 := Xor(z2, z5); var t52 := Xor(z7, z8);
    var t53 := Xor(z0, z3); var t54 := Xor(z6, z7); var t55 := Xor(z16, z17); var t56 := Xor(z12, t48);
    var t57 := Xor(t50, t53); var t58 := Xor(z4, t46); var t59 := Xor(z3, t54); var t60 := Xor(t46, t57);
    var t61 := Xor(z14, t57); var t62 := Xor(t52, t58); var t63 := Xor(t49, t58); var t64 := Xor(z4, t59);
    var t65 := Xor(t61, t62); var t66 := Xor(z1, t63); var s0 := Xor(t59, t63); var s6 := Xor(t56, Not(t62));
    var s7 := Xor(t48, Not(t60)); var t67 := Xor(t64, t65); var s3 := Xor(t53, t66); var s4 := Xor(t51, t66);
    var s5 := Xor(t47, t65); var s1 := Xor(t64, Not(s3)); var s2 := Xor(t55, Not(t67));
    out := Oct(s7, s6, s5, s4, s3, s2, s1, s0);
    forall p: word | p < 64 ensures Slot(out, p) == SubByte(Slot(q, p)) {
      XorLaw(p);
      AndLaw(p);
      NotLaw(p);
      assert Bits(out, p) == Circuit(Bits(q, p));
      UnpackUndoesPack(Bits(q, p));
    }
  }

  // ------------------------------------------------------------------ round keys

  function AddRoundKeyWords(q: Oct<word>, k: Oct<word>): Oct<word> {
    Oct(Xor(q.q0, k.q0), Xor(q.q1, k.q1), Xor(q.q2, k.q2), Xor(q.q3, k.q3),
        Xor(q.q4, k.q4), Xor(q.q5, k.q5), Xor(q.q6, k.q6), Xor(q.q7, k.q7))
  }

  function XorBits(a: Oct<bit>, b: Oct<bit>): Oct<bit> {
    Oct(XorBit(a.q0, b.q0), XorBit(a.q1, b.q1), XorBit(a.q2, b.q2), XorBit(a.q3, b.q3),
        XorBit(a.q4, b.q4), XorBit(a.q5, b.q5), XorBit(a.q6, b.q6), XorBit(a.q7, b.q7))
  }

  lemma PackXor(a: Oct<bit>, b: Oct<bit>)
    ensures Pack(a) ^ Pack(b) == Pack(XorBits(a, b))
  {
  }

  lemma AddRoundKeySlot(q: Oct<word>, k: Oct<word>, p: word)
    requires p < 64
    ensures Slot(AddRoundKeyWords(q, k), p) == Slot(q, p) ^ Slot(k, p)
  {
    hide Xor, And, Not, Bit, XorBit, AndBit, NotBit, Pack;
    XorLaw(p);
    PackXor(Bits(q, p), Bits(k, p));
  }

  // ------------------------------------------------------------------ positions

  /** A coordinate as a word. */
  function Small(n: nat): (w: word)
    requires n < 4
    ensures w < 4
  {
    match n
    case 0 => 0
    case 1 => 1
    case 2 => 2
    case 3 => 3
  }

  function At(r: word, c: word, j: word): (p: word)
    requires r < 4 && c < 4 && j < 4
    ensures p < 64
  {
    (r << 4) | (c << 2) | j
  }

  /** The position of row r, column c of block j. */
  function Pos(r: nat, c: nat, j: nat): (p: word)
    requires r < 4 && c < 4 && j < 4
    ensures p < 64
  {
    At(Small(r), Small(c), Small(j))
  }

  // ------------------------------------------------------------------ shift rows

  function ShiftRowsWord(x: word): word {
    (x & 0x000000000000FFFF)
    | ((x & 0x00000000FFF00000) >> 4)
    | ((x & 0x00000000000F0000) << 12)
    | ((x & 0x0000FF0000000000) >> 8)
    | ((x & 0x000000FF00000000) << 8)
    | ((x & 0xF000000000000000) >> 12)
    | ((x & 0x0FFF000000000000) << 4)
  }

  function ShiftRowsWords(q: Oct<word>): Oct<word> {
    Oct(ShiftRowsWord(q.q0), ShiftRowsWord(q.q1), ShiftRowsWord(q.q2), ShiftRowsWord(q.q3),
        ShiftRowsWord(q.q4), ShiftRowsWord(q.q5), ShiftRowsWord(q.q6), ShiftRowsWord(q.q7))
  }

  /** Row r of every block moves r columns to the left. */
  lemma ShiftRowsBit(x: word, r: word, c: word, j: word)
    requires r < 4 && c < 4 && j < 4
    ensures Bit(ShiftRowsWord(x), At(r, c, j)) == Bit(x, At(r, (c + r) & 3, j))
  {
  }

  lemma SmallSum(r: nat, c: nat)
    requires r < 4 && c < 4
    ensures (Small(c) + Small(r)) & 3 == Small((c + r) % 4)
  {
  }

  lemma ShiftRowsSlot(q: Oct<word>, r: nat, c: nat, j: nat)
    requires r < 4 && c < 4 && j < 4
    ensures Slot(ShiftRowsWords(q), Pos(r, c, j)) == Slot(q, Pos(r, (c + r) % 4, j))
  {
    hide Bit, ShiftRowsWord, At, Small, Pack;
    SmallSum(r, c);
    var R, C, J := Small(r), Small(c), Small(j);
    ShiftRowsBit(q.q0, R, C, J);
    ShiftRowsBit(q.q1, R, C, J);
    ShiftRowsBit(q.q2, R, C, J);
    ShiftRowsBit(q.q3, R, C, J);
    ShiftRowsBit(q.q4, R, C, J);
    ShiftRowsBit(q.q5, R, C, J);
    ShiftRowsBit(q.q6, R, C, J);
    ShiftRowsBit(q.q7, R, C, J);
  }

  // ------------------------------------------------------------------ mix columns

  function Rot16(x: word): word { (x >> 16) | (x << 48) }

  function Rot32(x: word): word { (x << 32) | (x >> 32) }

  function Xor3(a: word, b: word, c: word): word { Xor(Xor(a, b), c) }

  function MixColumnsWords(q: Oct<word>): Oct<word> {
    var r0, r1, r2, r3 := Rot16(q.q0), Rot16(q.q1), Rot16(q.q2), Rot16(q.q3);
    var r4, r5, r6, r7 := Rot16(q.q4), Rot16(q.q5), Rot16(q.q6), Rot16(q.q7);
    Oct(Xor(Xor3(q.q7, r7, r0), Rot32(Xor(q.q0, r0))),
        Xor(Xor(Xor3(q.q0, r0, q.q7), Xor(r7, r1)), Rot32(Xor(q.q1, r1))),
        Xor(Xor3(q.q1, r1, r2), Rot32(Xor(q.q2, r2))),
        Xor(Xor(Xor3(q.q2, r2, q.q7), Xor(r7, r3)), Rot32(Xor(q.q3, r3))),
        Xor(Xor(Xor3(q.q3, r3, q.q7), Xor(r7, r4)), Rot32(Xor(q.q4, r4))),
        Xor(Xor3(q.q4, r4, r5), Rot32(Xor(q.q5, r5))),
        Xor(Xor3(q.q5, r5, r6), Rot32(Xor(q.q6, r6))),
        Xor(Xor3(q.q6, r6, r7), Rot32(Xor(q.q7, r7))))
  }

  lemma Rot16Bit(x: word, p: word)
    requires p < 64
    ensures Bit(Rot16(x), p) == Bit(x, (p + 16) & 63)
  {
  }

  lemma Rot32Bit(x: word, p: word)
    requires p < 64
    ensures Bit(Rot32(x), p) == Bit(x, (p + 32) & 63)
  {
  }

  lemma RotLaws(p: word)
    requires p < 64
    ensures forall x :: Bit(Rot16(x), p) == Bit(x, (p + 16) & 63)
    ensures forall x :: Bit(Rot32(x), p) == Bit(x, (p + 32) & 63)
  {
    hide Bit, Rot16, Rot32;
    forall x ensures Bit(Rot16(x), p) == Bit(x, (p + 16) & 63) { Rot16Bit(x, p); }
    forall x ensures Bit(Rot32(x), p) == Bit(x, (p + 32) & 63) { Rot32Bit(x, p); }
  }

  function Xor3Bit(a: bit, b: bit, c: bit): bit { XorBit(XorBit(a, b), c) }

  /** The same formula on single bits: a, b, c, d are the bits of a column from some row downwards. */
  function MixBits(a: Oct<bit>, b: Oct<bit>, c: Oct<bit>, d: Oct<bit>): Oct<bit> {
    Oct(XorBit(Xor3Bit(a.q7, b.q7, b.q0), XorBit(c.q0, d.q0)),
        XorBit(XorBit(Xor3Bit(a.q0, b.q0, a.q7), XorBit(b.q7, b.q1)), XorBit(c.q1, d.q1)),
        XorBit(Xor3Bit(a.q1, b.q1, b.q2), XorBit(c.q2, d.q2)),
        XorBit(XorBit(Xor3Bit(a.q2, b.q2, a.q7), XorBit(b.q7, b.q3)), XorBit(c.q3, d.q3)),
        XorBit(XorBit(Xor3Bit(a.q3, b.q3, a.q7), XorBit(b.q7, b.q4)), XorBit(c.q4, d.q4)),
        XorBit(Xor3Bit(a.q4, b.q4, b.q5), XorBit(c.q5, d.q5)),
        XorBit(Xor3Bit(a.q5, b.q5, b.q6), XorBit(c.q6, d.q6)),
        XorBit(Xor3Bit(a.q6, b.q6, b.q7), XorBit(c.q7, d.q7)))
  }

  lemma PackXTime(a: Oct<bit>)
    ensures XTime(Pack(a)) == Pack(XTimeBits(a))
  {
  }

  function XTimeBits(a: Oct<bit>): Oct<bit> {
    Oct(a.q7, XorBit(a.q0, a.q7), a.q1, XorBit(a.q2, a.q7), XorBit(a.q3, a.q7), a.q4, a.q5, a.q6)
  }

  lemma PackMix(a: Oct<bit>, b: Oct<bit>, c: Oct<bit>, d: Oct<bit>)
    ensures Mix(Pack(a), Pack(b), Pack(c), Pack(d)) == Pack(MixBits(a, b, c, d))
  {
    hide Pack, XTime, XorBit;
    PackXTime(a);
    PackXTime(b);
    var x, y := XTimeBits(a), XTimeBits(b);
    PackXor(x, y);
    PackXor(XorBits(x, y), b);
    PackXor(XorBits(XorBits(x, y), b), c);
    PackXor(XorBits(XorBits(XorBits(x, y), b), c), d);
    assert XorBits(XorBits(XorBits(XorBits(x, y), b), c), d) == MixBits(a, b, c, d) by { SameMix(a, b, c, d); }
  }

  lemma SameMix(a: Oct<bit>, b: Oct<bit>, c: Oct<bit>, d: Oct<bit>)
    ensures XorBits(XorBits(XorBits(XorBits(XTimeBits(a), XTimeBits(b)), b), c), d) == MixBits(a, b, c, d)
  {
    hide XorBit;
    PlainMix(a.q7, b.q7, b.q0, c.q0, d.q0);
    CarryMix(a.q0, a.q7, b.q0, b.q7, b.q1, c.q1, d.q1);
    PlainMix(a.q1, b.q1, b.q2, c.q2, d.q2);
    CarryMix(a.q2, a.q7, b.q2, b.q7, b.q3, c.q3, d.q3);
    CarryMix(a.q3, a.q7, b.q3, b.q7, b.q4, c.q4, d.q4);
    PlainMix(a.q4, b.q4, b.q5, c.q5, d.q5);
    PlainMix(a.q5, b.q5, b.q6, c.q6, d.q6);
    PlainMix(a.q6, b.q6, b.q7, c.q7, d.q7);
  }

  lemma PlainMix(x: bit, y: bit, b: bit, c: bit, d: bit)
    ensures XorBit(XorBit(XorBit(XorBit(x, y), b), c), d) == XorBit(Xor3Bit(x, y, b), XorBit(c, d))
  {
  }

  lemma CarryMix(x: bit, x7: bit, y: bit, y7: bit, b: bit, c: bit, d: bit)
    ensures XorBit(XorBit(XorBit(XorBit(XorBit(x, x7), XorBit(y, y7)), b), c), d)
         == XorBit(XorBit(Xor3Bit(x, y, x7), XorBit(y7, b)), XorBit(c, d))
  {
  }

  lemma RowBelow(r: nat, c: nat, j: nat)
    requires r < 4 && c < 4 && j < 4
    ensures (Pos(r, c, j) + 16) & 63 == Pos((r + 1) % 4, c, j)
    ensures (Pos(r, c, j) + 32) & 63 == Pos((r + 2) % 4, c, j)
    ensures (Pos((r + 2) % 4, c, j) + 16) & 63 == Pos((r + 3) % 4, c, j)
  {
    var C, J := Small(c), Small(j);
    hide Small;
    RawRowBelow(C, J);
    assert Small(0) == 0 && Small(1) == 1 && Small(2) == 2 && Small(3) == 3 by { SmallValues(); }
    if r == 0 {
    } else if r == 1 {
    } else if r == 2 {
    } else {
    }
  }

  lemma SmallValues()
    ensures Small(0) == 0 && Small(1) == 1 && Small(2) == 2 && Small(3) == 3
  {
  }

  lemma RawRowBelow(c: word, j: word)
    requires c < 4 && j < 4
    ensures (At(0, c, j) + 16) & 63 == At(1, c, j) && (At(0, c, j) + 32) & 63 == At(2, c, j)
    ensures (At(1, c, j) + 16) & 63 == At(2, c, j) && (At(1, c, j) + 32) & 63 == At(3, c, j)
    ensures (At(2, c, j) + 16) & 63 == At(3, c, j) && (At(2, c, j) + 32) & 63 == At(0, c, j)
    ensures (At(3, c, j) + 16) & 63 == At(0, c, j) && (At(3, c, j) + 32) & 63 == At(1, c, j)
  {
  }

  lemma MixColumnsSlot(q: Oct<word>, r: nat, c: nat, j: nat)
    requires r < 4 && c < 4 && j < 4
    ensures Slot(MixColumnsWords(q), Pos(r, c, j))
         == Mix(Slot(q, Pos(r, c, j)), Slot(q, Pos((r + 1) % 4, c, j)),
                Slot(q, Pos((r + 2) % 4, c, j)), Slot(q, Pos((r + 3) % 4, c, j)))
  {
    hide Xor, And, Not, Bit, XorBit, AndBit, NotBit, Rot16, Rot32, Pack, Mix, At, Small;
    RowBelow(r, c, j);
    var p0, p1, p2, p3 := Pos(r, c, j), Pos((r + 1) % 4, c, j), Pos((r + 2) % 4, c, j), Pos((r + 3) % 4, c, j);
    hide Pos;
    XorLaw(p0);
    XorLaw(p2);
    RotLaws(p0);
    RotLaws(p2);
    assert Bits(MixColumnsWords(q), p0) == MixBits(Bits(q, p0), Bits(q, p1), Bits(q, p2), Bits(q, p3));
    PackMix(Bits(q, p0), Bits(q, p1), Bits(q, p2), Bits(q, p3));
  }
}
