/** The AES S-box: the gate circuit of aes.c on single bits, and its meaning in GF(2^8) (sections 4.2 and 5.1.1 of FIPS
    197).  Gates have names so that words and bits can be compared gate by gate without looking inside them. */
module SBox {
  import opened Primitives

  type bit = bv1

  /** Eight words or eight bits; q0 belongs to the low bit of a byte. */
  datatype Oct<T> = Oct(q0: T, q1: T, q2: T, q3: T, q4: T, q5: T, q6: T, q7: T)

  function XorBit(a: bit, b: bit): bit { a ^ b }

  function AndBit(a: bit, b: bit): bit { a & b }

  function NotBit(a: bit): bit { !a }

  function Unpack(b: byte): Oct<bit> {
    Oct((b & 1) as bit, ((b >> 1) & 1) as bit, ((b >> 2) & 1) as bit, ((b >> 3) & 1) as bit,
        ((b >> 4) & 1) as bit, ((b >> 5) & 1) as bit, ((b >> 6) & 1) as bit, ((b >> 7) & 1) as bit)
  }

  function Pack(q: Oct<bit>): byte {
    (q.q0 as byte) | ((q.q1 as byte) << 1) | ((q.q2 as byte) << 2) | ((q.q3 as byte) << 3)
    | ((q.q4 as byte) << 4) | ((q.q5 as byte) << 5) | ((q.q6 as byte) << 6) | ((q.q7 as byte) << 7)
  }

  lemma PackUndoesUnpack(b: byte)
    ensures Pack(Unpack(b)) == b
  {
  }

  lemma UnpackUndoesPack(q: Oct<bit>)
    ensures Unpack(Pack(q)) == q
  {
  }

  /** The Boyar-Peralta circuit: top linear layer, non-linear section, bottom linear layer. */
  function Circuit(q: Oct<bit>): Oct<bit> {
    var x0, x1, x2, x3, x4, x5, x6, x7 := q.q7, q.q6, q.q5, q.q4, q.q3, q.q2, q.q1, q.q0;
    var y14 := XorBit(x3, x5); var y13 := XorBit(x0, x6); var y9 := XorBit(x0, x3); var y8 := XorBit(x0, x5);
    var t0 := XorBit(x1, x2); var y1 := XorBit(t0, x7); var y4 := XorBit(y1, x3); var y12 := XorBit(y13, y14);
    var y2 := XorBit(y1, x0); var y5 := XorBit(y1, x6); var y3 := XorBit(y5, y8); var t1 := XorBit(x4, y12);
    var y15 := XorBit(t1, x5); var y20 := XorBit(t1, x1); var y6 := XorBit(y15, x7); var y10 := XorBit(y15, t0);
    var y11 := XorBit(y20, y9); var y7 := XorBit(x7, y11); var y17 := XorBit(y10, y11); var y19 := XorBit(y10, y8);
    var y16 := XorBit(t0, y11); var y21 := XorBit(y13, y16); var y18 := XorBit(x0, y16); var t2 := AndBit(y12, y15);
    var t3 := AndBit(y3, y6); var t4 := XorBit(t3, t2); var t5 := AndBit(y4, x7); var t6 := XorBit(t5, t2);
    var t7 := AndBit(y13, y16); var t8 := AndBit(y5, y1); var t9 := XorBit(t8, t7); var t10 := AndBit(y2, y7);
    var t11 := XorBit(t10, t7); var t12 := AndBit(y9, y11); var t13 := AndBit(y14, y17); var t14 := XorBit(t13, t12);
    var t15 := AndBit(y8, y10); var t16 := XorBit(t15, t12); var t17 := XorBit(t4, t14); var t18 := XorBit(t6, t16);
    var t19 := XorBit(t9, t14); var t20 := XorBit(t11, t16); var t21 := XorBit(t17, y20);
    var t22 := XorBit(t18, y19); var t23 := XorBit(t19, y21); var t24 := XorBit(t20, y18);
    var t25 := XorBit(t21, t22); var t26 := AndBit(t21, t23); var t27 := XorBit(t24, t26);
    var t28 := AndBit(t25, t27); var t29 := XorBit(t28, t22); var t30 := XorBit(t23, t24);
    var t31 := XorBit(t22, t26); var t32 := AndBit(t31, t30); var t33 := XorBit(t32, t24);
    var t34 := XorBit(t23, t33); var t35 := XorBit(t27, t33); var t36 := AndBit(t24, t35);
    var t37 := XorBit(t36, t34); var t38 := XorBit(t27, t36); var t39 := AndBit(t29, t38);
    var t40 := XorBit(t25, t39); var t41 := XorBit(t40, t37); var t42 := XorBit(t29, t33);
    var t43 := XorBit(t29, t40); var t44 := XorBit(t33, t37); var t45 := XorBit(t42, t41);
    var z0 := AndBit(t44, y15); var z1 := AndBit(t37, y6); var z2 := AndBit(t33, x7); var z3 := AndBit(t43, y16);
    var z4 := AndBit(t40, y1); var z5 := AndBit(t29, y7); var z6 := AndBit(t42, y11); var z7 := AndBit(t45, y17);
    var z8 := AndBit(t41, y10); var z9 := AndBit(t44, y12); var z10 := AndBit(t37, y3); var z11 := AndBit(t33, y4);
    var z12 := AndBit(t43, y13); var z13 := AndBit(t40, y5); var z14 := AndBit(t29, y2); var z15 := AndBit(t42, y9);
    var z16 := AndBit(t45, y14); var z17 := AndBit(t41, y8); var t46 := XorBit(z15, z16);
    var t47 := XorBit(z10, z11); var t48 := XorBit(z5, z13); var t49 := XorBit(z9, z10); var t50 := XorBit(z2, z12);
    var t51 := XorBit(z2, z5); var t52 := XorBit(z7, z8); var t53 := XorBit(z0, z3); var t54 := XorBit(z6, z7);
    var t55 := XorBit(z16, z17); var t56 := XorBit(z12, t48); var t57 := XorBit(t50, t53);
    var t58 := XorBit(z4, t46); var t59 := XorBit(z3, t54); var t60 := XorBit(t46, t57); var t61 := XorBit(z14, t57);
    var t62 := XorBit(t52, t58); var t63 := XorBit(t49, t58); var t64 := XorBit(z4, t59);
    var t65 := XorBit(t61, t62); var t66 := XorBit(z1, t63); var s0 := XorBit(t59, t63);
    var s6 := XorBit(t56, NotBit(t62)); var s7 := XorBit(t48, NotBit(t60)); var t67 := XorBit(t64, t65);
    var s3 := XorBit(t53, t66); var s4 := XorBit(t51, t66); var s5 := XorBit(t47, t65);
    var s1 := XorBit(t64, NotBit(s3)); var s2 := XorBit(t55, NotBit(t67));
    Oct(s7, s6, s5, s4, s3, s2, s1, s0)
  }

  // ------------------------------------------------------------------ the field

  function XTime(b: byte): byte { (b << 1) ^ (if b & 0x80 != 0 then 0x1B else 0) }

  function Term(a: byte, on: bool): byte { if on then a else 0 }

  function GfMul(a: byte, b: byte): byte {
    var a1 := XTime(a);
    var a2 := XTime(a1);
    var a3 := XTime(a2);
    var a4 := XTime(a3);
    var a5 := XTime(a4);
    var a6 := XTime(a5);
    var a7 := XTime(a6);
    Term(a, b & 1 != 0) ^ Term(a1, b & 2 != 0) ^ Term(a2, b & 4 != 0) ^ Term(a3, b & 8 != 0)
    ^ Term(a4, b & 0x10 != 0) ^ Term(a5, b & 0x20 != 0) ^ Term(a6, b & 0x40 != 0) ^ Term(a7, b & 0x80 != 0)
  }

  function Affine(b: byte): byte {
    b ^ b.RotateLeft(1) ^ b.RotateLeft(2) ^ b.RotateLeft(3) ^ b.RotateLeft(4) ^ 0x63
  }

  function InvAffine(s: byte): byte { s.RotateLeft(1) ^ s.RotateLeft(3) ^ s.RotateLeft(6) ^ 0x05 }

  lemma AffineInverts(s: byte)
    ensures Affine(InvAffine(s)) == s
  {
  }

  /** u is the multiplicative inverse of b, with 0 taken to 0. */
  predicate IsInverse(b: byte, u: byte) {
    if b == 0 then u == 0 else GfMul(b, u) == 1
  }

  function SubByte(b: byte): byte { Pack(Circuit(Unpack(b))) }

  lemma UnaffinedIsInverse(b: byte)
    ensures IsInverse(b, InvAffine(SubByte(b)))
  {
  }

  /** The circuit computes the affine image of the multiplicative inverse, for all 256 bytes. */
  lemma SubByteIsAffineOfInverse(b: byte)
    ensures exists u :: IsInverse(b, u) && SubByte(b) == Affine(u)
  {
    hide IsInverse, SubByte, Affine, InvAffine;
    AffineInverts(SubByte(b));
    UnaffinedIsInverse(b);
  }
}
