/** Keccak-f[1600] as fips202.c unrolls it, against the five step mappings of FIPS 202, sections 3.2 and 3.3.
    The C names lane (x, y) by a consonant for y and a vowel for x, and stores it at index 5 y + x. */
module KeccakF {
  import opened Primitives
  import opened Words
  import opened Sponge
  import opened SpongeContext
  import opened SpongeStandard

  datatype Row = Row(a: word, e: word, i: word, o: word, u: word)

  datatype State = State(b: Row, g: Row, k: Row, m: Row, s: Row)

  function Rol(a: word, n: word): word
    requires n < 64
  {
    (a << n) ^ (a >> (64 - n))
  }

  function Rol1(a: word): word { Rol(a, 1) }

  function InRow(r: Row, x: nat): word
    requires x < 5
  {
    match x case 0 => r.a case 1 => r.e case 2 => r.i case 3 => r.o case _ => r.u
  }

  function RowAt(s: State, y: nat): Row
    requires y < 5
  {
    match y case 0 => s.b case 1 => s.g case 2 => s.k case 3 => s.m case _ => s.s
  }

  function At(s: State, x: nat, y: nat): word
    requires x < 5 && y < 5
  {
    InRow(RowAt(s, y), x)
  }

  // ------------------------------------------------------------------ the step mappings

  function Xor5(a: word, b: word, c: word, d: word, e: word): word { Xor(Xor(Xor(Xor(a, b), c), d), e) }

  /** The parity of column x. */
  function Columns(s: State): Row {
    Row(Xor5(s.b.a, s.g.a, s.k.a, s.m.a, s.s.a), Xor5(s.b.e, s.g.e, s.k.e, s.m.e, s.s.e),
        Xor5(s.b.i, s.g.i, s.k.i, s.m.i, s.s.i), Xor5(s.b.o, s.g.o, s.k.o, s.m.o, s.s.o),
        Xor5(s.b.u, s.g.u, s.k.u, s.m.u, s.s.u))
  }

  function Effects(c: Row): Row {
    Row(Xor(c.u, Rol1(c.e)), Xor(c.a, Rol1(c.i)), Xor(c.e, Rol1(c.o)), Xor(c.i, Rol1(c.u)), Xor(c.o, Rol1(c.a)))
  }

  function XorRow(r: Row, d: Row): Row { Row(Xor(r.a, d.a), Xor(r.e, d.e), Xor(r.i, d.i), Xor(r.o, d.o), Xor(r.u, d.u)) }

  function Theta(s: State): State {
    var d := Effects(Columns(s));
    State(XorRow(s.b, d), XorRow(s.g, d), XorRow(s.k, d), XorRow(s.m, d), XorRow(s.s, d))
  }

  function Rho(s: State): State {
    State(Row(s.b.a, Rol(s.b.e, 1), Rol(s.b.i, 62), Rol(s.b.o, 28), Rol(s.b.u, 27)),
          Row(Rol(s.g.a, 36), Rol(s.g.e, 44), Rol(s.g.i, 6), Rol(s.g.o, 55), Rol(s.g.u, 20)),
          Row(Rol(s.k.a, 3), Rol(s.k.e, 10), Rol(s.k.i, 43), Rol(s.k.o, 25), Rol(s.k.u, 39)),
          Row(Rol(s.m.a, 41), Rol(s.m.e, 45), Rol(s.m.i, 15), Rol(s.m.o, 21), Rol(s.m.u, 8)),
          Row(Rol(s.s.a, 18), Rol(s.s.e, 2), Rol(s.s.i, 61), Rol(s.s.o, 56), Rol(s.s.u, 14)))
  }

  function Pi(s: State): State {
    State(Row(s.b.a, s.g.e, s.k.i, s.m.o, s.s.u),
          Row(s.b.o, s.g.u, s.k.a, s.m.e, s.s.i),
          Row(s.b.e, s.g.i, s.k.o, s.m.u, s.s.a),
          Row(s.b.u, s.g.a, s.k.e, s.m.i, s.s.o),
          Row(s.b.i, s.g.o, s.k.u, s.m.a, s.s.e))
  }

  function ChiRow(r: Row): Row {
    Row(Xor(r.a, And(Not(r.e), r.i)), Xor(r.e, And(Not(r.i), r.o)), Xor(r.i, And(Not(r.o), r.u)),
        Xor(r.o, And(Not(r.u), r.a)), Xor(r.u, And(Not(r.a), r.e)))
  }

  function Chi(s: State): State { State(ChiRow(s.b), ChiRow(s.g), ChiRow(s.k), ChiRow(s.m), ChiRow(s.s)) }

  function Iota(s: State, rc: word): State { s.(b := s.b.(a := Xor(s.b.a, rc))) }

  function Round(s: State, rc: word): State { Iota(Chi(Pi(Rho(Theta(s)))), rc) }

  const RC: seq<word> := [
    0x0000000000000001, 0x0000000000008082, 0x800000000000808a, 0x8000000080008000,
    0x000000000000808b, 0x0000000080000001, 0x8000000080008081, 0x8000000000008009,
    0x000000000000008a, 0x0000000000000088, 0x0000000080008009, 0x000000008000000a,
    0x000000008000808b, 0x800000000000008b, 0x8000000000008089, 0x8000000000008003,
    0x8000000000008002, 0x8000000000000080, 0x000000000000800a, 0x800000008000000a,
    0x8000000080008081, 0x8000000000008080, 0x0000000080000001, 0x8000000080008008]

  function RoundConstant(n: nat): word
    requires n < 24
  {
    RC[n]
  }

  /** The first n rounds. */
  function Rounds(s: State, n: nat): State
    requires n <= 24
  {
    if n == 0 then s else Round(Rounds(s, n - 1), RoundConstant(n - 1))
  }

  // ------------------------------------------------------------------ in the coordinates of the standard

  /** The next coordinate, wrapping from 4 to 0. */
  function Right(x: nat): (r: nat)
    requires x < 5
    ensures r < 5
  {
    if x == 4 then 0 else x + 1
  }

  function Left(x: nat): (r: nat)
    requires x < 5
    ensures r < 5
  {
    if x == 0 then 4 else x - 1
  }

  /** x + 3 y modulo 5. */
  function Skew(x: nat, y: nat): (r: nat)
    requires x < 5 && y < 5
    ensures r < 5
  {
    match y
    case 0 => x
    case 1 => if x < 2 then x + 3 else x - 2
    case 2 => if x < 4 then x + 1 else x - 4
    case 3 => if x < 1 then x + 4 else x - 1
    case _ => if x < 3 then x + 2 else x - 3
  }

  lemma Coordinates(x: nat, y: nat)
    requires x < 5 && y < 5
    ensures Right(x) == (x + 1) % 5 && Left(x) == (x + 4) % 5 && Right(Right(x)) == (x + 2) % 5 && Skew(x, y) == (x + 3 * y) % 5
  {
  }

  lemma ThetaAt(s: State, x: nat, y: nat)
    requires x < 5 && y < 5
    ensures At(Theta(s), x, y)
         == Xor(At(s, x, y), Xor(InRow(Columns(s), Left(x)), Rol1(InRow(Columns(s), Right(x)))))
  {
    hide XorRow, Columns, InRow, Effects;
    XorRowAt(RowAt(s, y), Effects(Columns(s)), x);
    EffectAt(Columns(s), x);
  }

  lemma XorRowAt(r: Row, d: Row, x: nat)
    requires x < 5
    ensures InRow(XorRow(r, d), x) == Xor(InRow(r, x), InRow(d, x))
  {
    hide Xor;
  }

  lemma EffectFrom(c: Row, x: nat, n: nat, p: nat)
    requires x < 5 && n == (if x == 4 then 0 else x + 1) && p == (if x == 0 then 4 else x - 1)
    ensures InRow(Effects(c), x) == Xor(InRow(c, p), Rol1(InRow(c, n)))
  {
    hide Xor, Rol1;
  }

  lemma EffectAt(c: Row, x: nat)
    requires x < 5
    ensures InRow(Effects(c), x) == Xor(InRow(c, Left(x)), Rol1(InRow(c, Right(x))))
  {
    hide Xor, Rol1, InRow, Effects;
    EffectFrom(c, x, Right(x), Left(x));
  }

  lemma ColumnAt(s: State, x: nat)
    requires x < 5
    ensures InRow(Columns(s), x) == Xor5(At(s, x, 0), At(s, x, 1), At(s, x, 2), At(s, x, 3), At(s, x, 4))
  {
    hide Xor5;
  }

  lemma PiFrom(s: State, x: nat, y: nat, n: nat)
    requires x < 5 && y < 5
    requires n == match y case 0 => x
                  case 1 => if x < 2 then x + 3 else x - 2
                  case 2 => if x < 4 then x + 1 else x - 4
                  case 3 => if x < 1 then x + 4 else x - 1
                  case _ => if x < 3 then x + 2 else x - 3
    ensures n < 5 && At(Pi(s), x, y) == At(s, n, x)
  {
  }

  /** Lane (x, y) comes from lane (x + 3 y, x). */
  lemma PiAt(s: State, x: nat, y: nat)
    requires x < 5 && y < 5
    ensures At(Pi(s), x, y) == At(s, Skew(x, y), x)
  {
    hide At, Pi;
    PiFrom(s, x, y, Skew(x, y));
  }

  lemma ChiAt(s: State, x: nat, y: nat)
    requires x < 5 && y < 5
    ensures At(Chi(s), x, y) == Xor(At(s, x, y), And(Not(At(s, Right(x), y)), At(s, Right(Right(x)), y)))
  {
    hide ChiRow, InRow;
    ChiRowAt(RowAt(s, y), x);
  }

  lemma ChiRowFrom(r: Row, x: nat, n: nat, p: nat)
    requires x < 5 && n == (if x == 4 then 0 else x + 1) && p == (if x >= 3 then x - 3 else x + 2)
    ensures InRow(ChiRow(r), x) == Xor(InRow(r, x), And(Not(InRow(r, n)), InRow(r, p)))
  {
    hide Xor, And, Not;
  }

  lemma ChiRowAt(r: Row, x: nat)
    requires x < 5
    ensures InRow(ChiRow(r), x) == Xor(InRow(r, x), And(Not(InRow(r, Right(x))), InRow(r, Right(Right(x)))))
  {
    hide Xor, And, Not, InRow, ChiRow;
    ChiRowFrom(r, x, Right(x), Right(Right(x)));
  }

  /** The lane visited at step t of rho's walk, which starts at (1, 0). */
  function Walk(t: nat): (p: (nat, nat))
    ensures p.0 < 5 && p.1 < 5
  {
    if t == 0 then (1, 0) else var (x, y) := Walk(t - 1); (y, (2 * x + 3 * y) % 5)
  }

  lemma WalkTable()
    ensures Walk(0) == (1, 0) && Walk(1) == (0, 2) && Walk(2) == (2, 1) && Walk(3) == (1, 2)
    ensures Walk(4) == (2, 3) && Walk(5) == (3, 3) && Walk(6) == (3, 0) && Walk(7) == (0, 1)
    ensures Walk(8) == (1, 3) && Walk(9) == (3, 1) && Walk(10) == (1, 4) && Walk(11) == (4, 4)
    ensures Walk(12) == (4, 0) && Walk(13) == (0, 3) && Walk(14) == (3, 4) && Walk(15) == (4, 3)
    ensures Walk(16) == (3, 2) && Walk(17) == (2, 2) && Walk(18) == (2, 0) && Walk(19) == (0, 4)
    ensures Walk(20) == (4, 2) && Walk(21) == (2, 4) && Walk(22) == (4, 1) && Walk(23) == (1, 1)
  {
    assert Walk(0) == (1, 0);
    assert Walk(1) == (0, 2);
    assert Walk(2) == (2, 1);
    assert Walk(3) == (1, 2);
    assert Walk(4) == (2, 3);
    assert Walk(5) == (3, 3);
    assert Walk(6) == (3, 0);
    assert Walk(7) == (0, 1);
    assert Walk(8) == (1, 3);
    assert Walk(9) == (3, 1);
    assert Walk(10) == (1, 4);
    assert Walk(11) == (4, 4);
    assert Walk(12) == (4, 0);
    assert Walk(13) == (0, 3);
    assert Walk(14) == (3, 4);
    assert Walk(15) == (4, 3);
    assert Walk(16) == (3, 2);
    assert Walk(17) == (2, 2);
    assert Walk(18) == (2, 0);
    assert Walk(19) == (0, 4);
    assert Walk(20) == (4, 2);
    assert Walk(21) == (2, 4);
    assert Walk(22) == (4, 1);
    assert Walk(23) == (1, 1);
  }

  /** Step t of the walk rotates by this. */
  function Triangle(t: nat): (n: word)
    requires t < 24
    ensures n < 64
  {
    match t
    case 0 => 1
    case 1 => 3
    case 2 => 6
    case 3 => 10
    case 4 => 15
    case 5 => 21
    case 6 => 28
    case 7 => 36
    case 8 => 45
    case 9 => 55
    case 10 => 2
    case 11 => 14
    case 12 => 27
    case 13 => 41
    case 14 => 56
    case 15 => 8
    case 16 => 25
    case 17 => 43
    case 18 => 62
    case 19 => 18
    case 20 => 39
    case 21 => 61
    case 22 => 20
    case _ => 44
  }

  lemma TriangleLow(t: nat)
    requires 0 <= t < 8
    ensures Triangle(t) as int == (t + 1) * (t + 2) / 2 % 64
  {
  }

  lemma TriangleMiddle(t: nat)
    requires 8 <= t < 16
    ensures Triangle(t) as int == (t + 1) * (t + 2) / 2 % 64
  {
  }

  lemma TriangleHigh(t: nat)
    requires 16 <= t < 24
    ensures Triangle(t) as int == (t + 1) * (t + 2) / 2 % 64
  {
  }

  /** (t + 1)(t + 2) / 2 modulo 64, as the standard has it. */
  lemma TriangleValue(t: nat)
    requires t < 24
    ensures Triangle(t) as int == (t + 1) * (t + 2) / 2 % 64
  {
    hide Triangle;
    if t < 8 {
      TriangleLow(t);
    } else if t < 16 {
      TriangleMiddle(t);
    } else {
      TriangleHigh(t);
    }
  }

  lemma RhoAt(s: State, t: nat)
    requires t < 24
    ensures At(Rho(s), Walk(t).0, Walk(t).1) == Rol(At(s, Walk(t).0, Walk(t).1), Triangle(t))
  {
    hide Rol, Walk;
    WalkTable();
  }

  // ------------------------------------------------------------------ round constants

  /** One step of the feedback shift register of section 3.2.5. */
  function Shift(b: byte): byte { (b << 1) ^ (if b & 0x80 != 0 then 0x71 else 0) }

  function Shift7(b: byte): byte { Shift(Shift(Shift(Shift(Shift(Shift(Shift(b))))))) }

  /** The register after 7 n steps. */
  function Register(n: nat): byte {
    if n == 0 then 1 else Shift7(Register(n - 1))
  }

  /** Seven output bits at positions 2^j - 1. */
  function Constant(b: byte): word {
    var c1 := Shift(b);
    var c2 := Shift(c1);
    var c3 := Shift(c2);
    var c4 := Shift(c3);
    var c5 := Shift(c4);
    var c6 := Shift(c5);
    ((b & 1) as word) | (((c1 & 1) as word) << 1) | (((c2 & 1) as word) << 3) | (((c3 & 1) as word) << 7)
    | (((c4 & 1) as word) << 15) | (((c5 & 1) as word) << 31) | (((c6 & 1) as word) << 63)
  }

  lemma FirstConstants(n: nat)
    requires 0 <= n < 6
    ensures RoundConstant(n) == Constant(Register(n))
  {
    RegisterTable();
    hide Register;
  }

  lemma SecondConstants(n: nat)
    requires 6 <= n < 12
    ensures RoundConstant(n) == Constant(Register(n))
  {
    RegisterTable();
    hide Register;
  }

  lemma ThirdConstants(n: nat)
    requires 12 <= n < 18
    ensures RoundConstant(n) == Constant(Register(n))
  {
    RegisterTable();
    hide Register;
  }

  lemma FourthConstants(n: nat)
    requires 18 <= n < 24
    ensures RoundConstant(n) == Constant(Register(n))
  {
    RegisterTable();
    hide Register;
  }

  /** The table of round constants is the one the shift register generates. */
  lemma ConstantsGenerated(n: nat)
    requires n < 24
    ensures RoundConstant(n) == Constant(Register(n))
  {
    hide Register, Constant, RoundConstant;
    if n < 6 {
      FirstConstants(n);
    } else if n < 12 {
      SecondConstants(n);
    } else if n < 18 {
      ThirdConstants(n);
    } else {
      FourthConstants(n);
    }
  }

  lemma RegisterTable()
    ensures Register(0) == 0x01 && Register(1) == 0x80 && Register(2) == 0xD8 && Register(3) == 0x1A
    ensures Register(4) == 0xDF && Register(5) == 0x09 && Register(6) == 0x35 && Register(7) == 0x4F
    ensures Register(8) == 0xCA && Register(9) == 0x70 && Register(10) == 0x41 && Register(11) == 0xEC
    ensures Register(12) == 0xD5 && Register(13) == 0xCD && Register(14) == 0x63 && Register(15) == 0xAB
    ensures Register(16) == 0xAA && Register(17) == 0x2A && Register(18) == 0xF2 && Register(19) == 0xE8
    ensures Register(20) == 0x37 && Register(21) == 0x3E && Register(22) == 0x0B && Register(23) == 0x44
  {
    NextRegister(0, 0x01, 0x80);
    NextRegister(1, 0x80, 0xD8);
    NextRegister(2, 0xD8, 0x1A);
    NextRegister(3, 0x1A, 0xDF);
    NextRegister(4, 0xDF, 0x09);
    NextRegister(5, 0x09, 0x35);
    NextRegister(6, 0x35, 0x4F);
    NextRegister(7, 0x4F, 0xCA);
    NextRegister(8, 0xCA, 0x70);
    NextRegister(9, 0x70, 0x41);
    NextRegister(10, 0x41, 0xEC);
    NextRegister(11, 0xEC, 0xD5);
    NextRegister(12, 0xD5, 0xCD);
    NextRegister(13, 0xCD, 0x63);
    NextRegister(14, 0x63, 0xAB);
    NextRegister(15, 0xAB, 0xAA);
    NextRegister(16, 0xAA, 0x2A);
    NextRegister(17, 0x2A, 0xF2);
    NextRegister(18, 0xF2, 0xE8);
    NextRegister(19, 0xE8, 0x37);
    NextRegister(20, 0x37, 0x3E);
    NextRegister(21, 0x3E, 0x0B);
    NextRegister(22, 0x0B, 0x44);
  }

  lemma NextRegister(n: nat, b: byte, c: byte)
    requires Register(n) == b && Shift7(b) == c
    ensures Register(n + 1) == c
  {
  }

  // ------------------------------------------------------------------ the unrolled code

  /** The unrolled round: theta's column effects, then each output row from five rotated lanes. */
  method ThetaRhoPiChiIota(a: State, rc: word) returns (e: State)
    ensures e == Round(a, rc)
  {
    hide Rol, Xor, And, Not;
    var aba, abe, abi, abo, abu := a.b.a, a.b.e, a.b.i, a.b.o, a.b.u;
    var aga, age, agi, ago, agu := a.g.a, a.g.e, a.g.i, a.g.o, a.g.u;
    var aka, ake, aki, ako, aku := a.k.a, a.k.e, a.k.i, a.k.o, a.k.u;
    var ama, ame, ami, amo, amu := a.m.a, a.m.e, a.m.i, a.m.o, a.m.u;
    var asa, ase, asi, aso, asu := a.s.a, a.s.e, a.s.i, a.s.o, a.s.u;
    var bca := Xor(Xor(Xor(Xor(aba, aga), aka), ama), asa);
    var bce := Xor(Xor(Xor(Xor(abe, age), ake), ame), ase);
    var bci := Xor(Xor(Xor(Xor(abi, agi), aki), ami), asi);
    var bco := Xor(Xor(Xor(Xor(abo, ago), ako), amo), aso);
    var bcu := Xor(Xor(Xor(Xor(abu, agu), aku), amu), asu);
    var da := Xor(bcu, Rol(bce, 1));
    var de := Xor(bca, Rol(bci, 1));
    var di := Xor(bce, Rol(bco, 1));
    var do := Xor(bci, Rol(bcu, 1));
    var du := Xor(bco, Rol(bca, 1));
    aba := Xor(aba, da);
    bca := aba;
    age := Xor(age, de);
    bce := Rol(age, 44);
    aki := Xor(aki, di);
    bci := Rol(aki, 43);
    amo := Xor(amo, do);
    bco := Rol(amo, 21);
    asu := Xor(asu, du);
    bcu := Rol(asu, 14);
    var eba := Xor(bca, And(Not(bce), bci));
    eba := Xor(eba, rc);
    var ebe := Xor(bce, And(Not(bci), bco));
    var ebi := Xor(bci, And(Not(bco), bcu));
    var ebo := Xor(bco, And(Not(bcu), bca));
    var ebu := Xor(bcu, And(Not(bca), bce));
    abo := Xor(abo, do);
    bca := Rol(abo, 28);
    agu := Xor(agu, du);
    bce := Rol(agu, 20);
    aka := Xor(aka, da);
    bci := Rol(aka, 3);
    ame := Xor(ame, de);
    bco := Rol(ame, 45);
    asi := Xor(asi, di);
    bcu := Rol(asi, 61);
    var ega := Xor(bca, And(Not(bce), bci));
    var ege := Xor(bce, And(Not(bci), bco));
    var egi := Xor(bci, And(Not(bco), bcu));
    var ego := Xor(bco, And(Not(bcu), bca));
    var egu := Xor(bcu, And(Not(bca), bce));
    abe := Xor(abe, de);
    bca := Rol(abe, 1);
    agi := Xor(agi, di);
    bce := Rol(agi, 6);
    ako := Xor(ako, do);
    bci := Rol(ako, 25);
    amu := Xor(amu, du);
    bco := Rol(amu, 8);
    asa := Xor(asa, da);
    bcu := Rol(asa, 18);
    var eka := Xor(bca, And(Not(bce), bci));
    var eke := Xor(bce, And(Not(bci), bco));
    var eki := Xor(bci, And(Not(bco), bcu));
    var eko := Xor(bco, And(Not(bcu), bca));
    var eku := Xor(bcu, And(Not(bca), bce));
    abu := Xor(abu, du);
    bca := Rol(abu, 27);
    aga := Xor(aga, da);
    bce := Rol(aga, 36);
    ake := Xor(ake, de);
    bci := Rol(ake, 10);
    ami := Xor(ami, di);
    bco := Rol(ami, 15);
    aso := Xor(aso, do);
    bcu := Rol(aso, 56);
    var ema := Xor(bca, And(Not(bce), bci));
    var eme := Xor(bce, And(Not(bci), bco));
    var emi := Xor(bci, And(Not(bco), bcu));
    var emo := Xor(bco, And(Not(bcu), bca));
    var emu := Xor(bcu, And(Not(bca), bce));
    abi := Xor(abi, di);
    bca := Rol(abi, 62);
    ago := Xor(ago, do);
    bce := Rol(ago, 55);
    aku := Xor(aku, du);
    bci := Rol(aku, 39);
    ama := Xor(ama, da);
    bco := Rol(ama, 41);
    ase := Xor(ase, de);
    bcu := Rol(ase, 2);
    var esa := Xor(bca, And(Not(bce), bci));
    var ese := Xor(bce, And(Not(bci), bco));
    var esi := Xor(bci, And(Not(bco), bcu));
    var eso := Xor(bco, And(Not(bcu), bca));
    var esu := Xor(bcu, And(Not(bca), bce));
    e := State(Row(eba, ebe, ebi, ebo, ebu),
          Row(ega, ege, egi, ego, egu),
          Row(eka, eke, eki, eko, eku),
          Row(ema, eme, emi, emo, emu),
          Row(esa, ese, esi, eso, esu));
  }

  // ------------------------------------------------------------------ the permutation

  function FromLanes(s: Lanes): State
    requires |s| == 25
  {
    State(Row(s[0], s[1], s[2], s[3], s[4]), Row(s[5], s[6], s[7], s[8], s[9]), Row(s[10], s[11], s[12], s[13], s[14]),
          Row(s[15], s[16], s[17], s[18], s[19]), Row(s[20], s[21], s[22], s[23], s[24]))
  }

  function RowLanes(r: Row): (s: Lanes)
    ensures |s| == 5
  {
    [r.a, r.e, r.i, r.o, r.u]
  }

  function ToLanes(s: State): (l: Lanes)
    ensures |l| == 25
  {
    RowLanes(s.b) + RowLanes(s.g) + RowLanes(s.k) + RowLanes(s.m) + RowLanes(s.s)
  }

  /** The permutation of 25 lanes that the sponge is run over. */
  function KeccakF1600(s: Lanes): (t: Lanes)
    ensures |s| == 25 ==> |t| == 25
  {
    if |s| == 25 then ToLanes(Rounds(FromLanes(s), 24)) else s
  }

  lemma KeccakKeepsSize()
    ensures KeepsSize(KeccakF1600)
  {
  }

  lemma NoRounds(s: State)
    ensures Rounds(s, 0) == s
  {
  }

  lemma TwoRounds(s: State, n: nat)
    requires n + 2 <= 24
    ensures Rounds(s, n + 2) == Round(Round(Rounds(s, n), RoundConstant(n)), RoundConstant(n + 1))
  {
    hide Round, RoundConstant;
    assert Rounds(s, n + 2) == Round(Rounds(s, n + 1), RoundConstant(n + 1));
  }

  /** Two rounds an iteration, from A to E and back. */
  method RoundPairs(start: State) returns (a: State)
    ensures a == Rounds(start, 24)
  {
    hide Round, Rounds, RoundConstant;
    a := start;
    assert Rounds(start, 0) == start by { NoRounds(start); }
    var round := 0;
    while round < 24
      invariant 0 <= round <= 24 && round % 2 == 0 && a == Rounds(start, round)
    {
      var e := ThetaRhoPiChiIota(a, RoundConstant(round));
      TwoRounds(start, round);
      a := ThetaRhoPiChiIota(e, RoundConstant(round + 1));
      round := round + 2;
    }
  }

  method StatePermute(state: array<word>)
    requires state.Length == 25
    modifies state
    ensures state[..] == KeccakF1600(old(state[..]))
  {
    hide Rounds, Round, FromLanes, ToLanes;
    var a := FromLanes(state[..]);
    var b := RoundPairs(a);
    var out := ToLanes(b);
    forall i | 0 <= i < 25 { state[i] := out[i]; }
    assert state[..] == out;
  }

  /** SHAKE128 (rate 168) and SHAKE256 (rate 136) over this permutation. */
  method KeccakShake(r: nat, m: Bytes, outlen: nat) returns (out: Bytes)
    requires r == 168 || r == 136
    ensures out == Xof(KeccakF1600, r, 0x1F, m, outlen)
    ensures |out| == outlen && IsOutput(KeccakF1600, r, 0x1F, m, out)
  {
    hide Xof, KeccakF1600, IsOutput;
    KeccakKeepsSize();
    XofIsOutput(KeccakF1600, r, 0x1F, m, outlen);
    out := Shake(KeccakF1600, r, m, outlen);
  }
}
