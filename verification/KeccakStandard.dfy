/** Keccak-f[1600] of FIPS 202 on the bits A[x, y, z] of the state: one round of the code maps them as sections 3.2.1 to 3.2.5
    say, lane (x, y) is stored at 5 y + x, and there are 24 rounds. */
module KeccakStandard {
  import opened Primitives
  import opened Words
  import opened WordBits
  import opened Sponge
  import opened KeccakF

  /** Bit (x, y, z) of a state. */
  predicate A(s: State, x: nat, y: nat, z: nat)
    requires x < 5 && y < 5
  {
    Bit64(At(s, x, y), z)
  }

  /** The parity of column (x, z). */
  predicate Parity(s: State, x: nat, z: nat)
    requires x < 5
  {
    (((A(s, x, 0, z) != A(s, x, 1, z)) != A(s, x, 2, z)) != A(s, x, 3, z)) != A(s, x, 4, z)
  }

  lemma RolBit(a: word, n: word, z: nat)
    requires n < 64 && z < 64
    ensures Bit64(Rol(a, n), z) <==> Bit64(a, (z - n as int) % 64)
  {
    hide BitOf, Bit64;
    UpBit64(a, n, z);
    RolIsUp(a, n);
  }

  lemma RolIsUp(a: word, n: word)
    requires n < 64
    ensures Rol(a, n) == Up64(a, n)
  {
  }

  lemma ParityBit(s: State, x: nat, z: nat)
    requires x < 5
    ensures Bit64(InRow(Columns(s), x), z) <==> Parity(s, x, z)
  {
    hide Bit64, Columns, InRow, At, Xor;
    ColumnAt(s, x);
    var a, b, c, d, e := At(s, x, 0), At(s, x, 1), At(s, x, 2), At(s, x, 3), At(s, x, 4);
    XorBit64(a, b, z);
    XorBit64(Xor(a, b), c, z);
    XorBit64(Xor(Xor(a, b), c), d, z);
    XorBit64(Xor(Xor(Xor(a, b), c), d), e, z);
  }

  lemma ThetaBit(s: State, x: nat, y: nat, z: nat)
    requires x < 5 && y < 5 && z < 64
    ensures A(Theta(s), x, y, z) <==> (A(s, x, y, z) != Parity(s, (x + 4) % 5, z)) != Parity(s, (x + 1) % 5, (z - 1) % 64)
  {
    hide Bit64, Columns, InRow, At, Xor, Rol, Parity, Theta;
    Coordinates(x, y);
    ThetaAt(s, x, y);
    var l, r := InRow(Columns(s), Left(x)), InRow(Columns(s), Right(x));
    XorBit64(l, Rol1(r), z);
    XorBit64(At(s, x, y), Xor(l, Rol1(r)), z);
    RolBit(r, 1, z);
    ParityBit(s, Left(x), z);
    ParityBit(s, Right(x), (z - 1) % 64);
  }

  lemma RhoBit(s: State, t: nat, z: nat)
    requires t < 24 && z < 64
    ensures A(Rho(s), Walk(t).0, Walk(t).1, z) <==> A(s, Walk(t).0, Walk(t).1, (z - (t + 1) * (t + 2) / 2) % 64)
  {
    hide *;
    RhoAt(s, t);
    TriangleValue(t);
    RolBit(At(s, Walk(t).0, Walk(t).1), Triangle(t), z);
    SameShift(z, (t + 1) * (t + 2) / 2, Triangle(t) as int);
    BitA(Rho(s), Walk(t).0, Walk(t).1, z);
    BitA(s, Walk(t).0, Walk(t).1, (z - (t + 1) * (t + 2) / 2) % 64);
  }

  lemma BitA(s: State, x: nat, y: nat, z: nat)
    requires x < 5 && y < 5
    ensures A(s, x, y, z) <==> Bit64(At(s, x, y), z)
  {
  }

  lemma SameShift(z: int, n: int, m: int)
    requires m == n % 64
    ensures (z - n) % 64 == (z - m) % 64
  {
  }

  lemma RhoOrigin(s: State)
    ensures At(Rho(s), 0, 0) == At(s, 0, 0)
  {
  }

  lemma PiBit(s: State, x: nat, y: nat, z: nat)
    requires x < 5 && y < 5
    ensures A(Pi(s), x, y, z) <==> A(s, (x + 3 * y) % 5, x, z)
  {
    hide Bit64, At, Pi;
    Coordinates(x, y);
    PiAt(s, x, y);
  }

  lemma ChiBit(s: State, x: nat, y: nat, z: nat)
    requires x < 5 && y < 5
    ensures A(Chi(s), x, y, z) <==> A(s, x, y, z) != (!A(s, (x + 1) % 5, y, z) && A(s, (x + 2) % 5, y, z))
  {
    hide Bit64, At, Xor, And, Not, Chi;
    Coordinates(x, y);
    ChiAt(s, x, y);
    var a, b, c := At(s, x, y), At(s, Right(x), y), At(s, Right(Right(x)), y);
    AndNotBit64(b, c, z);
    XorBit64(a, And(Not(b), c), z);
  }

  lemma IotaBit(s: State, rc: word, x: nat, y: nat, z: nat)
    requires x < 5 && y < 5
    ensures A(Iota(s, rc), x, y, z) <==> A(s, x, y, z) != (x == 0 && y == 0 && Bit64(rc, z))
  {
    hide Bit64, Xor;
    XorBit64(s.b.a, rc, z);
  }

  // ------------------------------------------------------------------ the round and the permutation

  const Five: set<nat> := {0, 1, 2, 3, 4}

  ghost predicate ThetaOf(s: State, t: State) {
    forall x, y, z: nat | x in Five && y in Five && z < 64 ::
      A(t, x, y, z) <==> (A(s, x, y, z) != Parity(s, (x + 4) % 5, z)) != Parity(s, (x + 1) % 5, (z - 1) % 64)
  }

  /** The lane at step i of the walk over the lanes other than (0, 0). */
  ghost predicate RhoOf(s: State, t: State) {
    && (forall z: nat | z < 64 :: A(t, 0, 0, z) <==> A(s, 0, 0, z))
    && forall i: nat, z: nat | i < 24 && z < 64 ::
         A(t, Walk(i).0, Walk(i).1, z) <==> A(s, Walk(i).0, Walk(i).1, (z - (i + 1) * (i + 2) / 2) % 64)
  }

  ghost predicate PiOf(s: State, t: State) {
    forall x, y, z: nat | x in Five && y in Five && z < 64 :: A(t, x, y, z) <==> A(s, (x + 3 * y) % 5, x, z)
  }

  ghost predicate ChiOf(s: State, t: State) {
    forall x, y, z: nat | x in Five && y in Five && z < 64 ::
      A(t, x, y, z) <==> A(s, x, y, z) != (!A(s, (x + 1) % 5, y, z) && A(s, (x + 2) % 5, y, z))
  }

  ghost predicate IotaOf(s: State, rc: word, t: State) {
    forall x, y, z: nat | x in Five && y in Five && z < 64 ::
      A(t, x, y, z) <==> A(s, x, y, z) != (x == 0 && y == 0 && Bit64(rc, z))
  }

  ghost predicate RoundOf(s: State, rc: word, t: State) {
    exists a, b, c, d :: ThetaOf(s, a) && RhoOf(a, b) && PiOf(b, c) && ChiOf(c, d) && IotaOf(d, rc, t)
  }

  lemma LinearSteps(s: State)
    ensures ThetaOf(s, Theta(s)) && RhoOf(s, Rho(s)) && PiOf(s, Pi(s)) && ChiOf(s, Chi(s))
  {
    hide A, Parity, Theta, Rho, Pi, Chi, Walk;
    forall x, y, z: nat | x in Five && y in Five && z < 64
      ensures A(Theta(s), x, y, z)
              <==> (A(s, x, y, z) != Parity(s, (x + 4) % 5, z)) != Parity(s, (x + 1) % 5, (z - 1) % 64)
    {
      ThetaBit(s, x, y, z);
    }
    forall i: nat, z: nat | i < 24 && z < 64
      ensures A(Rho(s), Walk(i).0, Walk(i).1, z) <==> A(s, Walk(i).0, Walk(i).1, (z - (i + 1) * (i + 2) / 2) % 64)
    {
      RhoBit(s, i, z);
    }
    forall z: nat | z < 64 ensures A(Rho(s), 0, 0, z) <==> A(s, 0, 0, z) {
      RhoOrigin(s);
      BitA(s, 0, 0, z);
      BitA(Rho(s), 0, 0, z);
    }
    forall x, y, z: nat | x in Five && y in Five && z < 64 ensures A(Pi(s), x, y, z) <==> A(s, (x + 3 * y) % 5, x, z) {
      PiBit(s, x, y, z);
    }
    forall x, y, z: nat | x in Five && y in Five && z < 64
      ensures A(Chi(s), x, y, z) <==> A(s, x, y, z) != (!A(s, (x + 1) % 5, y, z) && A(s, (x + 2) % 5, y, z))
    {
      ChiBit(s, x, y, z);
    }
  }

  lemma IotaStep(s: State, rc: word)
    ensures IotaOf(s, rc, Iota(s, rc))
  {
    hide A, Iota;
    forall x, y, z: nat | x in Five && y in Five && z < 64
      ensures A(Iota(s, rc), x, y, z) <==> A(s, x, y, z) != (x == 0 && y == 0 && Bit64(rc, z))
    {
      IotaBit(s, rc, x, y, z);
    }
  }

  /** One round of the code is the five mappings of the standard, bit by bit. */
  lemma RoundBits(s: State, rc: word)
    ensures RoundOf(s, rc, Round(s, rc))
  {
    hide ThetaOf, RhoOf, PiOf, ChiOf, IotaOf, Theta, Rho, Pi, Chi, Iota;
    LinearSteps(s);
    LinearSteps(Theta(s));
    LinearSteps(Rho(Theta(s)));
    LinearSteps(Pi(Rho(Theta(s))));
    IotaStep(Chi(Pi(Rho(Theta(s)))), rc);
  }

  lemma FivePlaces(r: Row)
    ensures RowLanes(r)[0] == r.a && RowLanes(r)[1] == r.e && RowLanes(r)[2] == r.i && RowLanes(r)[3] == r.o && RowLanes(r)[4] == r.u
  {
  }

  lemma FiveInRow(r: Row)
    ensures InRow(r, 0) == r.a && InRow(r, 1) == r.e && InRow(r, 2) == r.i && InRow(r, 3) == r.o && InRow(r, 4) == r.u
  {
  }

  lemma RowPlace(r: Row, x: nat)
    requires x < 5
    ensures RowLanes(r)[x] == InRow(r, x)
  {
    FivePlaces(r);
    FiveInRow(r);
    hide *;
  }

  lemma RowStart(s: State, y: nat, x: nat)
    requires x < 5 && y < 5
    ensures ToLanes(s)[5 * y + x] == RowLanes(RowAt(s, y))[x]
  {
    hide RowLanes;
  }

  function RowFrom(l: Lanes, i: nat): Row
    requires i + 5 <= |l|
  {
    Row(l[i], l[i + 1], l[i + 2], l[i + 3], l[i + 4])
  }

  lemma LoadedRows(l: Lanes)
    requires |l| == 25
    ensures FromLanes(l) == State(RowFrom(l, 0), RowFrom(l, 5), RowFrom(l, 10), RowFrom(l, 15), RowFrom(l, 20))
  {
  }

  lemma InRowFrom(l: Lanes, i: nat, x: nat)
    requires i + 5 <= |l| && x < 5
    ensures InRow(RowFrom(l, i), x) == l[i + x]
  {
    FiveInRow(RowFrom(l, i));
    hide InRow;
  }

  lemma LanePlaces(l: Lanes, s: State, x: nat, y: nat)
    requires |l| == 25 && x < 5 && y < 5
    ensures At(FromLanes(l), x, y) == l[5 * y + x] && ToLanes(s)[5 * y + x] == At(s, x, y)
  {
    hide ToLanes, RowLanes, FromLanes, RowFrom, InRow;
    RowPlace(RowAt(s, y), x);
    RowStart(s, y, x);
    LoadedRows(l);
    InRowFrom(l, 5 * y, x);
  }

  /** The permutation: lane (x, y) is stored at 5 y + x, and 24 rounds of the standard lead from the first state to the last,
      with the constants of the feedback shift register. */
  lemma PermutationIsStandard(l: Lanes) returns (states: seq<State>)
    requires |l| == 25
    ensures |states| == 25 && forall n | 0 <= n < 24 :: RoundOf(states[n], Constant(Register(n)), states[n + 1])
    ensures forall x: nat, y: nat | x < 5 && y < 5 ::
              At(states[0], x, y) == l[5 * y + x] && At(states[24], x, y) == KeccakF1600(l)[5 * y + x]
  {
    hide Round, Rounds, FromLanes, ToLanes, At, RoundOf, Register, Constant, RoundConstant;
    var s := FromLanes(l);
    states := seq(25, n requires 0 <= n < 25 => Rounds(s, n));
    forall n | 0 <= n < 24 ensures RoundOf(states[n], Constant(Register(n)), states[n + 1]) {
      RoundBits(Rounds(s, n), RoundConstant(n));
      ConstantsGenerated(n);
      NextRound(s, n);
    }
    NoRounds(s);
    forall x: nat, y: nat | x < 5 && y < 5
      ensures At(states[0], x, y) == l[5 * y + x] && At(states[24], x, y) == KeccakF1600(l)[5 * y + x]
    {
      LanePlaces(l, states[24], x, y);
    }
  }

  lemma NextRound(s: State, n: nat)
    requires n < 24
    ensures Rounds(s, n + 1) == Round(Rounds(s, n), RoundConstant(n))
  {
  }
}
