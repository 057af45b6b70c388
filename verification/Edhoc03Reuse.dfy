/** A responder context of methods 0 to 3 that is handed a second message_1 without being initialised again.  When that
    call fails, what the context still accepts depends on where it failed; this is why the server module initialises the
    context before every message_1. */
module Edhoc03Reuse {
  import opened Primitives
  import opened Hkdf
  import opened Edhoc03
  import opened Edhoc03Runs
  import HonestWorld03

  /** The context left over accepts msg3 under another method than the one msg3 was made for. */
  predicate AcceptsUnderOther(S: Suite, c: Ctx, left: Ctx, msg3: Bytes) {
    HandleMsg3(S, left, msg3).rc == OK && left.meth != c.meth
  }

  /** Where the key agreement fails, with the ephemeral or with the static key, the context has the method, modes and
      ephemeral keys of the second conversation and TH3 and PRK3e2m of the first. */
  lemma {:induction false} KeyAgreementFails(S: Suite, c: Ctx, msg: Bytes, rnd: Bytes, cap: nat)
    requires c.role == 0 && HandleMsg1(S, c, msg, rnd, cap).rc == ERR_DH
    ensures |msg| == MSG1_LEN
    ensures var d := HandleMsg1(S, c, msg, rnd, cap).ctx;
            && d.meth == msg[0] && d.peerAuth == InitAuth(msg[0]) && d.ephSk == rnd && d.role == c.role
            && d.peer == c.peer && d.th3 == c.th3 && d.prk3e2m == c.prk3e2m && d.prk4e3m == c.prk4e3m
            && d.peerIdCred == c.peerIdCred
  {
    hide Mac, SigMessage, Extract, Th2, ThNext, Seal, InitAuth, RespAuth;
  }

  /** In signature mode the old message_3 is then still accepted, with the same keys, under the new method. */
  lemma {:induction false} FailedMsg1WithoutInitKeepsOldKeys(S: Suite, c: Ctx, msg: Bytes, rnd: Bytes, cap: nat, msg3: Bytes)
    requires c.role == 0 && c.peerAuth == Sig && HandleMsg3(S, c, msg3).rc == OK
    requires HandleMsg1(S, c, msg, rnd, cap).rc == ERR_DH && InitAuth(msg[0]) == Sig
    ensures var d := HandleMsg1(S, c, msg, rnd, cap).ctx;
            var old3, new3 := HandleMsg3(S, c, msg3), HandleMsg3(S, d, msg3);
            && new3.rc == OK && new3.ctx.msk == old3.ctx.msk && new3.ctx.emsk == old3.ctx.emsk
            && new3.ctx.th4 == old3.ctx.th4 && new3.ctx.peerIdCred == old3.ctx.peerIdCred && new3.ctx.meth == msg[0]
  {
    KeyAgreementFails(S, c, msg, rnd, cap);
    hide Expand, Mac, HandleMsg1, Open, ThNext;
  }

  /** Two modes differ in the length of the plaintext they accept. */
  lemma {:induction false} ModesExclude(S: Suite, a: Auth, b: Auth, prk: Bytes, th: Bytes, peer: Peer, sk: Bytes, sk': Bytes,
                                        pt: Bytes, id: Bytes, prk0: Bytes)
    requires a != b && CheckAuth(S, a, prk, th, peer, sk, pt, id, prk0).rc == OK
    ensures CheckAuth(S, b, prk, th, peer, sk', pt, id, prk0).rc != OK
  {
    hide Mac, SigMessage, Extract;
  }

  /** The static-mode MAC in msg3 is right also for the ephemeral secret sk. */
  predicate MacAlsoRight(S: Suite, c: Ctx, sk: Bytes, msg3: Bytes) {
    var pt3 := Open(S, c.prk3e2m, c.th3, msg3);
    && pt3.Some? && |pt3.value| == STAT_LEN && pt3.value[3..35] == c.peer.dhPk
    && var g := S.dh(sk, pt3.value[3..35]);
    g.Some? && Mac(S, Extract(S, c.prk3e2m, g.value), c.th3, pt3.value[..3], pt3.value[3..35]) == pt3.value[35..]
  }

  /** After a failed key agreement, without any assumption: the old message_3 is accepted under another method exactly when
      the methods differ and either both initiators sign, or both are static and the MAC happens to be right for the new
      ephemeral secret too. */
  lemma {:induction false} AfterKeyAgreementExactly(S: Suite, c: Ctx, msg: Bytes, rnd: Bytes, cap: nat, msg3: Bytes)
    requires c.role == 0 && HandleMsg3(S, c, msg3).rc == OK && HandleMsg1(S, c, msg, rnd, cap).rc == ERR_DH
    ensures |msg| == MSG1_LEN
    ensures AcceptsUnderOther(S, c, HandleMsg1(S, c, msg, rnd, cap).ctx, msg3)
            <==> msg[0] != c.meth && c.peerAuth == InitAuth(msg[0]) && (c.peerAuth == Sig || MacAlsoRight(S, c, rnd, msg3))
  {
    var d := HandleMsg1(S, c, msg, rnd, cap).ctx;
    KeyAgreementFails(S, c, msg, rnd, cap);
    var pt3 := Open(S, c.prk3e2m, c.th3, msg3).value;
    if c.peerAuth != d.peerAuth {
      ModesExclude(S, c.peerAuth, d.peerAuth, c.prk3e2m, c.th3, c.peer, c.ephSk, rnd, pt3, c.peerIdCred, c.prk4e3m);
    } else if c.peerAuth == Sig {
      FailedMsg1WithoutInitKeepsOldKeys(S, c, msg, rnd, cap, msg3);
    }
    hide HandleMsg1, Mac, SigMessage, Extract, Open, ThNext, DeriveMsk, InitAuth;
  }

  /** No acceptance by accident: where the second call got as far as new keys, msg3 does not open under them; and in static
      mode its MAC is not right for the new ephemeral secret as well. */
  ghost predicate ForeignKeysReject(S: Suite, c: Ctx, m: Result, msg3: Bytes) {
    && (m.rc in {OK, ERR_SIG, ERR_AEAD, ERR_BUF} ==> Open(S, m.ctx.prk3e2m, m.ctx.th3, msg3).None?)
    && (m.rc == ERR_DH && c.peerAuth == Stat ==> !MacAlsoRight(S, c, m.ctx.ephSk, msg3))
  }

  lemma {:induction false} Codes(S: Suite, c: Ctx, msg: Bytes, rnd: Bytes, cap: nat)
    requires c.role == 0
    ensures var m := HandleMsg1(S, c, msg, rnd, cap);
            m.rc in {OK, ERR_PARSE, ERR_DH, ERR_SIG, ERR_AEAD, ERR_BUF} && (m.rc == ERR_PARSE ==> m.ctx == c)
  {
    hide Mac, SigMessage, Extract, Th2, ThNext, Seal, InitAuth, RespAuth;
  }

  /** Exactly when reuse fails: for every responder context that accepts msg3 and every second message_1, whatever its
      outcome, the context left over accepts msg3 under another method if and only if the key agreement failed, both
      conversations have a signing initiator and the methods differ. */
  lemma {:induction false} ReuseExactly(S: Suite, c: Ctx, msg: Bytes, rnd: Bytes, cap: nat, msg3: Bytes)
    requires c.role == 0 && HandleMsg3(S, c, msg3).rc == OK
    requires ForeignKeysReject(S, c, HandleMsg1(S, c, msg, rnd, cap), msg3)
    ensures var m := HandleMsg1(S, c, msg, rnd, cap);
            AcceptsUnderOther(S, c, m.ctx, msg3)
            <==> m.rc == ERR_DH && c.peerAuth == Sig && |msg| > 0 && InitAuth(msg[0]) == Sig && msg[0] != c.meth
  {
    var m := HandleMsg1(S, c, msg, rnd, cap);
    Codes(S, c, msg, rnd, cap);
    if m.rc == ERR_DH {
      KeyAgreementFails(S, c, msg, rnd, cap);
      AfterKeyAgreementExactly(S, c, msg, rnd, cap, msg3);
    }
    hide HandleMsg1, MacAlsoRight, Open, CheckAuth, DeriveMsk, InitAuth;
  }

  /** It does fail: c and msg3 come from an honest exchange of method 0; msg is a message_1 of method 1 whose G_X is of low
      order; the responder that is not initialised again accepts msg3 under method 1. */
  lemma {:induction false} ReuseWitness() returns (S: Suite, ini: Creds, x: Bytes, c: Ctx, msg: Bytes, msg3: Bytes)
    ensures Lawful(S) && WellFormed(S, ini) && msg == [1] + LOW_POINT + [0x10]
    ensures var e := HonestExchange(S, 0, ini, ini, x, x, 147); Succeeds(e) && c == e.m2.ctx && msg3 == e.m3.out
    ensures c.role == 0 && c.meth == 0 && HandleMsg3(S, c, msg3).rc == OK && HandleMsg1(S, c, msg, x, 147).rc == ERR_DH
    ensures var m := HandleMsg1(S, c, msg, x, 147); ForeignKeysReject(S, c, m, msg3) && AcceptsUnderOther(S, c, m.ctx, msg3)
  {
    hide *;
    S, ini, x := PlainSuite(), HonestWorld03.PlainCreds(), Zeros(32);
    PlainSuiteIsLawful();
    PlainSignsAndSeals(S, ini.sigSk);
    SignedRun(S, ini, x);
    var e := HonestExchange(S, 0, ini, ini, x, x, 147);
    c, msg, msg3 := e.m2.ctx, [1] + LOW_POINT + [0x10], e.m3.out;
    LowPointRefused(S, c, msg, x);
    SignedReuse(S, c, msg, x, msg3);
  }

  lemma {:induction false} SignedReuse(S: Suite, c: Ctx, msg: Bytes, rnd: Bytes, msg3: Bytes)
    requires c.role == 0 && c.meth == 0 && c.peerAuth == Sig && HandleMsg3(S, c, msg3).rc == OK
    requires HandleMsg1(S, c, msg, rnd, 147).rc == ERR_DH && |msg| > 0 && msg[0] == 1
    ensures var m := HandleMsg1(S, c, msg, rnd, 147); ForeignKeysReject(S, c, m, msg3) && AcceptsUnderOther(S, c, m.ctx, msg3)
  {
    hide HandleMsg1, HandleMsg3, Open, MacAlsoRight;
    FailedMsg1WithoutInitKeepsOldKeys(S, c, msg, rnd, 147, msg3);
    KeyAgreementFails(S, c, msg, rnd, 147);
  }

  /** A run of method 0 in which no primitive fails. */
  lemma {:induction false} SignedRun(S: Suite, p: Creds, x: Bytes)
    requires Lawful(S) && WellFormed(S, p) && !SignFails(S, p.sigSk) && !SealFails(S) && S.dh(x, S.base(x)).Some?
    ensures var e := HonestExchange(S, 0, p, p, x, x, 147);
            && Succeeds(e) && e.m2.ctx.role == 0 && e.m2.ctx.self == p && e.m2.ctx.meth == 0 && e.m2.ctx.peerAuth == Sig
            && HandleMsg3(S, e.m2.ctx, e.m3.out).rc == OK
  {
    HonestOutcome(S, 0, p, p, x, x, 147);
    HonestFlight1(S, 0, p, p, x, x, 147);
    HonestRunAgrees(S, 0, p, p, x, x, 147);
    hide Lawful, WellFormed, HandleMsg1, HandleMsg2, HandleMsg3, MakeMsg1, Agree, SignFails, SealFails;
  }

  /** The plain suite, but for a key agreement that refuses the low-order point under one secret only. */
  function PickySuite(): Suite {
    PlainSuite().(dh := (a, p) => if p == LOW_POINT && a == Zeros(32) then None else Some(Zeros(X_LEN)))
  }

  lemma PickySuiteIsLawful()
    ensures Lawful(PickySuite())
  {
    PlainSuiteIsLawful();
    assert BASE_POINT[0] == 9;
  }

  /** The second way to fail: the ephemeral key agreement succeeds and that with the static key does not. */
  lemma {:induction false} StaticReuseWitness() returns (S: Suite, ini: Creds, x: Bytes, c: Ctx, msg: Bytes, rnd: Bytes, msg3: Bytes)
    ensures Lawful(S) && WellFormed(S, ini) && msg == [1] + LOW_POINT + [0x10]
    ensures var e := HonestExchange(S, 0, ini, ini, x, x, 147); Succeeds(e) && c == e.m2.ctx && msg3 == e.m3.out
    ensures c.role == 0 && c.meth == 0 && HandleMsg3(S, c, msg3).rc == OK && HandleMsg1(S, c, msg, rnd, 147).rc == ERR_DH
    ensures S.dh(rnd, LOW_POINT).Some? && S.dh(c.self.dhSk, LOW_POINT).None?
    ensures var m := HandleMsg1(S, c, msg, rnd, 147); ForeignKeysReject(S, c, m, msg3) && AcceptsUnderOther(S, c, m.ctx, msg3)
  {
    hide *;
    S, ini, x, rnd := PickySuite(), HonestWorld03.PlainCreds(), Zeros(32), BASE_POINT;
    PickySuiteIsLawful();
    PlainSignsAndSeals(S, ini.sigSk);
    SignedRun(S, ini, x);
    var e := HonestExchange(S, 0, ini, ini, x, x, 147);
    c, msg, msg3 := e.m2.ctx, [1] + LOW_POINT + [0x10], e.m3.out;
    PickyRefuses(S, c, msg, rnd);
    SignedReuse(S, c, msg, rnd, msg3);
  }

  lemma PickyRefuses(S: Suite, c: Ctx, msg: Bytes, rnd: Bytes)
    requires S == PickySuite() && c.role == 0 && msg == [1] + LOW_POINT + [0x10] && rnd == BASE_POINT
    requires c.self == HonestWorld03.PlainCreds()
    ensures HandleMsg1(S, c, msg, rnd, 147).rc == ERR_DH && |msg| > 0 && msg[0] == 1
    ensures S.dh(rnd, LOW_POINT).Some? && S.dh(c.self.dhSk, LOW_POINT).None?
  {
    assert msg[1..33] == LOW_POINT && BASE_POINT[0] == 9;
  }

  lemma PlainSignsAndSeals(S: Suite, sk: Bytes)
    requires S == PlainSuite() || S == PickySuite()
    ensures !SignFails(S, sk) && !SealFails(S) && WellFormed(S, HonestWorld03.PlainCreds())
    ensures S.dh(Zeros(32), S.base(Zeros(32))).Some?
  {
    assert BASE_POINT[0] == 9;
  }

  lemma LowPointRefused(S: Suite, c: Ctx, msg: Bytes, rnd: Bytes)
    requires S == PlainSuite() && c.role == 0 && msg == [1] + LOW_POINT + [0x10]
    ensures HandleMsg1(S, c, msg, rnd, 147).rc == ERR_DH && |msg| > 0 && msg[0] == 1
  {
    assert msg[1..33] == LOW_POINT;
  }
}
