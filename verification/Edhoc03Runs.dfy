/** Whole exchanges of methods 0 to 3: the honest run, and matching conversations over every run of a system with
    any number of initiator and responder sessions and a network that may deliver any bytes to anyone. */
module Edhoc03Runs {
  import opened Primitives
  import opened Hkdf
  import opened Edhoc03

  /** The two ends hold the same transcript hashes and keys, name each other, and play mirrored roles. */
  ghost predicate Agree(i: Ctx, r: Ctx) {
    && i.meth == r.meth && MethodValid(i.meth) && i.selfAuth == r.peerAuth && i.peerAuth == r.selfAuth
    && i.ephPk == r.peerEphPk && i.peerEphPk == r.ephPk && i.cI == r.cI
    && i.hMsg1 == r.hMsg1 && i.th2 == r.th2 && i.th3 == r.th3 && i.th4 == r.th4
    && i.ssE == r.ssE && i.prk2e == r.prk2e && i.prk3e2m == r.prk3e2m && i.prk4e3m == r.prk4e3m
    && i.prkOut == r.prkOut && i.msk == r.msk && i.emsk == r.emsk
    && i.peerIdCred == r.self.idCred && r.peerIdCred == i.self.idCred
  }

  // ------------------------------------------------------------------ the honest run

  /** The five results of an undisturbed exchange. */
  datatype Exchange = Exchange(m1: Result, m2: Result, m3: Result, r: Result, i: Result)

  function HonestExchange(S: Suite, meth: byte, ini: Creds, res: Creds, x: Bytes, y: Bytes, cap: nat): Exchange {
    var m1 := MakeMsg1(S, InitInitiator(meth, ini, PublicOf(res)), x, cap);
    var m2 := HandleMsg1(S, InitResponder(res, PublicOf(ini)), m1.out, y, cap);
    var m3 := HandleMsg2(S, m1.ctx, m2.out, cap);
    var r := HandleMsg3(S, m2.ctx, m3.out);
    Exchange(m1, m2, m3, r, HandleMsg4(m3.ctx, r.out))
  }

  /** The two handlers that can meet a failing primitive returned OK. */
  predicate Succeeds(e: Exchange) { e.m2.rc == OK && e.m3.rc == OK }

  function AuthLength(a: Auth): nat { if a == Stat then STAT_LEN else SIG_LEN }

  /** The first flight: message_1 and message_2 are produced, and each context is what its own inputs make it. */
  lemma {:induction false} HonestFlight1(S: Suite, meth: byte, ini: Creds, res: Creds, x: Bytes, y: Bytes, cap: nat)
    requires Lawful(S) && MethodValid(meth) && WellFormed(S, ini) && WellFormed(S, res) && cap >= 147
    requires HonestExchange(S, meth, ini, res, x, y, cap).m2.rc == OK
    ensures var e := HonestExchange(S, meth, ini, res, x, y, cap);
            var i, r := e.m1.ctx, e.m2.ctx;
            var b := BuildAuth(S, RespAuth(meth), r.prk2e, r.th2, res, S.base(x), Zeros(32));
            && e.m1.rc == OK && |e.m1.out| == MSG1_LEN && e.m2.rc == OK
            && i == InitInitiator(meth, ini, PublicOf(res)).(ephSk := x, ephPk := S.base(x), hMsg1 := r.hMsg1)
            && r == InitResponder(res, PublicOf(ini)).(
                      meth := meth, selfAuth := RespAuth(meth), peerAuth := InitAuth(meth), ephSk := y,
                      ephPk := S.base(y), peerEphPk := S.base(x), ssE := r.ssE, hMsg1 := r.hMsg1, th2 := r.th2,
                      prk2e := r.prk2e, prk3e2m := b.prk, th3 := ThNext(S, r.th2, b.pt))
            && S.dh(y, S.base(x)) == Some(r.ssE) && r.th2 == Th2(S, r.ephPk, r.hMsg1, r.cR)
            && r.prk2e == Extract(S, r.th2, r.ssE)
            && b.rc == OK && |e.m2.out| == X_LEN + AuthLength(RespAuth(meth)) + TAG_LEN
            && e.m2.out[..32] == S.base(y) && Seal(S, r.prk2e, r.th2, b.pt) == Some(e.m2.out[32..])
  {
    hide Expand, Ascii;
    var e := HonestExchange(S, meth, ini, res, x, y, cap);
    assert e.m1.out == [meth] + S.base(x) + [0x10];
    assert e.m1.out[1..33] == S.base(x);
    var c := InitResponder(res, PublicOf(ini));
    var th2 := Th2(S, S.base(y), S.sha256(e.m1.out), 0x20);
    var prk2e := Extract(S, th2, S.dh(y, S.base(x)).value);
    BuiltLayout(S, RespAuth(meth), prk2e, th2, res, S.base(x), c.prk3e2m);
  }

  /** msg is the message_2 with which the responder of context r answered the initiator of context i. */
  ghost predicate AnswersMsg1(S: Suite, meth: byte, i: Ctx, r: Ctx, msg: Bytes, prk0: Bytes) {
    var b := BuildAuth(S, RespAuth(meth), r.prk2e, r.th2, r.self, S.base(i.ephSk), prk0);
    && i.role == 1 && i.selfAuth == InitAuth(meth) && i.peerAuth == RespAuth(meth) && i.peer == PublicOf(r.self)
    && i.hMsg1 == r.hMsg1 && i.cR == r.cR && r.ephPk == S.base(r.ephSk)
    && S.dh(r.ephSk, S.base(i.ephSk)) == Some(r.ssE) && r.th2 == Th2(S, r.ephPk, r.hMsg1, r.cR)
    && r.prk2e == Extract(S, r.th2, r.ssE)
    && b.rc == OK && b.prk == r.prk3e2m && r.th3 == ThNext(S, r.th2, b.pt)
    && |msg| > 48 && msg[..32] == r.ephPk && Seal(S, r.prk2e, r.th2, b.pt) == Some(msg[32..])
  }

  /** Message_2 of an honest responder is accepted by the initiator whose message_1 it answers: what is left to do is
      to emit message_3. */
  lemma {:induction false} HonestMsg2Checked(S: Suite, meth: byte, i: Ctx, r: Ctx, msg: Bytes, prk0: Bytes, cap: nat)
    requires Lawful(S) && MethodValid(meth) && WellFormed(S, i.self) && WellFormed(S, r.self) && cap >= 147
    requires AnswersMsg1(S, meth, i, r, msg, prk0)
    ensures var b := BuildAuth(S, RespAuth(meth), r.prk2e, r.th2, r.self, S.base(i.ephSk), prk0);
            HandleMsg2(S, i, msg, cap)
            == EmitMsg3(S, i.(peerEphPk := r.ephPk, ssE := r.ssE, th2 := r.th2, prk2e := r.prk2e,
                              peerIdCred := r.self.idCred, prk3e2m := r.prk3e2m), b.pt, cap)
  {
    hide Expand, Ascii, EmitMsg3;
    assert S.dh(i.ephSk, r.ephPk) == Some(r.ssE);
    var b2 := BuildAuth(S, RespAuth(meth), r.prk2e, r.th2, r.self, S.base(i.ephSk), prk0);
    assert Open(S, r.prk2e, r.th2, msg[32..]) == Some(b2.pt);
    CheckUndoesBuild(S, RespAuth(meth), r.prk2e, r.th2, r.self, i.ephSk, prk0, i.prk3e2m, i.peerIdCred);
  }

  lemma {:induction false} HonestMsg2Accepted(S: Suite, meth: byte, i: Ctx, r: Ctx, msg: Bytes, prk0: Bytes, cap: nat)
    requires Lawful(S) && MethodValid(meth) && WellFormed(S, i.self) && WellFormed(S, r.self) && cap >= 147
    requires AnswersMsg1(S, meth, i, r, msg, prk0)
    requires HandleMsg2(S, i, msg, cap).rc == OK
    ensures var m := HandleMsg2(S, i, msg, cap);
            var b := BuildAuth(S, InitAuth(meth), r.prk3e2m, r.th3, i.self, r.ephPk, i.prk4e3m);
            && m.rc == OK && b.rc == OK && |m.out| == AuthLength(InitAuth(meth)) + TAG_LEN
            && Seal(S, r.prk3e2m, r.th3, b.pt) == Some(m.out)
            && m.ctx == DeriveMsk(S, i.(peerEphPk := r.ephPk, ssE := r.ssE, th2 := r.th2, prk2e := r.prk2e,
                                       peerIdCred := r.self.idCred, prk3e2m := r.prk3e2m, th3 := r.th3,
                                       prk4e3m := b.prk, th4 := ThNext(S, r.th3, b.pt)))
  {
    hide Expand, Ascii, HandleMsg2;
    HonestMsg2Checked(S, meth, i, r, msg, prk0, cap);
    BuiltLayout(S, InitAuth(meth), r.prk3e2m, r.th3, i.self, r.ephPk, i.prk4e3m);
  }

  /** Honest-run agreement: with mutually pinned, well-formed credentials, an exchange of methods 0 to 3 in which no
      primitive failed, on message_1 or on message_2, is one in which every handler returns OK, the messages have their
      fixed sizes, both ends are done and they agree. */
  lemma {:induction false} HonestRunAgrees(S: Suite, meth: byte, ini: Creds, res: Creds, x: Bytes, y: Bytes, cap: nat)
    requires Lawful(S) && MethodValid(meth) && WellFormed(S, ini) && WellFormed(S, res) && cap >= 147
    requires Succeeds(HonestExchange(S, meth, ini, res, x, y, cap))
    ensures var e := HonestExchange(S, meth, ini, res, x, y, cap);
            && e.m1.rc == OK && e.m2.rc == OK && e.m3.rc == OK && e.r.rc == OK && e.i.rc == OK
            && |e.m1.out| == 34 && |e.m2.out| == 48 + AuthLength(RespAuth(meth))
            && |e.m3.out| == 16 + AuthLength(InitAuth(meth)) && e.r.out == []
            && e.i.ctx.done && e.r.ctx.done && Agree(e.i.ctx, e.r.ctx)
  {
    hide Expand, Ascii, HandleMsg1, HandleMsg2, MakeMsg1;
    HonestFlight1(S, meth, ini, res, x, y, cap);
    var e := HonestExchange(S, meth, ini, res, x, y, cap);
    var r := e.m2.ctx;
    HonestMsg2Accepted(S, meth, e.m1.ctx, r, e.m2.out, Zeros(32), cap);
    CheckUndoesBuild(S, InitAuth(meth), r.prk3e2m, r.th3, ini, y, Zeros(32), Zeros(32), Zeros(3));
  }

  ghost predicate SignFails(S: Suite, sk: Bytes) { exists m :: S.sign(sk, m).None? }

  ghost predicate SealFails(S: Suite) { exists k, n, ad, p :: S.seal(k, n, ad, p).None? }

  /** The code is OK or that of a call that failed; `dhFails` says whether one of the key agreements of the step did. */
  ghost predicate Excused(S: Suite, rc: int, dhFails: bool, auth: Auth, self: Creds) {
    || rc == OK
    || (rc == ERR_DH && dhFails)
    || (rc == ERR_SIG && auth == Sig && SignFails(S, self.sigSk))
    || (rc == ERR_AEAD && SealFails(S))
  }

  lemma {:induction false} BuildExcused(S: Suite, auth: Auth, prkIn: Bytes, th: Bytes, self: Creds, peerEph: Bytes, prk0: Bytes)
    ensures var b := BuildAuth(S, auth, prkIn, th, self, peerEph, prk0);
            b.rc != ERR_AEAD && Excused(S, b.rc, auth == Stat && S.dh(self.dhSk, peerEph).None?, auth, self)
  {
    hide Mac, SigMessage, Extract;
  }

  lemma {:induction false} SealExcused(S: Suite, prk: Bytes, th: Bytes, pt: Bytes)
    ensures Seal(S, prk, th, pt).None? ==> SealFails(S)
  {
    hide AeadKey, AeadNonce;
  }

  /** Emitting message_3 fails only with a call of the initiator's own: its static key agreement, its signature or the
      sealing of PT3. */
  lemma {:induction false} EmissionExcused(S: Suite, c: Ctx, pt2: Bytes, cap: nat)
    requires Lawful(S) && WellFormed(S, c.self) && cap >= 115
    ensures Excused(S, EmitMsg3(S, c, pt2, cap).rc, c.selfAuth == Stat && S.dh(c.self.dhSk, c.peerEphPk).None?, c.selfAuth, c.self)
  {
    var th3 := ThNext(S, c.th2, pt2);
    var b := BuildAuth(S, c.selfAuth, c.prk3e2m, th3, c.self, c.peerEphPk, c.prk4e3m);
    BuildExcused(S, c.selfAuth, c.prk3e2m, th3, c.self, c.peerEphPk, c.prk4e3m);
    SealExcused(S, c.prk3e2m, th3, b.pt);
    if b.rc == OK {
      BuiltLayout(S, c.selfAuth, c.prk3e2m, th3, c.self, c.peerEphPk, c.prk4e3m);
    }
    hide BuildAuth, Mac, ThNext, AeadKey, AeadNonce, DeriveMsk, WellFormed, SealFails, SignFails, LawfulHash, LawfulDh, LawfulSig, LawfulKem;
  }

  /** The outcome of every honest exchange, without any assumption on the primitives' success: message_1 is always sent,
      each of the next two handlers returns OK or the code of a call of its own that failed, never a parse, MAC or
      decryption error, and if both return OK so do the last two. */
  lemma {:induction false} HonestOutcome(S: Suite, meth: byte, ini: Creds, res: Creds, x: Bytes, y: Bytes, cap: nat)
    requires Lawful(S) && MethodValid(meth) && WellFormed(S, ini) && WellFormed(S, res) && cap >= 147
    ensures var e := HonestExchange(S, meth, ini, res, x, y, cap);
            && e.m1.rc == OK
            && Excused(S, e.m2.rc, S.dh(y, S.base(x)).None? || (RespAuth(meth) == Stat && S.dh(res.dhSk, S.base(x)).None?),
                       RespAuth(meth), res)
            && (e.m2.rc == OK ==>
                  && |e.m2.out| == 48 + AuthLength(RespAuth(meth))
                  && Excused(S, e.m3.rc, InitAuth(meth) == Stat && S.dh(ini.dhSk, S.base(y)).None?, InitAuth(meth), ini))
            && (Succeeds(e) ==> e.r.rc == OK && e.i.rc == OK)
  {
    var e := HonestExchange(S, meth, ini, res, x, y, cap);
    Msg1Excused(S, meth, ini, res, x, y, cap);
    if e.m2.rc == OK {
      HonestFlight1(S, meth, ini, res, x, y, cap);
      var r := e.m2.ctx;
      hide Expand, Ascii, HandleMsg1, HandleMsg2, MakeMsg1, EmitMsg3, SignFails, SealFails, Lawful;
      HonestMsg2Checked(S, meth, e.m1.ctx, r, e.m2.out, Zeros(32), cap);
      var i := e.m1.ctx.(peerEphPk := r.ephPk, ssE := r.ssE, th2 := r.th2, prk2e := r.prk2e,
                         peerIdCred := r.self.idCred, prk3e2m := r.prk3e2m);
      EmissionExcused(S, i, BuildAuth(S, RespAuth(meth), r.prk2e, r.th2, r.self, S.base(x), Zeros(32)).pt, cap);
      if e.m3.rc == OK {
        HonestRunAgrees(S, meth, ini, res, x, y, cap);
      }
    }
  }

  lemma {:induction false} Msg1Excused(S: Suite, meth: byte, ini: Creds, res: Creds, x: Bytes, y: Bytes, cap: nat)
    requires Lawful(S) && MethodValid(meth) && WellFormed(S, res) && cap >= 147
    ensures var e := HonestExchange(S, meth, ini, res, x, y, cap);
            && e.m1.rc == OK
            && Excused(S, e.m2.rc, S.dh(y, S.base(x)).None? || (RespAuth(meth) == Stat && S.dh(res.dhSk, S.base(x)).None?),
                       RespAuth(meth), res)
  {
    var e := HonestExchange(S, meth, ini, res, x, y, cap);
    assert e.m1.out == [meth] + S.base(x) + [0x10] && e.m1.out[1..33] == S.base(x);
    if S.dh(y, S.base(x)).Some? {
      var th2 := Th2(S, S.base(y), S.sha256(e.m1.out), 0x20);
      var prk2e := Extract(S, th2, S.dh(y, S.base(x)).value);
      var b := BuildAuth(S, RespAuth(meth), prk2e, th2, res, S.base(x), Zeros(32));
      BuildExcused(S, RespAuth(meth), prk2e, th2, res, S.base(x), Zeros(32));
      SealExcused(S, prk2e, th2, b.pt);
      if b.rc == OK {
        BuiltLayout(S, RespAuth(meth), prk2e, th2, res, S.base(x), Zeros(32));
      }
    }
    hide BuildAuth, Mac, ThNext, Th2, Extract, AeadKey, AeadNonce, WellFormed, SealFails, SignFails, HandleMsg2, HandleMsg3,
         LawfulHash, LawfulSig, LawfulKem;
  }

  /** The honest messages fit the buffers of the handlers they are meant for. */
  lemma {:induction false} HonestMessagesFit(S: Suite, meth: byte, ini: Creds, res: Creds, x: Bytes, y: Bytes, cap: nat)
    requires Lawful(S) && MethodValid(meth) && WellFormed(S, ini) && WellFormed(S, res) && cap >= 147
    ensures var e := HonestExchange(S, meth, ini, res, x, y, cap);
            && (e.m2.rc == OK ==> Msg2Fill(S, e.m1.ctx, e.m2.out) <= PT_CAP)
            && (Succeeds(e) ==> Msg3Fill(e.m2.ctx, e.m3.out) <= PT_CAP)
  {
    HonestOutcome(S, meth, ini, res, x, y, cap);
    var e := HonestExchange(S, meth, ini, res, x, y, cap);
    if Succeeds(e) {
      HonestRunAgrees(S, meth, ini, res, x, y, cap);
    }
    FitsExactly(S, e.m1.ctx, e.m2.out);
    FitsExactly(S, e.m2.ctx, e.m3.out);
    hide HonestExchange, Excused, Agree, Lawful, WellFormed, Msg2Fill, Msg3Fill;
  }

  /** Cross-delivery leaves the buffers: a responder that is handed its own honest message_2 as message_3 decrypts 131
      bytes into 115, exactly when it authenticates by signature. */
  lemma {:induction false} CrossDeliveryOverruns(S: Suite, meth: byte, ini: Creds, res: Creds, x: Bytes, y: Bytes, cap: nat)
    requires Lawful(S) && MethodValid(meth) && WellFormed(S, ini) && WellFormed(S, res) && cap >= 147
    requires HonestExchange(S, meth, ini, res, x, y, cap).m2.rc == OK
    ensures var e := HonestExchange(S, meth, ini, res, x, y, cap);
            && (Msg3Fill(e.m2.ctx, e.m2.out) > PT_CAP <==> RespAuth(meth) == Sig)
            && (RespAuth(meth) == Sig ==> |e.m2.out| == 147 && Msg3Fill(e.m2.ctx, e.m2.out) == 131)
  {
    HonestFlight1(S, meth, ini, res, x, y, cap);
    hide HandleMsg1, HandleMsg2, HandleMsg3, MakeMsg1;
  }

  // ------------------------------------------------------------------ systems of sessions

  /** An initiator session: `step` as the engine counts it, 0 before message_1 and 1 after. */
  datatype ISession = ISession(ctx: Ctx, step: nat)

  /** A responder session: `round` as the server module counts it; the messages are kept for the record only. */
  datatype RSession = RSession(ctx: Ctx, round: nat, msg1: Bytes, pt2: Bytes)

  /** A message_3 that left the initiator session `at`, with the context it left behind and the plaintexts on both sides of
      TH3. */
  datatype Emission = Emission(ct: Bytes, view: Ctx, pt2: Bytes, pt3: Bytes, at: nat)

  /** A message_3 that the responder session `at` accepted. */
  datatype Acceptance = Acceptance(ct: Bytes, view: Ctx, msg1: Bytes, pt2: Bytes, pt3: Bytes, at: nat)

  datatype World = World(
    ini: seq<ISession>, res: seq<RSession>, emitted: set<Emission>, accepted: set<Acceptance>,
    hashed: set<Bytes>, seals: set<AeadCall>, opens: set<AeadCall>)

  /** What can happen next.  Message bytes are arbitrary, so dropping, repeating, reordering, cross-delivering and
      forging are all covered; the randomness and buffer sizes of a call are arbitrary too.  Only a message whose
      decryption would overrun the handler's local buffer is not delivered: what the code then does is undefined. */
  datatype Event =
    | NewInitiator(meth: byte, self: Creds, peer: Peer)
    | NewResponder(self: Creds, peer: Peer)
    | Start(i: nat, rnd: Bytes, cap: nat)
    | Deliver1(r: nat, msg: Bytes, rnd: Bytes, cap: nat)
    | Deliver2(i: nat, msg: Bytes, cap: nat)
    | Deliver3(r: nat, msg: Bytes)

  const Empty := World([], [], {}, {}, {}, {}, {})

  function Sealed(S: Suite, prk: Bytes, th: Bytes, ct: Bytes): AeadCall {
    AeadCall(AeadKey(S, prk, th), AeadNonce(S, prk, th), th, ct)
  }

  /** PT2 as the initiator decrypts it and PT3 as it builds it, when message_2 handling succeeds. */
  function Pt2Opened(S: Suite, after: Ctx, input: Bytes): Bytes {
    if |input| < X_LEN then [] else
    match Open(S, after.prk2e, after.th2, input[32..]) case Some(p) => p case None => []
  }

  function Pt3Built(S: Suite, before: Ctx, after: Ctx): Bytes {
    BuildAuth(S, before.selfAuth, after.prk3e2m, after.th3, before.self, after.peerEphPk, before.prk4e3m).pt
  }

  function Pt3Opened(S: Suite, before: Ctx, input: Bytes): Bytes {
    match Open(S, before.prk3e2m, before.th3, input) case Some(p) => p case None => []
  }

  function NextStart(S: Suite, w: World, i: nat, rnd: Bytes, cap: nat): World {
    if i >= |w.ini| || w.ini[i].step != 0 then w else
    var m := MakeMsg1(S, w.ini[i].ctx, rnd, cap);
    if m.rc != OK then w.(ini := w.ini[i := ISession(m.ctx, 0)])
    else w.(ini := w.ini[i := ISession(m.ctx, 1)], hashed := w.hashed + {m.out})
  }

  /** The server module initialises the context afresh before it handles a message_1. */
  function NextDeliver1(S: Suite, w: World, r: nat, msg: Bytes, rnd: Bytes, cap: nat): World {
    if r >= |w.res| || w.res[r].round != 0 then w else
    var c := InitResponder(w.res[r].ctx.self, w.res[r].ctx.peer);
    var m := HandleMsg1(S, c, msg, rnd, cap);
    if m.rc != OK || |msg| != MSG1_LEN then w.(res := w.res[r := RSession(m.ctx, 0, [], [])]) else
    var pt2 := Pt2Built(S, c, msg, rnd);
    w.(res := w.res[r := RSession(m.ctx, 1, msg, pt2)],
       hashed := w.hashed + {msg, m.ctx.ephPk + m.ctx.hMsg1 + [m.ctx.cR], m.ctx.th2 + pt2},
       seals := w.seals + {Sealed(S, m.ctx.prk2e, m.ctx.th2, if |m.out| < 32 then [] else m.out[32..])})
  }

  function NextDeliver2(S: Suite, w: World, i: nat, msg: Bytes, cap: nat): World {
    if i >= |w.ini| || w.ini[i].step == 0 || Msg2Fill(S, w.ini[i].ctx, msg) > PT_CAP then w else
    var before := w.ini[i].ctx;
    var m := HandleMsg2(S, before, msg, cap);
    if m.rc != OK || |msg| < X_LEN then w.(ini := w.ini[i := ISession(m.ctx, w.ini[i].step)]) else
    var e := Emission(m.out, m.ctx, Pt2Opened(S, m.ctx, msg), Pt3Built(S, before, m.ctx), i);
    w.(ini := w.ini[i := ISession(m.ctx, 2)],
       emitted := w.emitted + {e},
       hashed := w.hashed + {m.ctx.peerEphPk + m.ctx.hMsg1 + [m.ctx.cR], m.ctx.th2 + e.pt2, m.ctx.th3 + e.pt3},
       opens := w.opens + {Sealed(S, m.ctx.prk2e, m.ctx.th2, msg[32..])},
       seals := w.seals + {Sealed(S, m.ctx.prk3e2m, m.ctx.th3, m.out)})
  }

  function NextDeliver3(S: Suite, w: World, r: nat, msg: Bytes): World {
    if r >= |w.res| || w.res[r].round != 1 || Msg3Fill(w.res[r].ctx, msg) > PT_CAP then w else
    var s := w.res[r];
    var m := HandleMsg3(S, s.ctx, msg);
    if m.rc != OK then w.(res := w.res[r := s.(ctx := m.ctx)]) else
    var a := Acceptance(msg, m.ctx, s.msg1, s.pt2, Pt3Opened(S, s.ctx, msg), r);
    w.(res := w.res[r := s.(ctx := m.ctx)],
       accepted := w.accepted + {a},
       hashed := w.hashed + {m.ctx.th3 + a.pt3},
       opens := w.opens + {Sealed(S, s.ctx.prk3e2m, s.ctx.th3, msg)})
  }

  ghost function Next(S: Suite, w: World, e: Event): World {
    match e
    case NewInitiator(meth, self, peer) =>
      if WellFormed(S, self) then w.(ini := w.ini + [ISession(InitInitiator(meth, self, peer), 0)]) else w
    case NewResponder(self, peer) =>
      if WellFormed(S, self) then w.(res := w.res + [RSession(InitResponder(self, peer), 0, [], [])]) else w
    case Start(i, rnd, cap) => NextStart(S, w, i, rnd, cap)
    case Deliver1(r, msg, rnd, cap) => NextDeliver1(S, w, r, msg, rnd, cap)
    case Deliver2(i, msg, cap) => NextDeliver2(S, w, i, msg, cap)
    case Deliver3(r, msg) => NextDeliver3(S, w, r, msg)
  }

  ghost function After(S: Suite, events: seq<Event>): World {
    if |events| == 0 then Empty
    else Next(S, After(S, events[..|events| - 1]), events[|events| - 1])
  }

  // ------------------------------------------------------------------ what every reachable world satisfies

  ghost predicate InitiatorInv(S: Suite, s: ISession, hashed: set<Bytes>) {
    && s.ctx.role == 1 && WellFormed(S, s.ctx.self) && s.ctx.cR == 0x20
    && s.ctx.selfAuth == InitAuth(s.ctx.meth) && s.ctx.peerAuth == RespAuth(s.ctx.meth)
    && (s.step > 0 ==>
          && MethodValid(s.ctx.meth) && s.ctx.ephPk == S.base(s.ctx.ephSk)
          && s.ctx.hMsg1 == S.sha256(Msg1(s.ctx.meth, s.ctx.ephPk, s.ctx.cI))
          && Msg1(s.ctx.meth, s.ctx.ephPk, s.ctx.cI) in hashed)
  }

  /** The context of an initiator that has just emitted message_3, explained by its own messages. */
  ghost predicate EmissionInv(S: Suite, e: Emission, hashed: set<Bytes>, seals: set<AeadCall>) {
    var c := e.view;
    && InitiatorInv(S, ISession(c, 2), hashed)
    && |c.peerEphPk| == X_LEN && S.dh(c.ephSk, c.peerEphPk) == Some(c.ssE)
    && c.peerEphPk + c.hMsg1 + [c.cR] in hashed && c.th2 + e.pt2 in hashed && c.th3 + e.pt3 in hashed
    && c.th2 == Th2(S, c.peerEphPk, c.hMsg1, c.cR) && c.th3 == ThNext(S, c.th2, e.pt2)
    && c.th4 == ThNext(S, c.th3, e.pt3)
    && c.prk2e == Extract(S, c.th2, c.ssE)
    && (exists id0, prk0 :: CheckAuth(S, c.peerAuth, c.prk2e, c.th2, c.peer, c.ephSk, e.pt2, id0, prk0)
                            == Checked(c.peerIdCred, c.prk3e2m, OK))
    && (exists prk0 :: BuildAuth(S, c.selfAuth, c.prk3e2m, c.th3, c.self, c.peerEphPk, prk0)
                       == Built(c.prk4e3m, e.pt3, OK))
    && c == DeriveMsk(S, c)
    && Seal(S, c.prk3e2m, c.th3, e.pt3) == Some(e.ct) && Sealed(S, c.prk3e2m, c.th3, e.ct) in seals
  }

  ghost predicate ResponderInv(S: Suite, s: RSession, hashed: set<Bytes>) {
    var c := s.ctx;
    && c.role == 0 && WellFormed(S, c.self)
    && (s.round > 0 ==>
          && |s.msg1| == MSG1_LEN && MethodValid(s.msg1[0]) && s.msg1 in hashed
          && c.meth == s.msg1[0] && c.peerEphPk == s.msg1[1..33] && c.cI == s.msg1[33] && c.cR == 0x20
          && c.selfAuth == RespAuth(c.meth) && c.peerAuth == InitAuth(c.meth)
          && c.hMsg1 == S.sha256(s.msg1) && c.ephPk == S.base(c.ephSk)
          && S.dh(c.ephSk, c.peerEphPk) == Some(c.ssE)
          && c.ephPk + c.hMsg1 + [c.cR] in hashed && c.th2 + s.pt2 in hashed
          && c.th2 == Th2(S, c.ephPk, c.hMsg1, c.cR) && c.th3 == ThNext(S, c.th2, s.pt2)
          && c.prk2e == Extract(S, c.th2, c.ssE)
          && (exists prk0 :: BuildAuth(S, c.selfAuth, c.prk2e, c.th2, c.self, c.peerEphPk, prk0)
                             == Built(c.prk3e2m, s.pt2, OK)))
  }

  ghost predicate AcceptanceInv(S: Suite, a: Acceptance, hashed: set<Bytes>, opens: set<AeadCall>) {
    var c := a.view;
    && ResponderInv(S, RSession(c, 1, a.msg1, a.pt2), hashed)
    && c.th3 + a.pt3 in hashed && c.th4 == ThNext(S, c.th3, a.pt3)
    && Open(S, c.prk3e2m, c.th3, a.ct) == Some(a.pt3)
    && (exists id0, prk0 :: CheckAuth(S, c.peerAuth, c.prk3e2m, c.th3, c.peer, c.ephSk, a.pt3, id0, prk0)
                            == Checked(c.peerIdCred, c.prk4e3m, OK))
    && c == DeriveMsk(S, c)
    && Sealed(S, c.prk3e2m, c.th3, a.ct) in opens
  }

  ghost predicate Inv(S: Suite, w: World) {
    && (forall i | 0 <= i < |w.ini| :: InitiatorInv(S, w.ini[i], w.hashed))
    && (forall r | 0 <= r < |w.res| :: ResponderInv(S, w.res[r], w.hashed))
    && (forall e | e in w.emitted :: EmissionInv(S, e, w.hashed, w.seals))
    && (forall a | a in w.accepted :: AcceptanceInv(S, a, w.hashed, w.opens))
  }

  /** Recorded facts survive as the record grows. */
  lemma {:induction false} InvGrows(S: Suite, w: World, v: World)
    requires Inv(S, w) && w.hashed <= v.hashed && w.seals <= v.seals && w.opens <= v.opens
    ensures forall i | 0 <= i < |w.ini| :: InitiatorInv(S, w.ini[i], v.hashed)
    ensures forall r | 0 <= r < |w.res| :: ResponderInv(S, w.res[r], v.hashed)
    ensures forall e | e in w.emitted :: EmissionInv(S, e, v.hashed, v.seals)
    ensures forall a | a in w.accepted :: AcceptanceInv(S, a, v.hashed, v.opens)
  {
    hide Expand, Extract, BuildAuth, CheckAuth, WellFormed, DeriveMsk;
  }

  lemma {:induction false} NewSessionKeepsInv(S: Suite, w: World, e: Event)
    requires Inv(S, w) && (e.NewInitiator? || e.NewResponder?)
    ensures Inv(S, Next(S, w, e))
  {
    hide EmissionInv, AcceptanceInv;
  }

  lemma {:induction false} StartKeepsInv(S: Suite, w: World, i: nat, rnd: Bytes, cap: nat)
    requires Inv(S, w)
    ensures Inv(S, NextStart(S, w, i, rnd, cap))
  {
    InvGrows(S, w, NextStart(S, w, i, rnd, cap));
    hide EmissionInv, AcceptanceInv, ResponderInv;
  }

  /** A responder that answered message_1 explains its context by the message and the PT2 it built. */
  lemma {:induction false} Msg1Explained(S: Suite, c: Ctx, msg: Bytes, rnd: Bytes, cap: nat)
    requires c.role == 0 && c.cR == 0x20 && WellFormed(S, c.self) && HandleMsg1(S, c, msg, rnd, cap).rc == OK
    ensures |msg| == MSG1_LEN
    ensures var m, pt2 := HandleMsg1(S, c, msg, rnd, cap).ctx, Pt2Built(S, c, msg, rnd);
            ResponderInv(S, RSession(m, 1, msg, pt2), {msg, m.ephPk + m.hMsg1 + [m.cR], m.th2 + pt2})
  {
    hide Expand, WellFormed;
    var m, pt2 := HandleMsg1(S, c, msg, rnd, cap).ctx, Pt2Built(S, c, msg, rnd);
    assert BuildAuth(S, m.selfAuth, m.prk2e, m.th2, m.self, m.peerEphPk, c.prk3e2m) == Built(m.prk3e2m, pt2, OK);
  }

  lemma {:induction false} Deliver1KeepsInv(S: Suite, w: World, r: nat, msg: Bytes, rnd: Bytes, cap: nat)
    requires Inv(S, w)
    ensures Inv(S, NextDeliver1(S, w, r, msg, rnd, cap))
  {
    hide Expand, BuildAuth, Extract, Th2, ThNext, Seal, WellFormed;
    var v := NextDeliver1(S, w, r, msg, rnd, cap);
    InvGrows(S, w, v);
    if r < |w.res| && w.res[r].round == 0 {
      var c := InitResponder(w.res[r].ctx.self, w.res[r].ctx.peer);
      var m := HandleMsg1(S, c, msg, rnd, cap);
      assert ResponderInv(S, w.res[r], w.hashed) && m.ctx.role == 0 && m.ctx.self == c.self;
      if m.rc == OK {
        Msg1Explained(S, c, msg, rnd, cap);
        var pt2 := Pt2Built(S, c, msg, rnd);
        var h := {msg, m.ctx.ephPk + m.ctx.hMsg1 + [m.ctx.cR], m.ctx.th2 + pt2};
        RespInvGrows(S, RSession(m.ctx, 1, msg, pt2), h, v.hashed);
      }
      hide HandleMsg1, EmissionInv, AcceptanceInv, InitiatorInv, InitResponder, Pt2Built;
    }
  }

  lemma {:induction false} RespInvGrows(S: Suite, s: RSession, h: set<Bytes>, g: set<Bytes>)
    requires ResponderInv(S, s, h) && h <= g
    ensures ResponderInv(S, s, g)
  {
    hide BuildAuth, WellFormed;
  }

  /** A successful message_2 handling explains the message_3 it emits. */
  lemma {:induction false} EmissionExplained(S: Suite, i: nat, s: ISession, msg: Bytes, cap: nat, h: set<Bytes>,
                                             seals: set<AeadCall>)
    requires InitiatorInv(S, s, h) && s.step > 0 && HandleMsg2(S, s.ctx, msg, cap).rc == OK
    requires var m := HandleMsg2(S, s.ctx, msg, cap);
             && {m.ctx.peerEphPk + m.ctx.hMsg1 + [m.ctx.cR], m.ctx.th2 + Pt2Opened(S, m.ctx, msg),
                 m.ctx.th3 + Pt3Built(S, s.ctx, m.ctx)} <= h
             && Sealed(S, m.ctx.prk3e2m, m.ctx.th3, m.out) in seals
    ensures |msg| >= X_LEN
    ensures var m := HandleMsg2(S, s.ctx, msg, cap);
            EmissionInv(S, Emission(m.out, m.ctx, Pt2Opened(S, m.ctx, msg), Pt3Built(S, s.ctx, m.ctx), i), h, seals)
  {
    hide Expand, WellFormed;
    var before, m := s.ctx, HandleMsg2(S, s.ctx, msg, cap);
    var c, pt2, pt3 := m.ctx, Pt2Opened(S, m.ctx, msg), Pt3Built(S, before, m.ctx);
    assert CheckAuth(S, c.peerAuth, c.prk2e, c.th2, c.peer, c.ephSk, pt2, before.peerIdCred, before.prk3e2m)
           == Checked(c.peerIdCred, c.prk3e2m, OK);
    assert BuildAuth(S, c.selfAuth, c.prk3e2m, c.th3, c.self, c.peerEphPk, before.prk4e3m) == Built(c.prk4e3m, pt3, OK);
  }

  /** What message_1 fixed in an initiator context is the same in both. */
  predicate SameBasis(c: Ctx, d: Ctx) {
    && c.role == d.role && c.meth == d.meth && c.selfAuth == d.selfAuth && c.peerAuth == d.peerAuth
    && c.self == d.self && c.cI == d.cI && c.cR == d.cR
    && c.ephSk == d.ephSk && c.ephPk == d.ephPk && c.hMsg1 == d.hMsg1
  }

  /** Message_2 handling, successful or not, leaves everything message_1 fixed as it was. */
  lemma {:induction false} Msg2KeepsBasis(S: Suite, c: Ctx, msg: Bytes, cap: nat)
    ensures SameBasis(c, HandleMsg2(S, c, msg, cap).ctx)
  {
    hide BuildAuth, CheckAuth, Open, Seal, Th2, ThNext, Extract, PrkOut, Expand, Ascii, EmitMsg3;
    forall d: Ctx, pt2 { EmissionKeepsBasis(S, d, pt2, cap); }
  }

  lemma {:induction false} EmissionKeepsBasis(S: Suite, c: Ctx, pt2: Bytes, cap: nat)
    ensures SameBasis(c, EmitMsg3(S, c, pt2, cap).ctx)
  {
    hide BuildAuth, Seal, ThNext, PrkOut, Expand, Ascii;
  }

  lemma {:induction false} Msg2KeepsInitiator(S: Suite, s: ISession, msg: Bytes, cap: nat, n: nat, h: set<Bytes>)
    requires InitiatorInv(S, s, h) && s.step > 0
    ensures InitiatorInv(S, ISession(HandleMsg2(S, s.ctx, msg, cap).ctx, n), h)
  {
    Msg2KeepsBasis(S, s.ctx, msg, cap);
    hide HandleMsg2, WellFormed, Msg1;
  }

  lemma {:induction false} Deliver2KeepsInv(S: Suite, w: World, i: nat, msg: Bytes, cap: nat)
    requires Inv(S, w)
    ensures Inv(S, NextDeliver2(S, w, i, msg, cap))
  {
    hide HandleMsg2, Msg2Fill, Pt2Opened, Pt3Built, InitiatorInv, ResponderInv, EmissionInv, AcceptanceInv;
    var v := NextDeliver2(S, w, i, msg, cap);
    InvGrows(S, w, v);
    if i < |w.ini| && w.ini[i].step > 0 && Msg2Fill(S, w.ini[i].ctx, msg) <= PT_CAP {
      Msg2KeepsInitiator(S, w.ini[i], msg, cap, v.ini[i].step, v.hashed);
      if HandleMsg2(S, w.ini[i].ctx, msg, cap).rc == OK && |msg| >= X_LEN {
        EmissionExplained(S, i, w.ini[i], msg, cap, v.hashed, v.seals);
      }
    }
  }

  /** An accepted message_3 is explained by what the responder opened. */
  lemma {:induction false} AcceptanceExplained(S: Suite, r: nat, s: RSession, msg: Bytes, h: set<Bytes>, opens: set<AeadCall>)
    requires ResponderInv(S, s, h) && s.round == 1 && HandleMsg3(S, s.ctx, msg).rc == OK
    requires var m := HandleMsg3(S, s.ctx, msg);
             m.ctx.th3 + Pt3Opened(S, s.ctx, msg) in h && Sealed(S, s.ctx.prk3e2m, s.ctx.th3, msg) in opens
    ensures var m := HandleMsg3(S, s.ctx, msg);
            AcceptanceInv(S, Acceptance(msg, m.ctx, s.msg1, s.pt2, Pt3Opened(S, s.ctx, msg), r), h, opens)
  {
    hide Expand, WellFormed, BuildAuth;
    var c, pt3 := HandleMsg3(S, s.ctx, msg).ctx, Pt3Opened(S, s.ctx, msg);
    assert CheckAuth(S, c.peerAuth, c.prk3e2m, c.th3, c.peer, c.ephSk, pt3, s.ctx.peerIdCred, s.ctx.prk4e3m)
           == Checked(c.peerIdCred, c.prk4e3m, OK);
  }

  lemma {:induction false} Msg3KeepsResponder(S: Suite, s: RSession, msg: Bytes, h: set<Bytes>)
    requires ResponderInv(S, s, h)
    ensures ResponderInv(S, s.(ctx := HandleMsg3(S, s.ctx, msg).ctx), h)
  {
    hide BuildAuth, CheckAuth, Expand, WellFormed, Open, ThNext, Th2, Extract, PrkOut, Ascii, InitAuth, RespAuth;
  }

  lemma {:induction false} Deliver3KeepsInv(S: Suite, w: World, r: nat, msg: Bytes)
    requires Inv(S, w)
    ensures Inv(S, NextDeliver3(S, w, r, msg))
  {
    hide HandleMsg3, Msg3Fill, Pt3Opened, InitiatorInv, ResponderInv, EmissionInv, AcceptanceInv;
    var v := NextDeliver3(S, w, r, msg);
    InvGrows(S, w, v);
    if r < |w.res| && w.res[r].round == 1 && Msg3Fill(w.res[r].ctx, msg) <= PT_CAP {
      Msg3KeepsResponder(S, w.res[r], msg, v.hashed);
      if HandleMsg3(S, w.res[r].ctx, msg).rc == OK {
        AcceptanceExplained(S, r, w.res[r], msg, v.hashed, v.opens);
      }
    }
  }

  lemma {:induction false} ReachableInv(S: Suite, events: seq<Event>)
    ensures Inv(S, After(S, events))
  {
    hide Inv, NextStart, NextDeliver1, NextDeliver2, NextDeliver3;
    if |events| == 0 {
      assert Inv(S, Empty) by { EmptyInv(S); }
    } else {
      var w := After(S, events[..|events| - 1]);
      ReachableInv(S, events[..|events| - 1]);
      match events[|events| - 1] {
        case NewInitiator(_, _, _) => NewSessionKeepsInv(S, w, events[|events| - 1]);
        case NewResponder(_, _) => NewSessionKeepsInv(S, w, events[|events| - 1]);
        case Start(i, rnd, cap) => StartKeepsInv(S, w, i, rnd, cap);
        case Deliver1(r, msg, rnd, cap) => Deliver1KeepsInv(S, w, r, msg, rnd, cap);
        case Deliver2(i, msg, cap) => Deliver2KeepsInv(S, w, i, msg, cap);
        case Deliver3(r, msg) => Deliver3KeepsInv(S, w, r, msg);
      }
    }
  }

  lemma EmptyInv(S: Suite)
    ensures Inv(S, Empty)
  {
  }

  // ------------------------------------------------------------------ matching conversations

  /** TH3 pins the whole conversation before it: message_1, G_Y and PT2. */
  lemma {:induction false} Th3PinsTranscript(S: Suite, e: Emission, a: Acceptance, w: World)
    requires Lawful(S) && NoCollisions(S, w.hashed)
    requires EmissionInv(S, e, w.hashed, w.seals) && AcceptanceInv(S, a, w.hashed, w.opens)
    requires e.view.th3 == a.view.th3
    ensures a.msg1 == Msg1(e.view.meth, e.view.ephPk, e.view.cI) && e.pt2 == a.pt2
    ensures MethodValid(e.view.meth)
    ensures e.view.th2 == a.view.th2 && e.view.peerEphPk == a.view.ephPk
    ensures e.view.meth == a.view.meth && e.view.ephPk == a.view.peerEphPk && e.view.cI == a.view.cI
  {
    hide Expand, BuildAuth, CheckAuth, WellFormed;
    var i, r := e.view, a.view;
    assert i.th2 + e.pt2 == r.th2 + a.pt2;
    ConcatSplits(i.th2, e.pt2, r.th2, a.pt2);
    assert i.peerEphPk + i.hMsg1 + [i.cR] == r.ephPk + r.hMsg1 + [r.cR];
    ConcatSplits(i.peerEphPk, i.hMsg1 + [i.cR], r.ephPk, r.hMsg1 + [r.cR]) by {
      assert i.peerEphPk + (i.hMsg1 + [i.cR]) == i.peerEphPk + i.hMsg1 + [i.cR];
      assert r.ephPk + (r.hMsg1 + [r.cR]) == r.ephPk + r.hMsg1 + [r.cR];
    }
    ConcatSplits(i.hMsg1, [i.cR], r.hMsg1, [r.cR]);
    var m := Msg1(i.meth, i.ephPk, i.cI);
    assert m == a.msg1;
    assert m[0] == i.meth && m[1..33] == i.ephPk && m[33] == i.cI;
  }

  /** With the same transcript up to TH3, both ends have the same PRK2e and PRK3e2m, and name each other so far. */
  lemma {:induction false} TranscriptFixesKeys(S: Suite, e: Emission, a: Acceptance, w: World)
    requires Lawful(S) && NoCollisions(S, w.hashed)
    requires EmissionInv(S, e, w.hashed, w.seals) && AcceptanceInv(S, a, w.hashed, w.opens)
    requires e.view.th3 == a.view.th3
    ensures e.view.ssE == a.view.ssE && e.view.prk2e == a.view.prk2e && e.view.prk3e2m == a.view.prk3e2m
    ensures e.view.peerIdCred == a.view.self.idCred
  {
    Th3PinsTranscript(S, e, a, w);
    var i, r := e.view, a.view;
    var prk0 :| BuildAuth(S, r.selfAuth, r.prk2e, r.th2, r.self, r.peerEphPk, prk0) == Built(r.prk3e2m, a.pt2, OK);
    var id1, prk1 :| CheckAuth(S, i.peerAuth, i.prk2e, i.th2, i.peer, i.ephSk, e.pt2, id1, prk1)
                     == Checked(i.peerIdCred, i.prk3e2m, OK);
    AcceptedBuildAgrees(S, r.selfAuth, r.prk2e, r.th2, r.self, i.peer, i.ephSk, prk0, prk1, id1);
  }

  /** And PRK4e3m follows, because the responder accepted the very PT3 the initiator built. */
  lemma {:induction false} Pt3FixesPrk4(S: Suite, e: Emission, a: Acceptance, w: World)
    requires Lawful(S) && NoCollisions(S, w.hashed)
    requires EmissionInv(S, e, w.hashed, w.seals) && AcceptanceInv(S, a, w.hashed, w.opens)
    requires e.view.th3 == a.view.th3 && e.ct == a.ct
    ensures e.pt3 == a.pt3 && e.view.prk4e3m == a.view.prk4e3m && a.view.peerIdCred == e.view.self.idCred
  {
    Th3PinsTranscript(S, e, a, w);
    TranscriptFixesKeys(S, e, a, w);
    var i, r := e.view, a.view;
    assert Open(S, i.prk3e2m, i.th3, e.ct) == Some(e.pt3);
    var prk0 :| BuildAuth(S, i.selfAuth, i.prk3e2m, i.th3, i.self, i.peerEphPk, prk0) == Built(i.prk4e3m, e.pt3, OK);
    var id1, prk1 :| CheckAuth(S, r.peerAuth, r.prk3e2m, r.th3, r.peer, r.ephSk, a.pt3, id1, prk1)
                     == Checked(r.peerIdCred, r.prk4e3m, OK);
    AcceptedBuildAgrees(S, i.selfAuth, i.prk3e2m, i.th3, i.self, r.peer, r.ephSk, prk0, prk1, id1);
  }

  /** Two recorded events about one ciphertext agree once the run binds associated data and has no collisions. */
  lemma {:induction false} EventsMatch(S: Suite, w: World, e: Emission, a: Acceptance)
    requires Lawful(S) && Inv(S, w) && NoCollisions(S, w.hashed) && DataBound(w.seals, w.opens)
    requires e in w.emitted && a in w.accepted && e.ct == a.ct
    ensures Agree(e.view, a.view) && e.pt2 == a.pt2 && e.pt3 == a.pt3
    ensures a.msg1 == Msg1(e.view.meth, e.view.ephPk, e.view.cI)
  {
    hide Expand, BuildAuth, CheckAuth, WellFormed;
    var i, r := e.view, a.view;
    assert i.th3 == r.th3 by {
      var s, o := Sealed(S, i.prk3e2m, i.th3, e.ct), Sealed(S, r.prk3e2m, r.th3, a.ct);
      assert s in w.seals && o in w.opens && s.ct == o.ct;
    }
    Th3PinsTranscript(S, e, a, w);
    TranscriptFixesKeys(S, e, a, w);
    Pt3FixesPrk4(S, e, a, w);
  }

  /** Matching conversations over every run: if a responder accepted a message_3 that an initiator emitted, the two
      hold the same method, mirrored auth modes, TH2 to TH4, PRKs, MSK and EMSK, and name each other. */
  lemma {:induction false} MatchingConversations(S: Suite, events: seq<Event>, e: Emission, a: Acceptance)
    requires Lawful(S)
    requires var w := After(S, events);
             && NoCollisions(S, w.hashed) && DataBound(w.seals, w.opens)
             && e in w.emitted && a in w.accepted && e.ct == a.ct
    ensures Agree(e.view, a.view) && e.pt2 == a.pt2 && e.pt3 == a.pt3
    ensures a.msg1 == Msg1(e.view.meth, e.view.ephPk, e.view.cI)
  {
    var w := After(S, events);
    ReachableInv(S, events);
    EventsMatch(S, w, e, a);
  }

  // ------------------------------------------------------------------ injective agreement

  /** Every recorded event belongs to a session that still has the ephemeral key it had then. */
  ghost predicate Placed(w: World) {
    && (forall e | e in w.emitted :: e.at < |w.ini| && w.ini[e.at].step > 0 && w.ini[e.at].ctx.ephPk == e.view.ephPk)
    && (forall a | a in w.accepted :: a.at < |w.res| && w.res[a.at].round == 1 && w.res[a.at].ctx.ephPk == a.view.ephPk)
  }

  lemma {:induction false} NextKeepsPlaces(S: Suite, w: World, e: Event)
    requires Placed(w)
    ensures Placed(Next(S, w, e))
  {
    hide HandleMsg1, HandleMsg2, HandleMsg3, MakeMsg1, Pt2Built, Pt2Opened, Pt3Built, Pt3Opened, Sealed, Msg2Fill, Msg3Fill,
         InitInitiator, InitResponder, WellFormed;
    match e {
      case Deliver2(i, msg, cap) =>
        if i < |w.ini| { Msg2KeepsBasis(S, w.ini[i].ctx, msg, cap); }
      case Deliver3(r, msg) =>
        if r < |w.res| { Msg3KeepsEphemeral(S, w.res[r].ctx, msg); }
      case _ =>
    }
  }

  lemma Msg3KeepsEphemeral(S: Suite, c: Ctx, msg: Bytes)
    ensures HandleMsg3(S, c, msg).ctx.ephPk == c.ephPk
  {
    hide CheckAuth, Open, ThNext, PrkOut, Expand, Ascii;
  }

  lemma {:induction false} ReachablePlaced(S: Suite, events: seq<Event>)
    ensures Placed(After(S, events))
  {
    hide Next, Placed;
    if |events| == 0 {
      assert Placed(Empty) by { NothingPlaced(); }
    } else {
      ReachablePlaced(S, events[..|events| - 1]);
      NextKeepsPlaces(S, After(S, events[..|events| - 1]), events[|events| - 1]);
    }
  }

  lemma NothingPlaced()
    ensures Placed(Empty)
  {
  }

  /** No two sessions that are under way drew the same ephemeral key. */
  ghost predicate DistinctEphemerals(w: World) {
    && (forall i, j | 0 <= i < |w.ini| && 0 <= j < |w.ini| && w.ini[i].step > 0 && w.ini[j].step > 0
                      && w.ini[i].ctx.ephPk == w.ini[j].ctx.ephPk :: i == j)
    && (forall r, q | 0 <= r < |w.res| && 0 <= q < |w.res| && w.res[r].round == 1 && w.res[q].round == 1
                      && w.res[r].ctx.ephPk == w.res[q].ctx.ephPk :: r == q)
  }

  /** Injective agreement: with distinct ephemeral keys, all acceptances of an emitted message_3 belong to one responder
      session, and all emissions of an accepted one to one initiator session. */
  lemma {:induction false} InjectiveAgreement(S: Suite, events: seq<Event>, e: Emission, f: Emission, a: Acceptance, b: Acceptance)
    requires Lawful(S)
    requires var w := After(S, events);
             && NoCollisions(S, w.hashed) && DataBound(w.seals, w.opens) && DistinctEphemerals(w)
             && e in w.emitted && f in w.emitted && a in w.accepted && b in w.accepted && e.ct == f.ct == a.ct == b.ct
    ensures a.at == b.at && e.at == f.at
  {
    MatchingConversations(S, events, e, a);
    MatchingConversations(S, events, e, b);
    MatchingConversations(S, events, f, a);
    ReachablePlaced(S, events);
    hide After, NoCollisions, DataBound, Lawful;
  }
}
