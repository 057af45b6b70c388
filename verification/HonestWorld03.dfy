/** The honest exchange of methods 0 to 3 as a run of the many-session system: what the run records, and that the
    hypotheses of matching conversations can be met by a run in which a message_3 is emitted and accepted. */
module HonestWorld03 {
  import opened Primitives
  import opened Hkdf
  import opened Edhoc03
  import opened Edhoc03Runs

  function HonestEvents(S: Suite, meth: byte, ini: Creds, res: Creds, x: Bytes, y: Bytes, cap: nat): seq<Event> {
    var e := HonestExchange(S, meth, ini, res, x, y, cap);
    [NewInitiator(meth, ini, PublicOf(res)), NewResponder(res, PublicOf(ini)), Start(0, x, cap),
     Deliver1(0, e.m1.out, y, cap), Deliver2(0, e.m2.out, cap), Deliver3(0, e.m3.out)]
  }

  /** The two plaintexts of the honest exchange, in closed form. */
  function Pt2(S: Suite, e: Exchange): Bytes {
    BuildAuth(S, e.m2.ctx.selfAuth, e.m2.ctx.prk2e, e.m2.ctx.th2, e.m2.ctx.self, e.m2.ctx.peerEphPk, Zeros(32)).pt
  }

  function Pt3(S: Suite, e: Exchange): Bytes {
    BuildAuth(S, e.m1.ctx.selfAuth, e.m2.ctx.prk3e2m, e.m2.ctx.th3, e.m1.ctx.self, e.m2.ctx.ephPk, Zeros(32)).pt
  }

  /** What each side opens and builds in the honest exchange are those plaintexts. */
  lemma {:induction false} HonestPlaintexts(S: Suite, meth: byte, ini: Creds, res: Creds, x: Bytes, y: Bytes, cap: nat)
    requires Lawful(S) && MethodValid(meth) && WellFormed(S, ini) && WellFormed(S, res) && cap >= 147
    requires Succeeds(HonestExchange(S, meth, ini, res, x, y, cap))
    ensures var e := HonestExchange(S, meth, ini, res, x, y, cap);
            && |e.m1.out| == MSG1_LEN && |e.m2.out| > 48
            && Pt2Built(S, InitResponder(res, PublicOf(ini)), e.m1.out, y) == Pt2(S, e)
            && Pt2Opened(S, e.m3.ctx, e.m2.out) == Pt2(S, e)
            && Pt3Built(S, e.m1.ctx, e.m3.ctx) == Pt3(S, e) && Pt3Opened(S, e.m2.ctx, e.m3.out) == Pt3(S, e)
            && |Pt2(S, e)| == AuthLength(RespAuth(meth)) && |Pt3(S, e)| == AuthLength(InitAuth(meth))
  {
    hide Expand, Ascii, HandleMsg1, HandleMsg2, HandleMsg3, MakeMsg1;
    HonestFlight1(S, meth, ini, res, x, y, cap);
    var e := HonestExchange(S, meth, ini, res, x, y, cap);
    var r := e.m2.ctx;
    HonestMsg2Accepted(S, meth, e.m1.ctx, r, e.m2.out, Zeros(32), cap);
    BuiltLayout(S, RespAuth(meth), r.prk2e, r.th2, res, S.base(x), Zeros(32));
    BuiltLayout(S, InitAuth(meth), r.prk3e2m, r.th3, ini, r.ephPk, Zeros(32));
    Msg1Parts(S, meth, ini, res, x, y, cap);
  }

  lemma Msg1Parts(S: Suite, meth: byte, ini: Creds, res: Creds, x: Bytes, y: Bytes, cap: nat)
    requires Lawful(S) && MethodValid(meth) && cap >= 147
    ensures var m := MakeMsg1(S, InitInitiator(meth, ini, PublicOf(res)), x, cap);
            m.rc == OK && m.out == [meth] + S.base(x) + [0x10] && |m.out| == MSG1_LEN && m.out[0] == meth
            && m.out[1..33] == S.base(x) && m.ctx.hMsg1 == S.sha256(m.out)
  {
    assert ([meth] + S.base(x) + [0x10])[1..33] == S.base(x);
  }

  lemma AfterOneMore(S: Suite, events: seq<Event>, e: Event)
    ensures After(S, events + [e]) == Next(S, After(S, events), e)
  {
    hide Next;
    assert (events + [e])[..|events|] == events;
  }

  /** The world after the first four events: both contexts are those of the honest exchange. */
  function Halfway(S: Suite, meth: byte, ini: Creds, res: Creds, x: Bytes, y: Bytes, cap: nat): World {
    var e := HonestExchange(S, meth, ini, res, x, y, cap);
    var r, ct := e.m2.ctx, if |e.m2.out| < 32 then [] else e.m2.out[32..];
    World([ISession(e.m1.ctx, 1)], [RSession(r, 1, e.m1.out, Pt2(S, e))], {}, {},
          {} + {e.m1.out} + {e.m1.out, r.ephPk + r.hMsg1 + [r.cR], r.th2 + Pt2(S, e)}, {} + {Sealed(S, r.prk2e, r.th2, ct)}, {})
  }

  /** Two fresh sessions. */
  function Opened(meth: byte, ini: Creds, res: Creds): World {
    World([ISession(InitInitiator(meth, ini, PublicOf(res)), 0)],
          [RSession(InitResponder(res, PublicOf(ini)), 0, [], [])], {}, {}, {}, {}, {})
  }

  lemma TwoSessions(S: Suite, meth: byte, ini: Creds, res: Creds)
    requires WellFormed(S, ini) && WellFormed(S, res)
    ensures var a, b := NewInitiator(meth, ini, PublicOf(res)), NewResponder(res, PublicOf(ini));
            Next(S, Next(S, Empty, a), b) == Opened(meth, ini, res)
  {
    hide WellFormed, InitInitiator, InitResponder, PublicOf;
  }

  lemma StartStep(S: Suite, w: World, c: Ctx, rnd: Bytes, cap: nat)
    requires w.ini == [ISession(c, 0)] && MakeMsg1(S, c, rnd, cap).rc == OK
    ensures var m := MakeMsg1(S, c, rnd, cap);
            NextStart(S, w, 0, rnd, cap) == w.(ini := [ISession(m.ctx, 1)], hashed := w.hashed + {m.out})
  {
    hide MakeMsg1;
  }

  lemma Deliver1Step(S: Suite, w: World, self: Creds, peer: Peer, msg: Bytes, rnd: Bytes, cap: nat, pt2: Bytes)
    requires w.res == [RSession(InitResponder(self, peer), 0, [], [])] && |msg| == MSG1_LEN
    requires var m := HandleMsg1(S, InitResponder(self, peer), msg, rnd, cap); m.rc == OK && |m.out| >= 32
    requires Pt2Built(S, InitResponder(self, peer), msg, rnd) == pt2
    ensures var m := HandleMsg1(S, InitResponder(self, peer), msg, rnd, cap);
            NextDeliver1(S, w, 0, msg, rnd, cap)
            == w.(res := [RSession(m.ctx, 1, msg, pt2)],
                  hashed := w.hashed + {msg, m.ctx.ephPk + m.ctx.hMsg1 + [m.ctx.cR], m.ctx.th2 + pt2},
                  seals := w.seals + {Sealed(S, m.ctx.prk2e, m.ctx.th2, m.out[32..])})
  {
    hide HandleMsg1, Pt2Built, Sealed, Zeros;
  }

  lemma Deliver2Step(S: Suite, w: World, c: Ctx, msg: Bytes, cap: nat, pt2: Bytes, pt3: Bytes)
    requires w.ini == [ISession(c, 1)] && HandleMsg2(S, c, msg, cap).rc == OK && |msg| >= 32 && Msg2Fill(S, c, msg) <= PT_CAP
    requires var m := HandleMsg2(S, c, msg, cap); Pt2Opened(S, m.ctx, msg) == pt2 && Pt3Built(S, c, m.ctx) == pt3
    ensures var m := HandleMsg2(S, c, msg, cap);
            NextDeliver2(S, w, 0, msg, cap)
            == w.(ini := [ISession(m.ctx, 2)], emitted := w.emitted + {Emission(m.out, m.ctx, pt2, pt3, 0)},
                  hashed := w.hashed + {m.ctx.peerEphPk + m.ctx.hMsg1 + [m.ctx.cR], m.ctx.th2 + pt2, m.ctx.th3 + pt3},
                  opens := w.opens + {Sealed(S, m.ctx.prk2e, m.ctx.th2, msg[32..])},
                  seals := w.seals + {Sealed(S, m.ctx.prk3e2m, m.ctx.th3, m.out)})
  {
    hide HandleMsg2, Msg2Fill, Pt2Opened, Pt3Built, Sealed;
  }

  lemma Deliver3Step(S: Suite, w: World, s: RSession, msg: Bytes, pt3: Bytes)
    requires w.res == [s] && s.round == 1 && Msg3Fill(s.ctx, msg) <= PT_CAP
    requires HandleMsg3(S, s.ctx, msg).rc == OK && Pt3Opened(S, s.ctx, msg) == pt3
    ensures var m := HandleMsg3(S, s.ctx, msg);
            NextDeliver3(S, w, 0, msg)
            == w.(res := [s.(ctx := m.ctx)], accepted := w.accepted + {Acceptance(msg, m.ctx, s.msg1, s.pt2, pt3, 0)},
                  hashed := w.hashed + {m.ctx.th3 + pt3},
                  opens := w.opens + {Sealed(S, s.ctx.prk3e2m, s.ctx.th3, msg)})
  {
    hide HandleMsg3, Msg3Fill, Pt3Opened, Sealed;
  }

  /** The five results of the honest exchange, each with the call that made it. */
  lemma {:induction false} ExchangeCalls(S: Suite, meth: byte, ini: Creds, res: Creds, x: Bytes, y: Bytes, cap: nat)
    requires Lawful(S) && MethodValid(meth) && WellFormed(S, ini) && WellFormed(S, res) && cap >= 147
    requires Succeeds(HonestExchange(S, meth, ini, res, x, y, cap))
    ensures var e := HonestExchange(S, meth, ini, res, x, y, cap);
            && e.m1 == MakeMsg1(S, InitInitiator(meth, ini, PublicOf(res)), x, cap) && e.m1.rc == OK
            && e.m2 == HandleMsg1(S, InitResponder(res, PublicOf(ini)), e.m1.out, y, cap) && e.m2.rc == OK
            && e.m3 == HandleMsg2(S, e.m1.ctx, e.m2.out, cap) && e.m3.rc == OK
            && e.r == HandleMsg3(S, e.m2.ctx, e.m3.out) && e.r.rc == OK
  {
    hide HandleMsg1, HandleMsg2, HandleMsg3, MakeMsg1, Lawful, WellFormed, Agree;
    HonestRunAgrees(S, meth, ini, res, x, y, cap);
  }

  lemma {:induction false} FirstHalf(S: Suite, meth: byte, ini: Creds, res: Creds, x: Bytes, y: Bytes, cap: nat)
    requires Lawful(S) && MethodValid(meth) && WellFormed(S, ini) && WellFormed(S, res) && cap >= 147
    requires Succeeds(HonestExchange(S, meth, ini, res, x, y, cap))
    ensures var e := HonestExchange(S, meth, ini, res, x, y, cap);
            NextDeliver1(S, NextStart(S, Opened(meth, ini, res), 0, x, cap), 0, e.m1.out, y, cap)
            == Halfway(S, meth, ini, res, x, y, cap)
  {
    ExchangeCalls(S, meth, ini, res, x, y, cap);
    hide HandleMsg1, HandleMsg2, HandleMsg3, MakeMsg1, Lawful, WellFormed, Pt2Built, Pt2, Sealed;
    hide NextStart, NextDeliver1, Pt2Opened, Pt3Built, Pt3Opened, HonestExchange, InitInitiator, InitResponder, PublicOf;
    hide AuthLength, InitAuth, RespAuth;
    var e := HonestExchange(S, meth, ini, res, x, y, cap);
    assert |e.m1.out| == MSG1_LEN && |e.m2.out| > 48 && Pt2Built(S, InitResponder(res, PublicOf(ini)), e.m1.out, y) == Pt2(S, e) by {
      HonestPlaintexts(S, meth, ini, res, x, y, cap);
    }
    StartStep(S, Opened(meth, ini, res), InitInitiator(meth, ini, PublicOf(res)), x, cap);
    var w := NextStart(S, Opened(meth, ini, res), 0, x, cap);
    Deliver1Step(S, w, res, PublicOf(ini), e.m1.out, y, cap, Pt2(S, e));
  }

  /** The world after the honest exchange. */
  function Complete(S: Suite, meth: byte, ini: Creds, res: Creds, x: Bytes, y: Bytes, cap: nat): World {
    var e := HonestExchange(S, meth, ini, res, x, y, cap);
    var r, ct := e.m2.ctx, if |e.m2.out| < 32 then [] else e.m2.out[32..];
    var a, b := Sealed(S, r.prk2e, r.th2, ct), Sealed(S, r.prk3e2m, r.th3, e.m3.out);
    World([ISession(e.m3.ctx, 2)], [RSession(e.r.ctx, 1, e.m1.out, Pt2(S, e))],
          {} + {Emission(e.m3.out, e.m3.ctx, Pt2(S, e), Pt3(S, e), 0)},
          {} + {Acceptance(e.m3.out, e.r.ctx, e.m1.out, Pt2(S, e), Pt3(S, e), 0)},
          {} + {e.m1.out} + {e.m1.out, r.ephPk + r.hMsg1 + [r.cR], r.th2 + Pt2(S, e)}
          + {r.ephPk + r.hMsg1 + [r.cR], r.th2 + Pt2(S, e), r.th3 + Pt3(S, e)} + {r.th3 + Pt3(S, e)},
          {} + {a} + {b}, {} + {a} + {b})
  }

  lemma {:induction false} SecondHalf(S: Suite, meth: byte, ini: Creds, res: Creds, x: Bytes, y: Bytes, cap: nat)
    requires Lawful(S) && MethodValid(meth) && WellFormed(S, ini) && WellFormed(S, res) && cap >= 147
    requires Succeeds(HonestExchange(S, meth, ini, res, x, y, cap))
    ensures var e := HonestExchange(S, meth, ini, res, x, y, cap);
            NextDeliver3(S, NextDeliver2(S, Halfway(S, meth, ini, res, x, y, cap), 0, e.m2.out, cap), 0, e.m3.out)
            == Complete(S, meth, ini, res, x, y, cap)
  {
    ExchangeCalls(S, meth, ini, res, x, y, cap);
    KeptThrough(S, meth, ini, res, x, y, cap);
    HonestMessagesFit(S, meth, ini, res, x, y, cap);
    hide Msg2Fill, Msg3Fill;
    hide HandleMsg1, HandleMsg2, HandleMsg3, MakeMsg1, Lawful, WellFormed, Pt2Built, Pt2, Pt3, Sealed;
    hide NextDeliver2, NextDeliver3, Pt2Opened, Pt3Built, Pt3Opened, HonestExchange, InitInitiator, InitResponder, PublicOf;
    hide AuthLength, InitAuth, RespAuth;
    var e, w := HonestExchange(S, meth, ini, res, x, y, cap), Halfway(S, meth, ini, res, x, y, cap);
    assert |e.m2.out| > 48 && Pt2Opened(S, e.m3.ctx, e.m2.out) == Pt2(S, e) && Pt3Built(S, e.m1.ctx, e.m3.ctx) == Pt3(S, e)
           && Pt3Opened(S, e.m2.ctx, e.m3.out) == Pt3(S, e) by {
      HonestPlaintexts(S, meth, ini, res, x, y, cap);
    }
    TwoDeliveries(S, w, e.m1.ctx, w.res[0], e.m2.out, cap, Pt2(S, e), Pt3(S, e));
  }

  lemma TwoDeliveries(S: Suite, w: World, c: Ctx, s: RSession, msg2: Bytes, cap: nat, pt2: Bytes, pt3: Bytes)
    requires w.ini == [ISession(c, 1)] && w.res == [s] && s.round == 1 && |msg2| >= 32 && Msg2Fill(S, c, msg2) <= PT_CAP
    requires var m := HandleMsg2(S, c, msg2, cap);
             && m.rc == OK && Pt2Opened(S, m.ctx, msg2) == pt2 && Pt3Built(S, c, m.ctx) == pt3
             && Msg3Fill(s.ctx, m.out) <= PT_CAP && HandleMsg3(S, s.ctx, m.out).rc == OK && Pt3Opened(S, s.ctx, m.out) == pt3
    ensures var m := HandleMsg2(S, c, msg2, cap);
            var r := HandleMsg3(S, s.ctx, m.out);
            NextDeliver3(S, NextDeliver2(S, w, 0, msg2, cap), 0, m.out)
            == World([ISession(m.ctx, 2)], [s.(ctx := r.ctx)], w.emitted + {Emission(m.out, m.ctx, pt2, pt3, 0)},
                     w.accepted + {Acceptance(m.out, r.ctx, s.msg1, s.pt2, pt3, 0)},
                     w.hashed + {m.ctx.peerEphPk + m.ctx.hMsg1 + [m.ctx.cR], m.ctx.th2 + pt2, m.ctx.th3 + pt3} + {r.ctx.th3 + pt3},
                     w.seals + {Sealed(S, m.ctx.prk3e2m, m.ctx.th3, m.out)},
                     w.opens + {Sealed(S, m.ctx.prk2e, m.ctx.th2, msg2[32..])} + {Sealed(S, s.ctx.prk3e2m, s.ctx.th3, m.out)})
  {
    hide HandleMsg2, HandleMsg3, Msg2Fill, Msg3Fill, Pt2Opened, Pt3Built, Pt3Opened, Sealed, NextDeliver2, NextDeliver3;
    var m := HandleMsg2(S, c, msg2, cap);
    Deliver2Step(S, w, c, msg2, cap, pt2, pt3);
    Deliver3Step(S, NextDeliver2(S, w, 0, msg2, cap), s, m.out, pt3);
  }

  /** The transcript and keys that both ends of the honest exchange share after message_2, and still after message_3. */
  lemma {:induction false} KeptThrough(S: Suite, meth: byte, ini: Creds, res: Creds, x: Bytes, y: Bytes, cap: nat)
    requires Lawful(S) && MethodValid(meth) && WellFormed(S, ini) && WellFormed(S, res) && cap >= 147
    requires Succeeds(HonestExchange(S, meth, ini, res, x, y, cap))
    ensures var e := HonestExchange(S, meth, ini, res, x, y, cap);
            && e.r.ctx.th3 == e.m2.ctx.th3
            && e.m3.ctx.th2 == e.m2.ctx.th2 && e.m3.ctx.th3 == e.m2.ctx.th3 && e.m3.ctx.prk2e == e.m2.ctx.prk2e
            && e.m3.ctx.prk3e2m == e.m2.ctx.prk3e2m && e.m3.ctx.peerEphPk == e.m2.ctx.ephPk
            && e.m3.ctx.hMsg1 == e.m2.ctx.hMsg1 && e.m3.ctx.cR == e.m2.ctx.cR == 0x20
  {
    hide HandleMsg1, HandleMsg2, Expand, Ascii, Open, CheckAuth, BuildAuth, MakeMsg1;
    HonestFlight1(S, meth, ini, res, x, y, cap);
    var e := HonestExchange(S, meth, ini, res, x, y, cap);
    HonestMsg2Accepted(S, meth, e.m1.ctx, e.m2.ctx, e.m2.out, Zeros(32), cap);
  }

  /** The honest exchange is a run, and this is what it records. */
  lemma {:induction false} HonestRunIsRecorded(S: Suite, meth: byte, ini: Creds, res: Creds, x: Bytes, y: Bytes, cap: nat)
    requires Lawful(S) && MethodValid(meth) && WellFormed(S, ini) && WellFormed(S, res) && cap >= 147
    requires Succeeds(HonestExchange(S, meth, ini, res, x, y, cap))
    ensures After(S, HonestEvents(S, meth, ini, res, x, y, cap)) == Complete(S, meth, ini, res, x, y, cap)
  {
    FirstHalf(S, meth, ini, res, x, y, cap);
    SecondHalf(S, meth, ini, res, x, y, cap);
    hide *;
    var e := HonestExchange(S, meth, ini, res, x, y, cap);
    var es := HonestEvents(S, meth, ini, res, x, y, cap);
    EventsAre(S, meth, ini, res, x, y, cap);
    SixSteps(S, es);
    TwoSessions(S, meth, ini, res);
    FourDeliveries(S, Opened(meth, ini, res), x, y, cap, e.m1.out, e.m2.out, e.m3.out);
  }

  lemma EventsAre(S: Suite, meth: byte, ini: Creds, res: Creds, x: Bytes, y: Bytes, cap: nat)
    ensures var e, es := HonestExchange(S, meth, ini, res, x, y, cap), HonestEvents(S, meth, ini, res, x, y, cap);
            && |es| == 6 && es[0] == NewInitiator(meth, ini, PublicOf(res)) && es[1] == NewResponder(res, PublicOf(ini))
            && es[2] == Start(0, x, cap) && es[3] == Deliver1(0, e.m1.out, y, cap)
            && es[4] == Deliver2(0, e.m2.out, cap) && es[5] == Deliver3(0, e.m3.out)
  {
    hide HonestExchange, PublicOf;
  }

  lemma FourDeliveries(S: Suite, w: World, x: Bytes, y: Bytes, cap: nat, m1: Bytes, m2: Bytes, m3: Bytes)
    ensures Next(S, Next(S, Next(S, Next(S, w, Start(0, x, cap)), Deliver1(0, m1, y, cap)), Deliver2(0, m2, cap)), Deliver3(0, m3))
            == NextDeliver3(S, NextDeliver2(S, NextDeliver1(S, NextStart(S, w, 0, x, cap), 0, m1, y, cap), 0, m2, cap), 0, m3)
  {
    hide NextStart, NextDeliver1, NextDeliver2, NextDeliver3;
  }

  lemma {:induction false} SixSteps(S: Suite, es: seq<Event>)
    requires |es| == 6
    ensures After(S, es) == Next(S, Next(S, Next(S, Next(S, Next(S, Next(S, Empty, es[0]), es[1]), es[2]), es[3]), es[4]), es[5])
  {
    hide Next;
    assert es[..1] == [] + [es[0]] && es[..2] == es[..1] + [es[1]] && es[..3] == es[..2] + [es[2]];
    assert es[..4] == es[..3] + [es[3]] && es[..5] == es[..4] + [es[4]] && es == es[..5] + [es[5]];
    AfterOneMore(S, [], es[0]);
    AfterOneMore(S, es[..1], es[1]);
    AfterOneMore(S, es[..2], es[2]);
    AfterOneMore(S, es[..3], es[3]);
    AfterOneMore(S, es[..4], es[4]);
    AfterOneMore(S, es[..5], es[5]);
  }

  // ------------------------------------------------------------------ the hypotheses can be met

  /** A party of the plain suite. */
  function PlainCreds(): Creds { Creds(Zeros(3), Zeros(32), Zeros(32), Zeros(32), BASE_POINT) }

  /** The lengths of what the honest exchange hashes and seals. */
  lemma {:induction false} RecordedLengths(S: Suite, meth: byte, ini: Creds, res: Creds, x: Bytes, y: Bytes, cap: nat)
    requires Lawful(S) && MethodValid(meth) && WellFormed(S, ini) && WellFormed(S, res) && cap >= 147
    requires Succeeds(HonestExchange(S, meth, ini, res, x, y, cap))
    ensures var e := HonestExchange(S, meth, ini, res, x, y, cap);
            var r := e.m2.ctx;
            && |e.m1.out| == 34 && |r.ephPk + r.hMsg1 + [r.cR]| == 65
            && |r.th2 + Pt2(S, e)| == 32 + AuthLength(RespAuth(meth)) && |r.th3 + Pt3(S, e)| == 32 + AuthLength(InitAuth(meth))
            && |e.m2.out| == 48 + AuthLength(RespAuth(meth)) && |e.m3.out| == 16 + AuthLength(InitAuth(meth))
  {
    hide HandleMsg1, HandleMsg2, HandleMsg3, MakeMsg1, Expand, Ascii, Open, CheckAuth, BuildAuth, Agree, WellFormed;
    HonestFlight1(S, meth, ini, res, x, y, cap);
    HonestRunAgrees(S, meth, ini, res, x, y, cap);
    HonestPlaintexts(S, meth, ini, res, x, y, cap);
    Msg1Parts(S, meth, ini, res, x, y, cap);
  }

  lemma TwoBound(a: AeadCall, b: AeadCall, calls: set<AeadCall>)
    requires calls == {} + {a} + {b} && |a.ct| != |b.ct|
    ensures DataBound(calls, calls)
  {
  }

  lemma PlainParty()
    ensures Lawful(PlainSuite()) && WellFormed(PlainSuite(), PlainCreds())
    ensures Succeeds(HonestExchange(PlainSuite(), 1, PlainCreds(), PlainCreds(), Zeros(32), Zeros(32), 147))
  {
    PlainSuiteIsLawful();
    HonestOutcome(PlainSuite(), 1, PlainCreds(), PlainCreds(), Zeros(32), Zeros(32), 147);
    assert BASE_POINT[0] == 9;
    hide Lawful, HonestExchange;
  }

  /** Method 1 has a signing initiator and a static-key responder. */
  lemma Methods()
    ensures MethodValid(1) && AuthLength(RespAuth(1)) == 43 && AuthLength(InitAuth(1)) == 99
  {
  }

  /** When the two ends authenticate differently, the two ciphertexts of the honest run differ in length. */
  lemma {:induction false} MixedModes(S: Suite, meth: byte, ini: Creds, res: Creds, x: Bytes, y: Bytes, cap: nat)
    returns (e: Emission, a: Acceptance)
    requires Lawful(S) && MethodValid(meth) && WellFormed(S, ini) && WellFormed(S, res) && cap >= 147
    requires Succeeds(HonestExchange(S, meth, ini, res, x, y, cap)) && AuthLength(RespAuth(meth)) != AuthLength(InitAuth(meth))
    ensures var w := Complete(S, meth, ini, res, x, y, cap);
            var h := HonestExchange(S, meth, ini, res, x, y, cap);
            var r := h.m2.ctx;
            && DataBound(w.seals, w.opens) && e in w.emitted && a in w.accepted && e.ct == a.ct
            && w.hashed == {h.m1.out, r.ephPk + r.hMsg1 + [r.cR], r.th2 + Pt2(S, h), r.th3 + Pt3(S, h)}
  {
    RecordedLengths(S, meth, ini, res, x, y, cap);
    hide Lawful, WellFormed, HonestExchange, Pt2, Pt3, DataBound, AeadKey, AeadNonce, AuthLength, InitAuth, RespAuth;
    var h, w := HonestExchange(S, meth, ini, res, x, y, cap), Complete(S, meth, ini, res, x, y, cap);
    e := Emission(h.m3.out, h.m3.ctx, Pt2(S, h), Pt3(S, h), 0);
    a := Acceptance(h.m3.out, h.r.ctx, h.m1.out, Pt2(S, h), Pt3(S, h), 0);
    var r := h.m2.ctx;
    Merged(h.m1.out, r.ephPk + r.hMsg1 + [r.cR], r.th2 + Pt2(S, h), r.th3 + Pt3(S, h));
    TwoBound(Sealed(S, r.prk2e, r.th2, h.m2.out[32..]), Sealed(S, r.prk3e2m, r.th3, h.m3.out), w.seals);
  }

  lemma OneSessionEach(S: Suite, meth: byte, ini: Creds, res: Creds, x: Bytes, y: Bytes, cap: nat)
    ensures DistinctEphemerals(Complete(S, meth, ini, res, x, y, cap))
  {
    hide HonestExchange, Pt2, Pt3, AeadKey, AeadNonce;
  }

  /** Matching conversations is not vacuous: a lawful suite and a run exist that meet all its hypotheses. */
  lemma {:induction false} HypothesesCanBeMet() returns (S: Suite, events: seq<Event>, e: Emission, a: Acceptance)
    ensures Lawful(S)
    ensures var w := After(S, events);
            && NoCollisions(S, w.hashed) && DataBound(w.seals, w.opens) && DistinctEphemerals(w)
            && e in w.emitted && a in w.accepted && e.ct == a.ct
  {
    S := PlainSuite();
    var c, z := PlainCreds(), Zeros(32);
    PlainParty();
    hide *;
    HonestRunIsRecorded(S, 1, c, c, z, z, 147) by { Methods(); }
    events := HonestEvents(S, 1, c, c, z, z, 147);
    OneSessionEach(S, 1, c, c, z, z, 147);
    e, a := MixedModes(S, 1, c, c, z, z, 147) by { Methods(); }
    var x := HonestExchange(S, 1, c, c, z, z, 147);
    var r := x.m2.ctx;
    RecordedLengths(S, 1, c, c, z, z, 147) by { Methods(); }
    Methods();
    FourLengths(x.m1.out, r.ephPk + r.hMsg1 + [r.cR], r.th2 + Pt2(S, x), r.th3 + Pt3(S, x),
                Complete(S, 1, c, c, z, z, 147).hashed);
  }
}
