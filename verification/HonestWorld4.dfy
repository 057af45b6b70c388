/** The honest exchange of method 4 as a run of the many-session system: what the run records, and that the hypotheses
    of matching conversations can be met by a run that ends with message_4 accepted. */
module HonestWorld4 {
  import opened Primitives
  import opened Hkdf
  import opened XWing
  import opened Edhoc4
  import opened Edhoc4Runs
  import opened Edhoc4Honest

  /** What is built at one end is what is opened at the other. */
  ghost predicate SamePlaintexts(S: Suite, e: Exchange) {
    var i, r := e.m3.ctx, e.m2.ctx;
    && OpenedOrEmpty(S, i.ks.prk2e, i.th.th2, Drop(e.m2.out, XCT)) == BuiltOrEmpty(BuildPt2(S, r))
    && OpenedOrEmpty(S, r.ks.prk3e2m, r.th.th3, e.m3.out) == BuiltOrEmpty(BuildPt3(S, i))
    && |BuiltOrEmpty(BuildPt2(S, r))| == PT2_LEN && |BuiltOrEmpty(BuildPt3(S, i))| == PT3_LEN
  }

  /** The transcript, keys and names that both ends of the honest exchange hold. */
  ghost predicate SameKeys(S: Suite, e: Exchange) {
    var i, r, r4 := e.m3.ctx, e.m2.ctx, e.m4.ctx;
    && i.th.hMsg1 == S.sha256(e.m1.out) && i.th.th2 == r.th.th2 && i.th.th3 == r.th.th3
    && i.ks.prk2e == r.ks.prk2e && i.ks.prk3e2m == r.ks.prk3e2m && i.peer.idCred == r.self.idCred
    && |i.th.th2| == |i.th.th3| == |i.th.hMsg1| == HASH_LEN
    && |i.self.idCred| == |r.self.idCred| == ID_LEN && |i.next.pk| == XPK
    && r4.th.th3 == r.th.th3 && r4.ks.prk3e2m == r.ks.prk3e2m && r4.ks.prk4e3m == i.ks.prk4e3m && r4.th.th4 == i.th.th4
    && r4.peer.idCred == i.self.idCred && r4.peer.newPk == i.next.pk
    && e.i.ctx.ks == i.ks && e.i.ctx.th == i.th
  }

  /** The honest exchange stage by stage: the responder's context r2 after message_2 but for TH3, the initiator's i3
      after message_3 but for TH4 and the keys, and the two plaintexts. */
  ghost predicate Stages(S: Suite, e: Exchange, r2: Ctx, pt2: Bytes, i3: Ctx, pt3: Bytes) {
    && r2.cR == 0x20 && |r2.ctA| == XCT && |i3.next.pk| == XPK && e.m1.ctx.th.hMsg1 == S.sha256(e.m1.out)
    && (exists ct: Bytes :: r2.th.th2 == Th2(S, S.sha256(e.m1.out), ct, 0x20))
    && BuildPt2(S, r2) == Some(pt2) && e.m2.ctx == r2.(th := r2.th.(th3 := ThNext(S, r2.th.th2, pt2)))
    && |e.m2.out| == 6000 && Seal(S, r2.ks.prk2e, r2.th.th2, pt2) == Some(e.m2.out[1120..])
    && (exists ssA, k :: i3 == I3(S, I2(S, e.m1.ctx, r2), pt2, ssA, k))
    && BuildPt3(S, i3) == Some(pt3) && e.m3.ctx == I4(S, i3, pt3)
    && Seal(S, i3.ks.prk3e2m, i3.th.th3, pt3) == Some(e.m3.out)
    && (var r3 := R3(S, e.m2.ctx, i3);
        exists k :: e.m4.ctx == DeriveMsk(S, r3.(th := r3.th.(th4 := ThNext(S, r3.th.th3, pt3)))).(next := k))
    && e.m4.ctx.ks.prk4e3m == i3.ks.prk4e3m
  }

  lemma {:induction false} HonestStages(S: Suite, ini: Creds, res: Creds, d: Draws, cap: nat)
    returns (e: Exchange, r2: Ctx, pt2: Bytes, i3: Ctx, pt3: Bytes)
    requires GoesThrough(S, ini, res, d, cap)
    ensures HonestExchange(S, ini, res, d, cap) == Some(e) && e.m1.ctx.self == ini && r2.self == res
    ensures Stages(S, e, r2, pt2, i3, pt3)
  {
    e := HonestExchange(S, ini, res, d, cap).value;
    r2, pt2, i3, pt3 := Stage3(S, ini, res, d, cap, e);
    Msg4Succeeds(S, R3(S, e.m2.ctx, i3), pt3, d.nextR, cap);
    hide Expand, HonestExchange, EmitMsg4, Keypair, BuildPt2, BuildPt3, Th2, ThNext, Extract, Ascii, Seal, Lawful, WellFormed,
         DeriveMsk, I3, I4;
  }

  lemma SameBuild3(S: Suite, c: Ctx, d: Ctx)
    ensures c.ks.prk4e3m == d.ks.prk4e3m && c.th.th3 == d.th.th3 && c.self == d.self && c.next == d.next
            ==> BuildPt3(S, c) == BuildPt3(S, d)
  {
  }

  lemma FinalContexts(S: Suite, i3: Ctx, pt3: Bytes, r3: Ctx, k: KemPair)
    ensures var i, r := I4(S, i3, pt3), DeriveMsk(S, r3.(th := r3.th.(th4 := ThNext(S, r3.th.th3, pt3)))).(next := k);
            && i.ks.prk2e == i3.ks.prk2e && i.ks.prk3e2m == i3.ks.prk3e2m && i.ks.prk4e3m == i3.ks.prk4e3m
            && i.th == i3.th.(th4 := ThNext(S, i3.th.th3, pt3)) && i.self == i3.self && i.next == i3.next && i.peer == i3.peer
            && r.ks.prk3e2m == r3.ks.prk3e2m && r.ks.prk4e3m == r3.ks.prk4e3m && r.peer == r3.peer && r.next == k
            && r.th == r3.th.(th4 := ThNext(S, r3.th.th3, pt3))
  {
    hide Expand, ThNext;
  }

  lemma {:induction false} StagesShareKeys(S: Suite, e: Exchange, r2: Ctx, pt2: Bytes, i3: Ctx, pt3: Bytes)
    requires LawfulHash(S) && Stages(S, e, r2, pt2, i3, pt3)
    requires |e.m1.ctx.self.idCred| == |r2.self.idCred| == ID_LEN
    requires e.i.ctx.ks == e.m3.ctx.ks && e.i.ctx.th == e.m3.ctx.th
    ensures SameKeys(S, e)
  {
    hide Expand, BuildPt2, BuildPt3, Seal, DeriveMsk, I4;
    var r3 := R3(S, e.m2.ctx, i3);
    var k :| e.m4.ctx == DeriveMsk(S, r3.(th := r3.th.(th4 := ThNext(S, r3.th.th3, pt3)))).(next := k);
    FinalContexts(S, i3, pt3, r3, k);
  }

  lemma {:induction false} StagesSharePlaintexts(S: Suite, e: Exchange, r2: Ctx, pt2: Bytes, i3: Ctx, pt3: Bytes)
    requires Lawful(S) && Stages(S, e, r2, pt2, i3, pt3) && WellFormed(S, r2.self) && WellFormed(S, i3.self) && SameKeys(S, e)
    ensures SamePlaintexts(S, e)
  {
    BuiltPt2Layout(S, r2);
    BuiltPt3Layout(S, i3);
    SealOpens(S, r2.ks.prk2e, r2.th.th2, pt2);
    SealOpens(S, i3.ks.prk3e2m, i3.th.th3, pt3);
    Edhoc4Honest.SameBuild(S, e.m2.ctx, r2);
    SameBuild3(S, e.m3.ctx, i3);
    hide Expand, BuildPt2, BuildPt3, Seal, Open, Mac, SigMessage, DeriveMsk, Lawful, I4, ThNext, Th2, WellFormed, Extract;
    FinalContexts(S, i3, pt3, i3, i3.next);
  }

  lemma {:induction false} HonestShares(S: Suite, ini: Creds, res: Creds, d: Draws, cap: nat)
    requires GoesThrough(S, ini, res, d, cap)
    ensures var e := HonestExchange(S, ini, res, d, cap); e.Some? && SameKeys(S, e.value) && SamePlaintexts(S, e.value)
  {
    var e, r2, pt2, i3, pt3 := HonestStages(S, ini, res, d, cap);
    Msg4Closes(S, ini, res, d, cap);
    assert i3.self == e.m1.ctx.self by {
      hide LawfulAead, LawfulDh, LawfulKem, WellFormed, BuildPt2, BuildPt3, Seal, DeriveMsk, ThNext, Th2, I4;
    }
    hide Stages, SameKeys, SamePlaintexts, HonestExchange;
    StagesShareKeys(S, e, r2, pt2, i3, pt3);
    StagesSharePlaintexts(S, e, r2, pt2, i3, pt3);
  }

  lemma Msg4Closes(S: Suite, ini: Creds, res: Creds, d: Draws, cap: nat)
    ensures var e := HonestExchange(S, ini, res, d, cap);
            e.Some? ==> e.value.i.ctx.ks == e.value.m3.ctx.ks && e.value.i.ctx.th == e.value.m3.ctx.th
  {
    hide MakeMsg1, HandleMsg1, HandleMsg2, HandleMsg3, Open, Sized, InitInitiator, InitResponder;
  }

  // ------------------------------------------------------------------ one session of each kind

  lemma StartStep(S: Suite, w: World, c: Ctx, key: Coins, enc: Coins, cap: nat)
    requires Sized(c) && |key.x| == X_LEN && w.ini == [ISession(c, 0, NoHistory)] && MakeMsg1(S, c, key, enc, cap).rc == OK
    ensures var m := MakeMsg1(S, c, key, enc, cap);
            NextStart(S, w, 0, key, enc, cap)
            == w.(ini := [ISession(m.ctx, 1, NoHistory.(msg1 := m.out))], hashed := w.hashed + {m.out})
  {
    hide MakeMsg1, Sized;
  }

  lemma Deliver1Step(S: Suite, w: World, self: Creds, pk: Bytes, msg: Bytes, encE: Coins, encA: Coins, cap: nat)
    requires Sized(InitResponder(self, pk)) && w.res == [RSession(InitResponder(self, pk), 0, NoHistory)]
    requires Msg1Fill(S, InitResponder(self, pk), msg) <= PT1_CAP
    requires HandleMsg1(S, InitResponder(self, pk), msg, encE, encA, cap).rc == OK
    ensures var m := HandleMsg1(S, InitResponder(self, pk), msg, encE, encA, cap);
            var h := History(msg, Take(m.out, XCT), BuiltOrEmpty(BuildPt2(S, m.ctx)), []);
            NextDeliver1(S, w, 0, msg, encE, encA, cap)
            == w.(res := [RSession(m.ctx, 1, h)],
                  hashed := w.hashed + {msg, S.sha256(msg) + h.cte + [0x20], m.ctx.th.th2 + h.pt2},
                  macs := w.macs + {MacCall(m.ctx.ks.prk3e2m, MacInfo(m.ctx.th.th2, m.ctx.self.idCred, []))},
                  seals := w.seals + {Call(S, m.ctx.ks.prk2e, m.ctx.th.th2, Drop(m.out, XCT))})
  {
    hide HandleMsg1, Msg1Fill, BuildPt2, Call, Sized, Zeros;
  }

  lemma Deliver2Step(S: Suite, w: World, c: Ctx, msg1: Bytes, msg: Bytes, key: Coins, cap: nat, h: History)
    requires Sized(c) && |key.x| == X_LEN && w.ini == [ISession(c, 1, NoHistory.(msg1 := msg1))]
    requires Msg2Fill(S, c, msg) <= PT2_CAP
    requires var m := HandleMsg2(S, c, msg, key, cap);
             && m.rc == OK
             && h == History(msg1, Take(msg, XCT), OpenedOrEmpty(S, m.ctx.ks.prk2e, m.ctx.th.th2, Drop(msg, XCT)),
                             BuiltOrEmpty(BuildPt3(S, m.ctx)))
    ensures var m := HandleMsg2(S, c, msg, key, cap);
            var d := m.ctx;
            NextDeliver2(S, w, 0, msg, key, cap)
            == w.(ini := [ISession(d, 2, h)], sent3 := w.sent3 + {Sent(m.out, d, h, 0)},
                  hashed := w.hashed + {d.th.hMsg1 + h.cte + [0x20], d.th.th2 + h.pt2, d.th.th3 + h.pt3},
                  macs := w.macs + {MacCall(d.ks.prk3e2m, MacInfo(d.th.th2, d.peer.idCred, [])),
                                    MacCall(d.ks.prk4e3m, MacInfo(d.th.th3, d.self.idCred, d.next.pk))},
                  opens := w.opens + {Call(S, d.ks.prk2e, d.th.th2, Drop(msg, XCT))},
                  seals := w.seals + {Call(S, d.ks.prk3e2m, d.th.th3, m.out)})
  {
    hide HandleMsg2, Msg2Fill, BuildPt3, OpenedOrEmpty, Call, Sized;
  }

  lemma Deliver3Step(S: Suite, w: World, c: Ctx, h0: History, msg: Bytes, key: Coins, cap: nat, h: History)
    requires w.res == [RSession(c, 1, h0)] && HandleMsg3(S, c, msg, key, cap).rc == OK && Msg3Fill(c, msg) <= PT3_CAP
    requires h == h0.(pt3 := OpenedOrEmpty(S, c.ks.prk3e2m, c.th.th3, msg))
    ensures var m := HandleMsg3(S, c, msg, key, cap);
            var d := m.ctx;
            NextDeliver3(S, w, 0, msg, key, cap)
            == w.(res := [RSession(d, 2, h)], took3 := w.took3 + {Sent(msg, d, h, 0)}, sent4 := w.sent4 + {Sent(m.out, d, h, 0)},
                  hashed := w.hashed + {d.th.th3 + h.pt3},
                  macs := w.macs + {MacCall(d.ks.prk4e3m, MacInfo(d.th.th3, d.peer.idCred, d.peer.newPk))},
                  opens := w.opens + {Call(S, d.ks.prk3e2m, d.th.th3, msg)},
                  seals := w.seals + {Call(S, d.ks.prk4e3m, d.th.th4, m.out)})
  {
    hide HandleMsg3, Msg3Fill, OpenedOrEmpty, Call;
  }

  lemma Deliver4Step(S: Suite, w: World, c: Ctx, h: History, msg: Bytes)
    requires w.ini == [ISession(c, 2, h)] && HandleMsg4(S, c, msg).rc == OK && Msg4Fill(c, msg) <= PT4_CAP
    ensures var d := HandleMsg4(S, c, msg).ctx;
            NextDeliver4(S, w, 0, msg)
            == w.(ini := [ISession(d, 3, h)], took4 := w.took4 + {Sent(msg, d, h, 0)},
                  opens := w.opens + {Call(S, d.ks.prk4e3m, d.th.th4, msg)})
  {
    hide HandleMsg4, Msg4Fill, Call;
  }

  // ------------------------------------------------------------------ the run

  function HonestEvents(ini: Creds, res: Creds, d: Draws, cap: nat, e: Exchange): seq<Event> {
    [NewInitiator(ini, res.kemPk), NewResponder(res, ini.kemPk), Start(0, d.eph, d.encB, cap),
     Deliver1(0, e.m1.out, d.encE, d.encA, cap), Deliver2(0, e.m2.out, d.nextI, cap),
     Deliver3(0, e.m3.out, d.nextR, cap), Deliver4(0, e.m4.out)]
  }

  /** The whole conversation of the honest exchange. */
  function Story(S: Suite, e: Exchange): History {
    History(e.m1.out, Take(e.m2.out, XCT), BuiltOrEmpty(BuildPt2(S, e.m2.ctx)), BuiltOrEmpty(BuildPt3(S, e.m3.ctx)))
  }

  /** The world after the honest exchange. */
  function Complete(S: Suite, e: Exchange): World {
    var i, r, h := e.m3.ctx, e.m2.ctx, Story(S, e);
    var a := Call(S, r.ks.prk2e, r.th.th2, Drop(e.m2.out, XCT));
    var b := Call(S, r.ks.prk3e2m, r.th.th3, e.m3.out);
    var c := Call(S, i.ks.prk4e3m, i.th.th4, e.m4.out);
    var k2 := MacCall(r.ks.prk3e2m, MacInfo(r.th.th2, r.self.idCred, []));
    var k3 := MacCall(i.ks.prk4e3m, MacInfo(i.th.th3, i.self.idCred, i.next.pk));
    World([ISession(e.i.ctx, 3, h)], [RSession(e.m4.ctx, 2, h)],
          {} + {Sent(e.m3.out, i, h, 0)}, {} + {Sent(e.m3.out, e.m4.ctx, h, 0)},
          {} + {Sent(e.m4.out, e.m4.ctx, h, 0)}, {} + {Sent(e.m4.out, e.i.ctx, h, 0)},
          {} + {h.msg1} + {h.msg1, S.sha256(h.msg1) + h.cte + [0x20], r.th.th2 + h.pt2}
          + {S.sha256(h.msg1) + h.cte + [0x20], r.th.th2 + h.pt2, i.th.th3 + h.pt3} + {i.th.th3 + h.pt3},
          {} + {k2} + {k2, k3} + {k3}, {} + {a} + {b} + {c}, {} + {a} + {b} + {c})
  }

  /** Two fresh sessions. */
  function Opened(ini: Creds, res: Creds): World {
    Empty.(ini := [ISession(InitInitiator(ini, res.kemPk), 0, NoHistory)],
           res := [RSession(InitResponder(res, ini.kemPk), 0, NoHistory)])
  }

  lemma {:induction false} ExchangeCalls(S: Suite, ini: Creds, res: Creds, d: Draws, cap: nat)
    requires GoesThrough(S, ini, res, d, cap)
    ensures HonestExchange(S, ini, res, d, cap).Some?
    ensures var e, i0, r0 := HonestExchange(S, ini, res, d, cap).value, InitInitiator(ini, res.kemPk), InitResponder(res, ini.kemPk);
            && Sized(i0) && e.m1 == MakeMsg1(S, i0, d.eph, d.encB, cap) && e.m1.rc == OK && Sized(e.m1.ctx)
            && Sized(r0) && e.m2 == HandleMsg1(S, r0, e.m1.out, d.encE, d.encA, cap) && e.m2.rc == OK
            && e.m3 == HandleMsg2(S, e.m1.ctx, e.m2.out, d.nextI, cap) && e.m3.rc == OK
            && e.m4 == HandleMsg3(S, e.m2.ctx, e.m3.out, d.nextR, cap) && e.m4.rc == OK
            && e.i == HandleMsg4(S, e.m3.ctx, e.m4.out) && e.i.rc == OK
            && |d.eph.x| == X_LEN && |d.nextI.x| == X_LEN && |ini.kemPk| == XPK && |res.kemPk| == XPK
  {
    HonestRunAgrees(S, ini, res, d, cap);
    hide MakeMsg1, HandleMsg1, HandleMsg2, HandleMsg3, HandleMsg4, Sized, Lawful, WellFormed, Agree, InitInitiator, InitResponder;
  }

  lemma {:induction false} StepsComplete(S: Suite, ini: Creds, res: Creds, d: Draws, cap: nat, e: Exchange, w: World)
    requires GoesThrough(S, ini, res, d, cap)
    requires HonestExchange(S, ini, res, d, cap) == Some(e)
    requires w == Opened(ini, res)
    ensures var w1 := NextDeliver1(S, NextStart(S, w, 0, d.eph, d.encB, cap), 0, e.m1.out, d.encE, d.encA, cap);
            var w2 := NextDeliver3(S, NextDeliver2(S, w1, 0, e.m2.out, d.nextI, cap), 0, e.m3.out, d.nextR, cap);
            NextDeliver4(S, w2, 0, e.m4.out) == Complete(S, e)
  {
    ExchangeCalls(S, ini, res, d, cap);
    HonestShares(S, ini, res, d, cap);
    HonestMessagesFit(S, ini, res, d, cap, e);
    hide Msg1Fill, Msg2Fill, Msg3Fill, Msg4Fill;
    hide MakeMsg1, HandleMsg1, HandleMsg2, HandleMsg3, HandleMsg4, Sized, Lawful, WellFormed, HonestExchange;
    hide NextStart, NextDeliver1, NextDeliver2, NextDeliver3, NextDeliver4, InitInitiator, InitResponder, Call, BuildPt2, BuildPt3,
         OpenedOrEmpty, MacInfo, Take, Drop, Zeros;
    StartStep(S, w, InitInitiator(ini, res.kemPk), d.eph, d.encB, cap);
    var wa := NextStart(S, w, 0, d.eph, d.encB, cap);
    Deliver1Step(S, wa, res, ini.kemPk, e.m1.out, d.encE, d.encA, cap);
    var wb := NextDeliver1(S, wa, 0, e.m1.out, d.encE, d.encA, cap);
    Deliver2Step(S, wb, e.m1.ctx, e.m1.out, e.m2.out, d.nextI, cap, Story(S, e));
    var wc := NextDeliver2(S, wb, 0, e.m2.out, d.nextI, cap);
    Deliver3Step(S, wc, e.m2.ctx, wb.res[0].h, e.m3.out, d.nextR, cap, Story(S, e));
    var wd := NextDeliver3(S, wc, 0, e.m3.out, d.nextR, cap);
    Deliver4Step(S, wd, e.m3.ctx, Story(S, e), e.m4.out);
  }

  lemma AfterOneMore(S: Suite, events: seq<Event>, e: Event)
    ensures After(S, events + [e]) == Next(S, After(S, events), e)
  {
    hide Next;
    assert (events + [e])[..|events|] == events;
  }

  lemma {:induction false} SevenSteps(S: Suite, es: seq<Event>)
    requires |es| == 7
    ensures After(S, es)
         == Next(S, Next(S, Next(S, Next(S, Next(S, Next(S, Next(S, Empty, es[0]), es[1]), es[2]), es[3]), es[4]), es[5]), es[6])
  {
    hide Next;
    assert es[..1] == [] + [es[0]] && es[..2] == es[..1] + [es[1]] && es[..3] == es[..2] + [es[2]];
    assert es[..4] == es[..3] + [es[3]] && es[..5] == es[..4] + [es[4]] && es[..6] == es[..5] + [es[5]];
    assert es == es[..6] + [es[6]];
    AfterOneMore(S, [], es[0]);
    AfterOneMore(S, es[..1], es[1]);
    AfterOneMore(S, es[..2], es[2]);
    AfterOneMore(S, es[..3], es[3]);
    AfterOneMore(S, es[..4], es[4]);
    AfterOneMore(S, es[..5], es[5]);
    AfterOneMore(S, es[..6], es[6]);
  }

  lemma TwoSessions(S: Suite, ini: Creds, res: Creds)
    requires WellFormed(S, ini) && WellFormed(S, res) && |ini.kemPk| == XPK && |res.kemPk| == XPK
    ensures Next(S, Next(S, Empty, NewInitiator(ini, res.kemPk)), NewResponder(res, ini.kemPk)) == Opened(ini, res)
  {
    hide WellFormed, InitInitiator, InitResponder;
  }

  lemma FiveDeliveries(S: Suite, w: World, d: Draws, cap: nat, e: Exchange)
    ensures Next(S, Next(S, Next(S, Next(S, Next(S, w, Start(0, d.eph, d.encB, cap)),
                                       Deliver1(0, e.m1.out, d.encE, d.encA, cap)), Deliver2(0, e.m2.out, d.nextI, cap)),
                         Deliver3(0, e.m3.out, d.nextR, cap)), Deliver4(0, e.m4.out))
         == (var w1 := NextDeliver1(S, NextStart(S, w, 0, d.eph, d.encB, cap), 0, e.m1.out, d.encE, d.encA, cap);
             var w2 := NextDeliver3(S, NextDeliver2(S, w1, 0, e.m2.out, d.nextI, cap), 0, e.m3.out, d.nextR, cap);
             NextDeliver4(S, w2, 0, e.m4.out))
  {
    hide NextStart, NextDeliver1, NextDeliver2, NextDeliver3, NextDeliver4;
  }

  /** The honest exchange is a run, and this is what it records. */
  lemma {:induction false} HonestRunIsRecorded(S: Suite, ini: Creds, res: Creds, d: Draws, cap: nat) returns (e: Exchange)
    requires GoesThrough(S, ini, res, d, cap)
    ensures HonestExchange(S, ini, res, d, cap) == Some(e)
    ensures After(S, HonestEvents(ini, res, d, cap, e)) == Complete(S, e)
  {
    ExchangeCalls(S, ini, res, d, cap);
    e := HonestExchange(S, ini, res, d, cap).value;
    StepsComplete(S, ini, res, d, cap, e, Opened(ini, res));
    TwoSessions(S, ini, res);
    FiveDeliveries(S, Opened(ini, res), d, cap, e);
    var es := HonestEvents(ini, res, d, cap, e);
    SevenSteps(S, es);
    hide After, Next, Complete, HonestExchange, Opened, NextStart, NextDeliver1, NextDeliver2, NextDeliver3, NextDeliver4;
  }

  // ------------------------------------------------------------------ the hypotheses can be met

  lemma ThreeBound(a: AeadCall, b: AeadCall, c: AeadCall, calls: set<AeadCall>)
    requires calls == {} + {a} + {b} + {c} && |a.ct| != |b.ct| && |b.ct| != |c.ct| && |a.ct| != |c.ct|
    ensures DataBound(calls, calls)
  {
  }

  lemma TwoMacs(S: Suite, a: MacCall, b: MacCall, macs: set<MacCall>)
    requires macs == {} + {a} + {a, b} + {b} && |a.info| != |b.info|
    ensures MacsBound(S, macs)
  {
    hide Expand;
  }

  /** The honest run seals three ciphertexts and computes two MACs, all of different lengths. */
  lemma {:induction false} HonestRunIsBound(S: Suite, ini: Creds, res: Creds, d: Draws, cap: nat, e: Exchange)
    requires GoesThrough(S, ini, res, d, cap)
    requires HonestExchange(S, ini, res, d, cap) == Some(e)
    ensures var w, h := Complete(S, e), Story(S, e);
            var b, c, d := S.sha256(h.msg1) + h.cte + [0x20], e.m2.ctx.th.th2 + h.pt2, e.m3.ctx.th.th3 + h.pt3;
            && MacsBound(S, w.macs) && DataBound(w.seals, w.opens) && w.hashed == {h.msg1, b, c, d}
            && |h.msg1| == 2354 && |b| == 1153 && |c| == 4896 && |d| == 4991
  {
    HonestRunAgrees(S, ini, res, d, cap);
    HonestShares(S, ini, res, d, cap);
    hide HonestExchange, WellFormed, Agree, BuildPt2, BuildPt3, DataBound, MacsBound, AeadKey, AeadNonce,
         LawfulAead, LawfulDh, LawfulSig, LawfulKem, OpenedOrEmpty, Expand;
    var i, r, h, w := e.m3.ctx, e.m2.ctx, Story(S, e), Complete(S, e);
    Merged(h.msg1, S.sha256(h.msg1) + h.cte + [0x20], r.th.th2 + h.pt2, i.th.th3 + h.pt3);
    ThreeBound(Call(S, r.ks.prk2e, r.th.th2, Drop(e.m2.out, XCT)), Call(S, r.ks.prk3e2m, r.th.th3, e.m3.out),
               Call(S, i.ks.prk4e3m, i.th.th4, e.m4.out), w.seals);
    TwoMacs(S, MacCall(r.ks.prk3e2m, MacInfo(r.th.th2, r.self.idCred, [])),
            MacCall(i.ks.prk4e3m, MacInfo(i.th.th3, i.self.idCred, i.next.pk)), w.macs);
  }

  /** A party of the plain suite, with the key pair that suite generates. */
  function PlainCreds(): Creds {
    Creds(Zeros(2400) + Zeros(32), Zeros(1184) + BASE_POINT, Zeros(32), Zeros(1312), Zeros(3))
  }

  function PlainDraws(): Draws {
    var c := Coins([], Zeros(32));
    Draws(c, c, c, c, c, c)
  }

  lemma PlainParty()
    ensures Lawful(PlainSuite()) && GoesThrough(PlainSuite(), PlainCreds(), PlainCreds(), PlainDraws(), 8192)
  {
    PlainSuiteIsLawful();
    PlainKem();
    PlainNeverFails(PlainCreds().sigSk);
    hide PlainSuite, Lawful, WellFormed, HonestExchange, Keypair, Encaps, IsPair, SignFails, SealFails;
    var S, c, d := PlainSuite(), PlainCreds(), PlainDraws();
    var e := HonestOutcome(S, c, c, d, 8192);
  }

  lemma PlainNeverFails(sk: Bytes)
    ensures !SignFails(PlainSuite(), sk) && !SealFails(PlainSuite())
  {
  }

  /** Key generation and encapsulation succeed in the plain suite. */
  lemma PlainKem()
    ensures var S, c := PlainSuite(), PlainCreds();
            && WellFormed(S, c) && Keypair(S, Coins([], Zeros(32))).Some?
            && forall pk | |pk| == XPK && pk[MLKEM_PK..] != LOW_POINT :: Encaps(S, pk, Coins([], Zeros(32))).Some?
    ensures PlainCreds().kemPk[MLKEM_PK..] == BASE_POINT != LOW_POINT
    ensures Keypair(PlainSuite(), Coins([], Zeros(32))).value.pk == PlainCreds().kemPk
  {
    hide Combine;
    var c := PlainCreds();
    assert BASE_POINT[0] == 9;
    assert Keypair(PlainSuite(), Coins([], Zeros(32))) == Some(KemPair(c.kemPk, c.kemSk));
    assert IsPair(PlainSuite(), c.kemPk, c.kemSk);
  }

  lemma IsIdeal(S: Suite, w: World)
    requires NoCollisions(S, w.hashed) && MacsBound(S, w.macs) && DataBound(w.seals, w.opens)
    ensures Ideal(S, w)
  {
    hide NoCollisions, MacsBound, DataBound;
  }

  lemma OneSessionEach(S: Suite, x: Exchange)
    ensures DistinctEphemerals(Complete(S, x))
  {
    hide Story, Call, BuildPt2, BuildPt3;
  }

  lemma RecordedMessages(S: Suite, x: Exchange) returns (e3: Sent, a3: Sent, e4: Sent, a4: Sent)
    ensures var w := Complete(S, x);
            && e3 in w.sent3 && a3 in w.took3 && e3.ct == a3.ct && e4 in w.sent4 && a4 in w.took4 && e4.ct == a4.ct
  {
    hide Story, BuildPt2, BuildPt3, AeadKey, AeadNonce;
    var h := Story(S, x);
    e3, a3 := Sent(x.m3.out, x.m3.ctx, h, 0), Sent(x.m3.out, x.m4.ctx, h, 0);
    e4, a4 := Sent(x.m4.out, x.m4.ctx, h, 0), Sent(x.m4.out, x.i.ctx, h, 0);
  }

  /** Matching conversations is not vacuous: a lawful suite and a run exist that meet all its hypotheses, with message_3
      accepted by the responder and message_4 by the initiator. */
  lemma {:induction false} HypothesesCanBeMet() returns (S: Suite, events: seq<Event>, e3: Sent, a3: Sent, e4: Sent, a4: Sent)
    ensures Lawful(S) && Ideal(S, After(S, events)) && DistinctEphemerals(After(S, events))
    ensures var w := After(S, events);
            && e3 in w.sent3 && a3 in w.took3 && e3.ct == a3.ct && e4 in w.sent4 && a4 in w.took4 && e4.ct == a4.ct
  {
    S := PlainSuite();
    var c, d := PlainCreds(), PlainDraws();
    PlainParty();
    hide *;
    var x := HonestRunIsRecorded(S, c, c, d, 8192);
    events := HonestEvents(c, c, d, 8192, x);
    e3, a3, e4, a4 := RecordedMessages(S, x);
    HonestRunIsBound(S, c, c, d, 8192, x);
    var h := Story(S, x);
    FourLengths(S.sha256(h.msg1) + h.cte + [0x20], h.msg1, x.m2.ctx.th.th2 + h.pt2, x.m3.ctx.th.th3 + h.pt3,
                Complete(S, x).hashed);
    IsIdeal(S, Complete(S, x));
    OneSessionEach(S, x);
  }
}
