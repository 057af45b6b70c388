/** Matching conversations of method 4 over every run, for message_3 towards the responder and message_4 back to the
    initiator.  Static KEM keys are not in the transcript, so key agreement rests on the 8-byte MACs: the hypothesis
    is that, in the run, no two different PRKs give the same MAC on the same input. */
module Edhoc4Runs {
  import opened Primitives
  import opened Hkdf
  import opened XWing
  import opened Edhoc4

  /** The conversation one end has seen. */
  datatype History = History(msg1: Bytes, cte: Bytes, pt2: Bytes, pt3: Bytes)

  datatype MacCall = MacCall(prk: Bytes, info: Bytes)

  ghost predicate MacsBound(S: Suite, macs: set<MacCall>) {
    forall x, y | x in macs && y in macs && x.info == y.info
                  && Expand(S, x.prk, x.info, MAC_LEN) == Expand(S, y.prk, y.info, MAC_LEN) :: x.prk == y.prk
  }

  /** Same transcript hashes and keys, each end names the other, and the responder holds the initiator's next key. */
  ghost predicate Agree(i: Ctx, r: Ctx) {
    && i.eph.pk == r.eph.pk && i.ctA == r.ctA && i.cR == r.cR && i.ss.e == r.ss.e
    && i.th.th1 == r.th.th1 && i.th.th2 == r.th.th2 && i.th.th3 == r.th.th3 && i.th.th4 == r.th.th4
    && i.ks.prk2e == r.ks.prk2e && i.ks.prk3e2m == r.ks.prk3e2m && i.ks.prk4e3m == r.ks.prk4e3m
    && i.ks.prkOut == r.ks.prkOut && i.ks.msk == r.ks.msk && i.ks.emsk == r.ks.emsk
    && i.peer.idCred == r.self.idCred && i.peer.sigVk == r.self.sigVk
    && r.peer.idCred == i.self.idCred && r.peer.sigVk == i.self.sigVk && r.peer.newPk == i.next.pk
  }

  // ------------------------------------------------------------------ contexts explained by their history

  /** An initiator after message_1. */
  ghost predicate IStarted(S: Suite, c: Ctx, msg1: Bytes, hashed: set<Bytes>) {
    && c.role == 1 && WellFormed(S, c.self) && Sized(c) && IsPair(S, c.eph.pk, c.eph.sk)
    && |msg1| >= 2336 && msg1[1120..2336] == c.eph.pk && msg1 in hashed
    && c.th.th1 == Th1(S, c.eph.pk, msg1[..1120]) && c.th.hMsg1 == S.sha256(msg1)
  }

  /** An initiator after message_2 was authenticated. */
  ghost predicate ISawMsg2(S: Suite, c: Ctx, h: History, hashed: set<Bytes>, macs: set<MacCall>) {
    && IStarted(S, c, h.msg1, hashed)
    && |h.cte| == XCT && c.th.th2 == Th2(S, c.th.hMsg1, h.cte, 0x20) && c.th.hMsg1 + h.cte + [0x20] in hashed
    && Decaps(S, h.cte, c.eph.sk) == Some(c.ss.e) && c.ks.prk2e == Extract(S, c.th.th2, c.ss.e)
    && |h.pt2| == PT2_LEN && c.ctA == h.pt2[..1120] && c.cR == h.pt2[1120]
    && c.peer.idCred == h.pt2[1121..1124] && c.peer.sigVk == h.pt2[1124..2436]
    && Mac(S, c.ks.prk3e2m, c.th.th2, c.peer.idCred, []) == h.pt2[2436..2444]
    && MacCall(c.ks.prk3e2m, MacInfo(c.th.th2, c.peer.idCred, [])) in macs
  }

  /** An initiator after message_3. */
  ghost predicate ISentMsg3(S: Suite, c: Ctx, h: History, hashed: set<Bytes>, macs: set<MacCall>) {
    && ISawMsg2(S, c, h, hashed, macs)
    && c.th.th3 == ThNext(S, c.th.th2, h.pt2) && c.th.th2 + h.pt2 in hashed
    && |h.pt3| == PT3_LEN && c.self.idCred == h.pt3[..3] && c.next.pk == h.pt3[3..1219]
    && c.self.sigVk == h.pt3[1227..2539]
    && Mac(S, c.ks.prk4e3m, c.th.th3, c.self.idCred, c.next.pk) == h.pt3[1219..1227]
    && MacCall(c.ks.prk4e3m, MacInfo(c.th.th3, c.self.idCred, c.next.pk)) in macs
    && c.th.th4 == ThNext(S, c.th.th3, h.pt3) && c.th.th3 + h.pt3 in hashed
    && c.ks == DeriveMsk(S, c).ks
  }

  /** A responder after message_2. */
  ghost predicate RSentMsg2(S: Suite, c: Ctx, h: History, hashed: set<Bytes>, macs: set<MacCall>) {
    && c.role == 0 && WellFormed(S, c.self) && Sized(c)
    && |h.msg1| >= MSG1_MIN && h.msg1[1120..2336] == c.eph.pk && h.msg1 in hashed
    && c.th.th1 == Th1(S, c.eph.pk, h.msg1[..1120])
    && (exists enc :: Encaps(S, c.eph.pk, enc) == Some(Encapsulation(h.cte, c.ss.e)))
    && |h.cte| == XCT && c.cR == 0x20
    && c.th.th2 == Th2(S, S.sha256(h.msg1), h.cte, 0x20) && S.sha256(h.msg1) + h.cte + [0x20] in hashed
    && c.ks.prk2e == Extract(S, c.th.th2, c.ss.e)
    && |h.pt2| == PT2_LEN && c.ctA == h.pt2[..1120] && c.cR == h.pt2[1120]
    && c.self.idCred == h.pt2[1121..1124] && c.self.sigVk == h.pt2[1124..2436]
    && Mac(S, c.ks.prk3e2m, c.th.th2, c.self.idCred, []) == h.pt2[2436..2444]
    && MacCall(c.ks.prk3e2m, MacInfo(c.th.th2, c.self.idCred, [])) in macs
    && c.th.th3 == ThNext(S, c.th.th2, h.pt2) && c.th.th2 + h.pt2 in hashed
  }

  /** A responder after message_3 was accepted. */
  ghost predicate RTookMsg3(S: Suite, c: Ctx, h: History, hashed: set<Bytes>, macs: set<MacCall>) {
    && RSentMsg2(S, c, h, hashed, macs)
    && |h.pt3| == PT3_LEN && c.peer.idCred == h.pt3[..3] && c.peer.newPk == h.pt3[3..1219]
    && c.peer.sigVk == h.pt3[1227..2539]
    && Mac(S, c.ks.prk4e3m, c.th.th3, c.peer.idCred, c.peer.newPk) == h.pt3[1219..1227]
    && MacCall(c.ks.prk4e3m, MacInfo(c.th.th3, c.peer.idCred, c.peer.newPk)) in macs
    && c.th.th4 == ThNext(S, c.th.th3, h.pt3) && c.th.th3 + h.pt3 in hashed
    && c.ks == DeriveMsk(S, c).ks
  }

  // ------------------------------------------------------------------ the transcript chain

  /** TH3 pins message_1, the ciphertext to the ephemeral key and PT2. */
  lemma {:induction false} Th3PinsTranscript(S: Suite, i: Ctx, hi: History, r: Ctx, hr: History, hashed: set<Bytes>,
                                             macs: set<MacCall>)
    requires LawfulHash(S) && NoCollisions(S, hashed)
    requires ISawMsg2(S, i, hi, hashed, macs) && RSentMsg2(S, r, hr, hashed, macs)
    requires i.th.th3 == ThNext(S, i.th.th2, hi.pt2) && i.th.th2 + hi.pt2 in hashed && i.th.th3 == r.th.th3
    ensures hi.msg1 == hr.msg1 && hi.cte == hr.cte && hi.pt2 == hr.pt2 && i.th.th2 == r.th.th2
    ensures i.th.th1 == r.th.th1 && i.eph.pk == r.eph.pk
  {
    hide Expand, Encaps, Decaps, WellFormed, IsPair;
    assert i.th.th2 + hi.pt2 == r.th.th2 + hr.pt2;
    ConcatSplits(i.th.th2, hi.pt2, r.th.th2, hr.pt2);
    var a, b := i.th.hMsg1, S.sha256(hr.msg1);
    assert a + hi.cte + [0x20] == b + hr.cte + [0x20];
    ConcatSplits(a + hi.cte, [0x20], b + hr.cte, [0x20]);
    ConcatSplits(a, hi.cte, b, hr.cte);
  }

  /** With the transcript pinned, the KEM gives both ends the ephemeral secret and MAC_2 gives both PRK3e2m. */
  lemma {:induction false} TranscriptFixesKeys(S: Suite, i: Ctx, hi: History, r: Ctx, hr: History, hashed: set<Bytes>,
                                               macs: set<MacCall>)
    requires Lawful(S) && NoCollisions(S, hashed) && MacsBound(S, macs)
    requires ISawMsg2(S, i, hi, hashed, macs) && RSentMsg2(S, r, hr, hashed, macs)
    requires i.th.th3 == ThNext(S, i.th.th2, hi.pt2) && i.th.th2 + hi.pt2 in hashed && i.th.th3 == r.th.th3
    ensures i.ss.e == r.ss.e && i.ks.prk2e == r.ks.prk2e && i.ks.prk3e2m == r.ks.prk3e2m
    ensures i.peer.idCred == r.self.idCred && i.peer.sigVk == r.self.sigVk && i.ctA == r.ctA && i.cR == r.cR
  {
    Th3PinsTranscript(S, i, hi, r, hr, hashed, macs);
    hide Expand, Encaps, Decaps, IsPair;
    var enc :| Encaps(S, r.eph.pk, enc) == Some(Encapsulation(hr.cte, r.ss.e));
    DecapsUndoesEncaps(S, i.eph.pk, i.eph.sk, enc);
    var x := MacCall(i.ks.prk3e2m, MacInfo(i.th.th2, i.peer.idCred, []));
    var y := MacCall(r.ks.prk3e2m, MacInfo(r.th.th2, r.self.idCred, []));
    assert x in macs && y in macs && x.info == y.info;
  }

  /** Ends that share TH3 and PT3 agree on everything: MAC_3 fixes PRK4e3m and with it MSK and EMSK. */
  lemma {:induction false} SharedPt3Agrees(S: Suite, i: Ctx, hi: History, r: Ctx, hr: History, hashed: set<Bytes>,
                                           macs: set<MacCall>)
    requires Lawful(S) && NoCollisions(S, hashed) && MacsBound(S, macs)
    requires ISentMsg3(S, i, hi, hashed, macs) && RTookMsg3(S, r, hr, hashed, macs)
    requires i.th.th3 == r.th.th3 && hi.pt3 == hr.pt3
    ensures hi == hr && Agree(i, r)
  {
    Th3PinsTranscript(S, i, hi, r, hr, hashed, macs);
    TranscriptFixesKeys(S, i, hi, r, hr, hashed, macs);
    hide Expand, Encaps, Decaps, IsPair, WellFormed;
    var x := MacCall(i.ks.prk4e3m, MacInfo(i.th.th3, i.self.idCred, i.next.pk));
    var y := MacCall(r.ks.prk4e3m, MacInfo(r.th.th3, r.peer.idCred, r.peer.newPk));
    assert x in macs && y in macs && x.info == y.info;
  }

  // ------------------------------------------------------------------ systems of sessions

  datatype ISession = ISession(ctx: Ctx, step: nat, h: History)

  datatype RSession = RSession(ctx: Ctx, round: nat, h: History)

  /** A ciphertext that left session `at`, or that it accepted, with the context right after. */
  datatype Sent = Sent(ct: Bytes, view: Ctx, h: History, at: nat)

  datatype World = World(
    ini: seq<ISession>, res: seq<RSession>, sent3: set<Sent>, took3: set<Sent>, sent4: set<Sent>, took4: set<Sent>,
    hashed: set<Bytes>, macs: set<MacCall>, seals: set<AeadCall>, opens: set<AeadCall>)

  /** Message bytes, randomness and buffer sizes are arbitrary.  Only a message whose decryption would overrun the handler's
      local buffer is not delivered: what the code then does is undefined. */
  datatype Event =
    | NewInitiator(self: Creds, peerPk: Bytes)
    | NewResponder(self: Creds, peerPk: Bytes)
    | Start(i: nat, key: Coins, enc: Coins, cap: nat)
    | Deliver1(r: nat, msg: Bytes, encE: Coins, encA: Coins, cap: nat)
    | Deliver2(i: nat, msg: Bytes, key: Coins, cap: nat)
    | Deliver3(r: nat, msg: Bytes, key: Coins, cap: nat)
    | Deliver4(i: nat, msg: Bytes)

  const NoHistory := History([], [], [], [])
  const Empty := World([], [], {}, {}, {}, {}, {}, {}, {}, {})

  function Call(S: Suite, prk: Bytes, th: Bytes, ct: Bytes): AeadCall {
    AeadCall(AeadKey(S, prk, th), AeadNonce(S, prk, th), th, ct)
  }

  function OpenedOrEmpty(S: Suite, prk: Bytes, th: Bytes, ct: Bytes): Bytes {
    match Open(S, prk, th, ct) case Some(p) => p case None => []
  }

  function BuiltOrEmpty(b: Option<Bytes>): Bytes {
    match b case Some(p) => p case None => []
  }

  function Drop(b: Bytes, n: nat): Bytes { if n <= |b| then b[n..] else [] }

  function NextStart(S: Suite, w: World, i: nat, key: Coins, enc: Coins, cap: nat): World {
    if i >= |w.ini| || w.ini[i].step != 0 || !Sized(w.ini[i].ctx) || |key.x| != X_LEN then w else
    var m := MakeMsg1(S, w.ini[i].ctx, key, enc, cap);
    if m.rc != OK then w.(ini := w.ini[i := ISession(m.ctx, 0, NoHistory)])
    else w.(ini := w.ini[i := ISession(m.ctx, 1, NoHistory.(msg1 := m.out))], hashed := w.hashed + {m.out})
  }

  /** The server module initialises the context afresh before it handles a message_1. */
  function NextDeliver1(S: Suite, w: World, r: nat, msg: Bytes, encE: Coins, encA: Coins, cap: nat): World {
    if r >= |w.res| || w.res[r].round != 0 || !Sized(w.res[r].ctx) then w else
    var c := InitResponder(w.res[r].ctx.self, w.res[r].ctx.peer.kemPk);
    if Msg1Fill(S, c, msg) > PT1_CAP then w else
    var m := HandleMsg1(S, c, msg, encE, encA, cap);
    if m.rc != OK then w.(res := w.res[r := RSession(m.ctx, 0, NoHistory)]) else
    var h := History(msg, Take(m.out, XCT), BuiltOrEmpty(BuildPt2(S, m.ctx)), []);
    w.(res := w.res[r := RSession(m.ctx, 1, h)],
       hashed := w.hashed + {msg, S.sha256(msg) + h.cte + [0x20], m.ctx.th.th2 + h.pt2},
       macs := w.macs + {MacCall(m.ctx.ks.prk3e2m, MacInfo(m.ctx.th.th2, m.ctx.self.idCred, []))},
       seals := w.seals + {Call(S, m.ctx.ks.prk2e, m.ctx.th.th2, Drop(m.out, XCT))})
  }

  function NextDeliver2(S: Suite, w: World, i: nat, msg: Bytes, key: Coins, cap: nat): World {
    if i >= |w.ini| || w.ini[i].step != 1 || !Sized(w.ini[i].ctx) || |key.x| != X_LEN then w else
    if Msg2Fill(S, w.ini[i].ctx, msg) > PT2_CAP then w else
    var s := w.ini[i];
    var m := HandleMsg2(S, s.ctx, msg, key, cap);
    if m.rc != OK then w.(ini := w.ini[i := s.(ctx := m.ctx)]) else
    var c := m.ctx;
    var h := History(s.h.msg1, Take(msg, XCT), OpenedOrEmpty(S, c.ks.prk2e, c.th.th2, Drop(msg, XCT)),
                     BuiltOrEmpty(BuildPt3(S, c)));
    w.(ini := w.ini[i := ISession(c, 2, h)],
       sent3 := w.sent3 + {Sent(m.out, c, h, i)},
       hashed := w.hashed + {c.th.hMsg1 + h.cte + [0x20], c.th.th2 + h.pt2, c.th.th3 + h.pt3},
       macs := w.macs + {MacCall(c.ks.prk3e2m, MacInfo(c.th.th2, c.peer.idCred, [])),
                         MacCall(c.ks.prk4e3m, MacInfo(c.th.th3, c.self.idCred, c.next.pk))},
       opens := w.opens + {Call(S, c.ks.prk2e, c.th.th2, Drop(msg, XCT))},
       seals := w.seals + {Call(S, c.ks.prk3e2m, c.th.th3, m.out)})
  }

  function NextDeliver3(S: Suite, w: World, r: nat, msg: Bytes, key: Coins, cap: nat): World {
    if r >= |w.res| || w.res[r].round != 1 || Msg3Fill(w.res[r].ctx, msg) > PT3_CAP then w else
    var s := w.res[r];
    var m := HandleMsg3(S, s.ctx, msg, key, cap);
    if m.rc != OK then w.(res := w.res[r := s.(ctx := m.ctx)]) else
    var c := m.ctx;
    var h := s.h.(pt3 := OpenedOrEmpty(S, s.ctx.ks.prk3e2m, s.ctx.th.th3, msg));
    w.(res := w.res[r := RSession(c, 2, h)],
       took3 := w.took3 + {Sent(msg, c, h, r)}, sent4 := w.sent4 + {Sent(m.out, c, h, r)},
       hashed := w.hashed + {c.th.th3 + h.pt3},
       macs := w.macs + {MacCall(c.ks.prk4e3m, MacInfo(c.th.th3, c.peer.idCred, c.peer.newPk))},
       opens := w.opens + {Call(S, c.ks.prk3e2m, c.th.th3, msg)},
       seals := w.seals + {Call(S, c.ks.prk4e3m, c.th.th4, m.out)})
  }

  function NextDeliver4(S: Suite, w: World, i: nat, msg: Bytes): World {
    if i >= |w.ini| || w.ini[i].step != 2 || Msg4Fill(w.ini[i].ctx, msg) > PT4_CAP then w else
    var s := w.ini[i];
    var m := HandleMsg4(S, s.ctx, msg);
    if m.rc != OK then w.(ini := w.ini[i := s.(ctx := m.ctx)]) else
    w.(ini := w.ini[i := s.(ctx := m.ctx, step := 3)],
       took4 := w.took4 + {Sent(msg, m.ctx, s.h, i)},
       opens := w.opens + {Call(S, m.ctx.ks.prk4e3m, m.ctx.th.th4, msg)})
  }

  ghost function Next(S: Suite, w: World, e: Event): World {
    match e
    case NewInitiator(self, pk) =>
      if WellFormed(S, self) && |pk| == XPK
      then w.(ini := w.ini + [ISession(InitInitiator(self, pk), 0, NoHistory)]) else w
    case NewResponder(self, pk) =>
      if WellFormed(S, self) && |pk| == XPK
      then w.(res := w.res + [RSession(InitResponder(self, pk), 0, NoHistory)]) else w
    case Start(i, key, enc, cap) => NextStart(S, w, i, key, enc, cap)
    case Deliver1(r, msg, encE, encA, cap) => NextDeliver1(S, w, r, msg, encE, encA, cap)
    case Deliver2(i, msg, key, cap) => NextDeliver2(S, w, i, msg, key, cap)
    case Deliver3(r, msg, key, cap) => NextDeliver3(S, w, r, msg, key, cap)
    case Deliver4(i, msg) => NextDeliver4(S, w, i, msg)
  }

  ghost function After(S: Suite, events: seq<Event>): World {
    if |events| == 0 then Empty
    else Next(S, After(S, events[..|events| - 1]), events[|events| - 1])
  }

  // ------------------------------------------------------------------ invariants

  ghost predicate IInv(S: Suite, s: ISession, hashed: set<Bytes>, macs: set<MacCall>) {
    && s.ctx.role == 1 && WellFormed(S, s.ctx.self) && Sized(s.ctx) && (s.step < 3 ==> !s.ctx.done)
    && (s.step == 1 ==> IStarted(S, s.ctx, s.h.msg1, hashed))
    && (s.step > 1 ==> ISentMsg3(S, s.ctx, s.h, hashed, macs))
  }

  ghost predicate RInv(S: Suite, s: RSession, hashed: set<Bytes>, macs: set<MacCall>) {
    && s.ctx.role == 0 && WellFormed(S, s.ctx.self) && Sized(s.ctx)
    && (s.round == 1 ==> RSentMsg2(S, s.ctx, s.h, hashed, macs))
  }

  ghost predicate Sent3Inv(S: Suite, e: Sent, hashed: set<Bytes>, macs: set<MacCall>, seals: set<AeadCall>) {
    && ISentMsg3(S, e.view, e.h, hashed, macs) && !e.view.done
    && Seal(S, e.view.ks.prk3e2m, e.view.th.th3, e.h.pt3) == Some(e.ct)
    && Call(S, e.view.ks.prk3e2m, e.view.th.th3, e.ct) in seals
  }

  ghost predicate Took3Inv(S: Suite, e: Sent, hashed: set<Bytes>, macs: set<MacCall>, opens: set<AeadCall>) {
    && RTookMsg3(S, e.view, e.h, hashed, macs)
    && Open(S, e.view.ks.prk3e2m, e.view.th.th3, e.ct) == Some(e.h.pt3)
    && Call(S, e.view.ks.prk3e2m, e.view.th.th3, e.ct) in opens
  }

  ghost predicate Sent4Inv(S: Suite, e: Sent, hashed: set<Bytes>, macs: set<MacCall>, seals: set<AeadCall>) {
    && RTookMsg3(S, e.view, e.h, hashed, macs)
    && Seal(S, e.view.ks.prk4e3m, e.view.th.th4, e.view.next.pk) == Some(e.ct)
    && Call(S, e.view.ks.prk4e3m, e.view.th.th4, e.ct) in seals
  }

  ghost predicate Took4Inv(S: Suite, e: Sent, hashed: set<Bytes>, macs: set<MacCall>, opens: set<AeadCall>) {
    && ISentMsg3(S, e.view, e.h, hashed, macs) && e.view.done
    && Open(S, e.view.ks.prk4e3m, e.view.th.th4, e.ct) == Some(e.view.peer.newPk)
    && Call(S, e.view.ks.prk4e3m, e.view.th.th4, e.ct) in opens
  }

  ghost predicate Inv(S: Suite, w: World) {
    && (forall i | 0 <= i < |w.ini| :: IInv(S, w.ini[i], w.hashed, w.macs))
    && (forall r | 0 <= r < |w.res| :: RInv(S, w.res[r], w.hashed, w.macs))
    && (forall e | e in w.sent3 :: Sent3Inv(S, e, w.hashed, w.macs, w.seals))
    && (forall e | e in w.took3 :: Took3Inv(S, e, w.hashed, w.macs, w.opens))
    && (forall e | e in w.sent4 :: Sent4Inv(S, e, w.hashed, w.macs, w.seals))
    && (forall e | e in w.took4 :: Took4Inv(S, e, w.hashed, w.macs, w.opens))
  }

  // ------------------------------------------------------------------ every handler keeps the invariants

  lemma {:induction false} Msg1Kept(S: Suite, c: Ctx, key: Coins, enc: Coins, cap: nat)
    requires Lawful(S) && c.role == 1 && WellFormed(S, c.self) && Sized(c) && |key.x| == X_LEN
    ensures var m := MakeMsg1(S, c, key, enc, cap);
            && m.ctx.role == 1 && m.ctx.self == c.self && Sized(m.ctx) && m.ctx.done == c.done
            && (m.rc == OK ==> IStarted(S, m.ctx, m.out, {m.out}))
  {
    hide Expand, Combine, Ascii, Seal;
    if Keypair(S, key).Some? {
      KeypairSized(S, c, key);
      var k := Keypair(S, key).value;
      assert IsPair(S, k.pk, k.sk);
      if Encaps(S, c.peer.kemPk, enc).Some? {
        EncapsLengths(S, c.peer.kemPk, enc);
        var b, m := Encaps(S, c.peer.kemPk, enc).value, MakeMsg1(S, c, key, enc, cap);
        hide Encaps, Keypair, IsPair;
        if m.rc == OK {
          assert m.out[..1120] == b.ct && m.out[1120..2336] == k.pk;
        }
      }
    }
  }

  lemma {:induction false} BuiltPt2Layout(S: Suite, c: Ctx)
    requires Lawful(S) && WellFormed(S, c.self) && |c.ctA| == XCT && BuildPt2(S, c).Some?
    ensures var pt := BuildPt2(S, c).value;
            && |pt| == PT2_LEN && pt[..1120] == c.ctA && pt[1120] == c.cR && pt[1121..1124] == c.self.idCred
            && pt[1124..2436] == c.self.sigVk
            && pt[2436..2444] == Mac(S, c.ks.prk3e2m, c.th.th2, c.self.idCred, [])
            && S.pqSign(c.self.sigSk, SigMessage(c.th.th2, c.self.idCred, pt[2436..2444])) == Some(pt[2444..])
  {
    var mac := Mac(S, c.ks.prk3e2m, c.th.th2, c.self.idCred, []);
    ExpandLength(S, c.ks.prk3e2m, MacInfo(c.th.th2, c.self.idCred, []), MAC_LEN);
    hide Expand, LawfulAead, LawfulDh, LawfulKem;
    Pt2Layout(c.ctA, c.cR, c.self.idCred, c.self.sigVk, mac, S.pqSign(c.self.sigSk, SigMessage(c.th.th2, c.self.idCred, mac)).value);
  }

  lemma {:induction false} BuiltPt3Layout(S: Suite, c: Ctx)
    requires Lawful(S) && WellFormed(S, c.self) && |c.next.pk| == XPK && BuildPt3(S, c).Some?
    ensures var pt := BuildPt3(S, c).value;
            && |pt| == PT3_LEN && pt[..3] == c.self.idCred && pt[3..1219] == c.next.pk
            && pt[1219..1227] == Mac(S, c.ks.prk4e3m, c.th.th3, c.self.idCred, c.next.pk)
            && pt[1227..2539] == c.self.sigVk
            && S.pqSign(c.self.sigSk, SigMessage(c.th.th3, c.self.idCred, pt[1219..1227])) == Some(pt[2539..])
  {
    var mac := Mac(S, c.ks.prk4e3m, c.th.th3, c.self.idCred, c.next.pk);
    ExpandLength(S, c.ks.prk4e3m, MacInfo(c.th.th3, c.self.idCred, c.next.pk), MAC_LEN);
    hide Expand, LawfulAead, LawfulDh, LawfulKem;
    Pt3Layout(c.self.idCred, c.next.pk, mac, c.self.sigVk, S.pqSign(c.self.sigSk, SigMessage(c.th.th3, c.self.idCred, mac)).value);
  }

  /** The result of handling message_1: a responder still, and a full one when the code is OK. */
  ghost predicate Answers(S: Suite, self: Creds, msg1: Bytes, m: Result) {
    && m.ctx.role == 0 && m.ctx.self == self && Sized(m.ctx)
    && (m.rc == OK ==>
          var h := History(msg1, Take(m.out, XCT), BuiltOrEmpty(BuildPt2(S, m.ctx)), []);
          RSentMsg2(S, m.ctx, h, {msg1, S.sha256(msg1) + h.cte + [0x20], m.ctx.th.th2 + h.pt2},
                    {MacCall(m.ctx.ks.prk3e2m, MacInfo(m.ctx.th.th2, self.idCred, []))}))
  }

  /** What EmitMsg2 needs of the context the first half of message_1 handling leaves, and what it makes of it. */
  lemma {:induction false} Msg2Emitted(S: Suite, c: Ctx, msg1: Bytes, encE: Coins, encA: Coins, cap: nat)
    requires Lawful(S) && c.role == 0 && WellFormed(S, c.self) && Sized(c) && c.cR == 0x20
    requires |msg1| >= MSG1_MIN && msg1[1120..2336] == c.eph.pk && c.th.th1 == Th1(S, c.eph.pk, msg1[..1120])
    ensures Answers(S, c.self, msg1, EmitMsg2(S, c, S.sha256(msg1), encE, encA, cap))
  {
    hide Expand, Combine, Ascii, Seal, IsPair, LawfulAead, LawfulDh, LawfulSig, LawfulKem;
    var m := EmitMsg2(S, c, S.sha256(msg1), encE, encA, cap);
    if m.rc == OK {
      var e, a := Encaps(S, c.eph.pk, encE).value, Encaps(S, c.peer.kemPk, encA).value;
      EncapsLengths(S, c.eph.pk, encE);
      EncapsLengths(S, c.peer.kemPk, encA);
      hide Encaps;
      assert m.out[..XCT] == e.ct;
      BuiltPt2Layout(S, m.ctx);
      hide BuildPt2;
      assert Encaps(S, m.ctx.eph.pk, encE) == Some(Encapsulation(e.ct, m.ctx.ss.e));
    }
  }

  lemma {:induction false} Msg1Answered(S: Suite, c: Ctx, msg: Bytes, encE: Coins, encA: Coins, cap: nat)
    requires Lawful(S) && c.role == 0 && WellFormed(S, c.self) && Sized(c) && c.cR == 0x20
    ensures Answers(S, c.self, msg, HandleMsg1(S, c, msg, encE, encA, cap))
  {
    hide EmitMsg2, Expand, Decaps, WellFormed, RSentMsg2, BuildPt2, Lawful, Open;
    if |msg| >= MSG1_MIN {
      forall d: Ctx | d.role == 0 && d.self == c.self && Sized(d) && d.cR == 0x20
                      && msg[1120..2336] == d.eph.pk && d.th.th1 == Th1(S, d.eph.pk, msg[..1120])
        ensures Answers(S, c.self, msg, EmitMsg2(S, d, S.sha256(msg), encE, encA, cap))
      {
        Msg2Emitted(S, d, msg, encE, encA, cap);
      }
    }
  }

  /** What message_1 fixed in an initiator context is the same in both. */
  predicate SameBasis(c: Ctx, d: Ctx) {
    && c.role == d.role && c.self == d.self && c.eph == d.eph && c.peer.kemPk == d.peer.kemPk && c.done == d.done
    && c.th.th1 == d.th.th1 && c.th.hMsg1 == d.th.hMsg1
  }

  lemma {:induction false} Msg3Emitted(S: Suite, c: Ctx, h: History, key: Coins, cap: nat)
    requires Lawful(S) && Sized(c) && !c.done && WellFormed(S, c.self) && |c.ctA| == XCT && |key.x| == X_LEN
    ensures var m := EmitMsg3(S, c, h.pt2, key, cap);
            SameBasis(c, m.ctx)
    ensures var m := EmitMsg3(S, c, h.pt2, key, cap);
            forall hashed, macs | ISawMsg2(S, c, h, hashed, macs) && m.rc == OK ::
              var h' := h.(pt3 := BuiltOrEmpty(BuildPt3(S, m.ctx)));
              && ISentMsg3(S, m.ctx, h', hashed + {m.ctx.th.th2 + h'.pt2, m.ctx.th.th3 + h'.pt3},
                           macs + {MacCall(m.ctx.ks.prk4e3m, MacInfo(m.ctx.th.th3, c.self.idCred, m.ctx.next.pk))})
              && Seal(S, m.ctx.ks.prk3e2m, m.ctx.th.th3, h'.pt3) == Some(m.out)
  {
    hide Expand, Combine, Ascii, Seal, IsPair, Decaps, LawfulAead, LawfulDh, LawfulSig, LawfulKem, Keypair;
    var m := EmitMsg3(S, c, h.pt2, key, cap);
    if m.rc == OK {
      KeypairSized(S, c, key);
      BuiltPt3Layout(S, m.ctx);
    }
  }

  /** Message_2 handling keeps the basis; a success leaves a context explained by the conversation so far. */
  lemma {:induction false} Msg2Handled(S: Suite, c: Ctx, msg1: Bytes, msg: Bytes, key: Coins, cap: nat, g: set<Bytes>)
    requires Lawful(S) && IStarted(S, c, msg1, g) && !c.done && |key.x| == X_LEN
    ensures var m := HandleMsg2(S, c, msg, key, cap);
            && SameBasis(c, m.ctx)
            && (m.rc == OK ==>
                  var h := History(msg1, Take(msg, XCT), OpenedOrEmpty(S, m.ctx.ks.prk2e, m.ctx.th.th2, Drop(msg, XCT)),
                                   BuiltOrEmpty(BuildPt3(S, m.ctx)));
                  && ISentMsg3(S, m.ctx, h, g + {m.ctx.th.hMsg1 + h.cte + [0x20], m.ctx.th.th2 + h.pt2, m.ctx.th.th3 + h.pt3},
                               {MacCall(m.ctx.ks.prk3e2m, MacInfo(m.ctx.th.th2, m.ctx.peer.idCred, [])),
                                MacCall(m.ctx.ks.prk4e3m, MacInfo(m.ctx.th.th3, m.ctx.self.idCred, m.ctx.next.pk))})
                  && Seal(S, m.ctx.ks.prk3e2m, m.ctx.th.th3, h.pt3) == Some(m.out))
  {
    hide Expand, Combine, Ascii, Seal, IsPair, Lawful, WellFormed, EmitMsg3, ISentMsg3, Open, MacInfo;
    if |msg| >= XCT + TAG_LEN && Decaps(S, msg[..1120], c.eph.sk).Some? {
      var cte, ssE := msg[..1120], Decaps(S, msg[..1120], c.eph.sk).value;
      var th2 := Th2(S, c.th.hMsg1, cte, 0x20);
      var prk2e := Extract(S, th2, ssE);
      var o := Open(S, prk2e, th2, msg[1120..]);
      if o.Some? && |o.value| == PT2_LEN {
        var pt2 := o.value;
        var d := c.(cR := pt2[1120], ss := c.ss.(e := ssE), th := c.th.(th2 := th2), ctA := pt2[..1120],
                    peer := c.peer.(idCred := pt2[1121..1124], sigVk := pt2[1124..2436]),
                    ks := c.ks.(prk2e := prk2e, prk3e2m := Extract(S, prk2e, c.ss.b)));
        if CheckPt2(S, d, pt2[2436..2444], pt2[2444..]) == OK {
          var h := History(msg1, cte, pt2, []);
          var g', macs := g + {d.th.hMsg1 + cte + [0x20]}, {MacCall(d.ks.prk3e2m, MacInfo(d.th.th2, d.peer.idCred, []))};
          assert ISawMsg2(S, d, h, g', macs);
          Msg3Emitted(S, d, h, key, cap);
          assert HandleMsg2(S, c, msg, key, cap) == EmitMsg3(S, d, pt2, key, cap);
          var m := EmitMsg3(S, d, pt2, key, cap);
          if m.rc == OK {
            KeptByEmission(S, d, pt2, key, cap);
            var h' := h.(pt3 := BuiltOrEmpty(BuildPt3(S, m.ctx)));
            assert g' + {m.ctx.th.th2 + h'.pt2, m.ctx.th.th3 + h'.pt3}
                   == g + {m.ctx.th.hMsg1 + h'.cte + [0x20], m.ctx.th.th2 + h'.pt2, m.ctx.th.th3 + h'.pt3};
            var mac3 := MacCall(m.ctx.ks.prk4e3m, MacInfo(m.ctx.th.th3, m.ctx.self.idCred, m.ctx.next.pk));
            assert macs + {mac3} == {MacCall(m.ctx.ks.prk3e2m, MacInfo(m.ctx.th.th2, m.ctx.peer.idCred, [])), mac3};
            assert Drop(msg, XCT) == msg[1120..] && Take(msg, XCT) == cte;
          }
        }
      }
    }
  }

  lemma {:induction false} KeptByEmission(S: Suite, c: Ctx, pt2: Bytes, key: Coins, cap: nat)
    requires Sized(c) && |c.ctA| == XCT
    ensures var m := EmitMsg3(S, c, pt2, key, cap).ctx;
            && m.th.th2 == c.th.th2 && m.ks.prk2e == c.ks.prk2e && m.ks.prk3e2m == c.ks.prk3e2m
            && m.peer == c.peer && m.self == c.self && m.th.hMsg1 == c.th.hMsg1
  {
    hide Expand, Ascii, Seal, Decaps, Keypair, BuildPt3;
  }

  /** Message_3 handling keeps what message_2 made; a success leaves a context explained by the whole conversation. */
  lemma {:induction false} Msg3Handled(S: Suite, c: Ctx, h: History, msg: Bytes, key: Coins, cap: nat, g: set<Bytes>,
                                       macs: set<MacCall>)
    requires RSentMsg2(S, c, h, g, macs)
    ensures var m := HandleMsg3(S, c, msg, key, cap);
            && RSentMsg2(S, m.ctx, h, g, macs)
            && (m.rc == OK ==>
                  var h' := h.(pt3 := OpenedOrEmpty(S, c.ks.prk3e2m, c.th.th3, msg));
                  && RTookMsg3(S, m.ctx, h', g + {m.ctx.th.th3 + h'.pt3},
                               macs + {MacCall(m.ctx.ks.prk4e3m, MacInfo(m.ctx.th.th3, m.ctx.peer.idCred, m.ctx.peer.newPk))})
                  && Open(S, m.ctx.ks.prk3e2m, m.ctx.th.th3, msg) == Some(h'.pt3)
                  && Seal(S, m.ctx.ks.prk4e3m, m.ctx.th.th4, m.ctx.next.pk) == Some(m.out))
  {
    hide Expand, Ascii, Seal, Open, IsPair, WellFormed, Encaps, Keypair, Extract, MacInfo;
  }

  lemma {:induction false} Grows(S: Suite, w: World, v: World)
    requires Inv(S, w) && w.hashed <= v.hashed && w.macs <= v.macs && w.seals <= v.seals && w.opens <= v.opens
    ensures forall i | 0 <= i < |w.ini| :: IInv(S, w.ini[i], v.hashed, v.macs)
    ensures forall r | 0 <= r < |w.res| :: RInv(S, w.res[r], v.hashed, v.macs)
    ensures forall e | e in w.sent3 :: Sent3Inv(S, e, v.hashed, v.macs, v.seals)
    ensures forall e | e in w.took3 :: Took3Inv(S, e, v.hashed, v.macs, v.opens)
    ensures forall e | e in w.sent4 :: Sent4Inv(S, e, v.hashed, v.macs, v.seals)
    ensures forall e | e in w.took4 :: Took4Inv(S, e, v.hashed, v.macs, v.opens)
  {
    hide Expand, WellFormed, IsPair, Encaps, Decaps, DeriveMsk, Seal, Open, AeadKey, AeadNonce, Mac, MacInfo, Th1, Th2,
         ThNext, Extract;
  }

  lemma {:induction false} NewSessionKeepsInv(S: Suite, w: World, e: Event)
    requires Inv(S, w) && (e.NewInitiator? || e.NewResponder?)
    ensures Inv(S, Next(S, w, e))
  {
    hide Sent3Inv, Took3Inv, Sent4Inv, Took4Inv, WellFormed, ISentMsg3, RSentMsg2, IStarted;
    InitSized(S, e.self, e.peerPk);
  }

  lemma {:induction false} InitSized(S: Suite, self: Creds, pk: Bytes)
    ensures WellFormed(S, self) && |pk| == XPK ==> Sized(InitInitiator(self, pk)) && Sized(InitResponder(self, pk))
  {
  }

  lemma {:induction false} StartKeepsInv(S: Suite, w: World, i: nat, key: Coins, enc: Coins, cap: nat)
    requires Lawful(S) && Inv(S, w)
    ensures Inv(S, NextStart(S, w, i, key, enc, cap))
  {
    var v := NextStart(S, w, i, key, enc, cap);
    Grows(S, w, v);
    if i < |w.ini| && w.ini[i].step == 0 && |key.x| == X_LEN {
      assert IInv(S, w.ini[i], w.hashed, w.macs);
      Msg1Kept(S, w.ini[i].ctx, key, enc, cap);
      hide MakeMsg1, Sent3Inv, Took3Inv, Sent4Inv, Took4Inv, RInv, WellFormed, IsPair;
    }
  }

  lemma {:induction false} Deliver1KeepsInv(S: Suite, w: World, r: nat, msg: Bytes, encE: Coins, encA: Coins, cap: nat)
    requires Lawful(S) && Inv(S, w)
    ensures Inv(S, NextDeliver1(S, w, r, msg, encE, encA, cap))
  {
    hide HandleMsg1, Msg1Fill, Sent3Inv, Took3Inv, Sent4Inv, Took4Inv, IInv, WellFormed, BuildPt2, Lawful;
    var v := NextDeliver1(S, w, r, msg, encE, encA, cap);
    Grows(S, w, v);
    if r < |w.res| && w.res[r].round == 0 && Sized(w.res[r].ctx) {
      var c := InitResponder(w.res[r].ctx.self, w.res[r].ctx.peer.kemPk);
      if Msg1Fill(S, c, msg) > PT1_CAP { return; }
      Msg1Answered(S, c, msg, encE, encA, cap);
      var m := HandleMsg1(S, c, msg, encE, encA, cap);
      if m.rc == OK {
        var h := v.res[r].h;
        RSentGrows(S, m.ctx, h, {msg, S.sha256(msg) + h.cte + [0x20], m.ctx.th.th2 + h.pt2},
                   {MacCall(m.ctx.ks.prk3e2m, MacInfo(m.ctx.th.th2, m.ctx.self.idCred, []))}, v.hashed, v.macs);
      }
      hide RSentMsg2;
    }
  }

  lemma {:induction false} RSentGrows(S: Suite, c: Ctx, h: History, g: set<Bytes>, m: set<MacCall>, g': set<Bytes>, m': set<MacCall>)
    requires RSentMsg2(S, c, h, g, m) && g <= g' && m <= m'
    ensures RSentMsg2(S, c, h, g', m')
  {
    hide WellFormed, Encaps, Mac, Extract, Th1, Th2, ThNext;
  }

  lemma {:induction false} RTookGrows(S: Suite, c: Ctx, h: History, g: set<Bytes>, m: set<MacCall>, g': set<Bytes>, m': set<MacCall>)
    requires RTookMsg3(S, c, h, g, m) && g <= g' && m <= m'
    ensures RTookMsg3(S, c, h, g', m')
  {
    RSentGrows(S, c, h, g, m, g', m');
    hide RSentMsg2, Mac, DeriveMsk, ThNext;
  }

  lemma {:induction false} ISentGrows(S: Suite, c: Ctx, h: History, g: set<Bytes>, m: set<MacCall>, g': set<Bytes>, m': set<MacCall>)
    requires ISentMsg3(S, c, h, g, m) && g <= g' && m <= m'
    ensures ISentMsg3(S, c, h, g', m')
  {
    hide WellFormed, Decaps, Mac, Extract, Th1, Th2, ThNext, DeriveMsk, IsPair;
  }

  lemma {:induction false} Deliver2KeepsInv(S: Suite, w: World, i: nat, msg: Bytes, key: Coins, cap: nat)
    requires Lawful(S) && Inv(S, w)
    ensures Inv(S, NextDeliver2(S, w, i, msg, key, cap))
  {
    hide HandleMsg2, Msg2Fill, Took3Inv, Sent4Inv, Took4Inv, RInv, WellFormed, BuildPt3, Lawful, ISentMsg3, OpenedOrEmpty, Seal, IsPair;
    var v := NextDeliver2(S, w, i, msg, key, cap);
    Grows(S, w, v);
    if i < |w.ini| && w.ini[i].step == 1 && |key.x| == X_LEN {
      var s := w.ini[i];
      assert IInv(S, s, w.hashed, w.macs);
      if Msg2Fill(S, s.ctx, msg) > PT2_CAP { return; }
      Msg2Handled(S, s.ctx, s.h.msg1, msg, key, cap, w.hashed);
      var m := HandleMsg2(S, s.ctx, msg, key, cap);
      if m.rc == OK {
        var h := v.ini[i].h;
        ISentGrows(S, m.ctx, h, w.hashed + {m.ctx.th.hMsg1 + h.cte + [0x20], m.ctx.th.th2 + h.pt2, m.ctx.th.th3 + h.pt3},
                   {MacCall(m.ctx.ks.prk3e2m, MacInfo(m.ctx.th.th2, m.ctx.peer.idCred, [])),
                    MacCall(m.ctx.ks.prk4e3m, MacInfo(m.ctx.th.th3, m.ctx.self.idCred, m.ctx.next.pk))}, v.hashed, v.macs);
      }
    }
  }

  lemma {:induction false} Deliver3KeepsInv(S: Suite, w: World, r: nat, msg: Bytes, key: Coins, cap: nat)
    requires Inv(S, w)
    ensures Inv(S, NextDeliver3(S, w, r, msg, key, cap))
  {
    hide HandleMsg3, Msg3Fill, Sent3Inv, Took4Inv, IInv, WellFormed, RTookMsg3, OpenedOrEmpty, Seal, Open, Encaps, Mac, MacInfo,
         Extract, Th1, Th2, ThNext, AeadKey, AeadNonce;
    var v := NextDeliver3(S, w, r, msg, key, cap);
    Grows(S, w, v);
    if r < |w.res| && w.res[r].round == 1 && Msg3Fill(w.res[r].ctx, msg) <= PT3_CAP {
      var s := w.res[r];
      assert RInv(S, s, w.hashed, w.macs);
      Msg3Handled(S, s.ctx, s.h, msg, key, cap, v.hashed, v.macs);
      var m := HandleMsg3(S, s.ctx, msg, key, cap);
      if m.rc == OK {
        var h := v.res[r].h;
        RTookGrows(S, m.ctx, h, v.hashed + {m.ctx.th.th3 + h.pt3},
                   v.macs + {MacCall(m.ctx.ks.prk4e3m, MacInfo(m.ctx.th.th3, m.ctx.peer.idCred, m.ctx.peer.newPk))},
                   v.hashed, v.macs);
      }
    }
  }

  lemma {:induction false} Deliver4KeepsInv(S: Suite, w: World, i: nat, msg: Bytes)
    requires Inv(S, w)
    ensures Inv(S, NextDeliver4(S, w, i, msg))
  {
    hide Msg4Fill, Sent3Inv, Took3Inv, Sent4Inv, RInv, WellFormed, Open, IsPair, ISentMsg3, AeadKey, AeadNonce;
    var v := NextDeliver4(S, w, i, msg);
    Grows(S, w, v);
    if i < |w.ini| && w.ini[i].step == 2 && Msg4Fill(w.ini[i].ctx, msg) <= PT4_CAP {
      assert IInv(S, w.ini[i], w.hashed, w.macs);
      Msg4Keeps(S, w.ini[i].ctx, w.ini[i].h, msg, v.hashed, v.macs);
    }
  }

  lemma {:induction false} Msg4Keeps(S: Suite, c: Ctx, h: History, msg: Bytes, g: set<Bytes>, macs: set<MacCall>)
    requires ISentMsg3(S, c, h, g, macs)
    ensures ISentMsg3(S, HandleMsg4(S, c, msg).ctx, h, g, macs) && Sized(HandleMsg4(S, c, msg).ctx)
  {
    hide WellFormed, Decaps, Expand, Extract, Th1, Th2, ThNext, IsPair, Open;
  }

  lemma {:induction false} ReachableInv(S: Suite, events: seq<Event>)
    requires Lawful(S)
    ensures Inv(S, After(S, events))
  {
    hide Inv, NextStart, NextDeliver1, NextDeliver2, NextDeliver3, NextDeliver4, Lawful;
    if |events| == 0 {
      EmptyInv(S);
    } else {
      var w := After(S, events[..|events| - 1]);
      ReachableInv(S, events[..|events| - 1]);
      match events[|events| - 1] {
        case NewInitiator(_, _) => NewSessionKeepsInv(S, w, events[|events| - 1]);
        case NewResponder(_, _) => NewSessionKeepsInv(S, w, events[|events| - 1]);
        case Start(i, key, enc, cap) => StartKeepsInv(S, w, i, key, enc, cap);
        case Deliver1(r, msg, encE, encA, cap) => Deliver1KeepsInv(S, w, r, msg, encE, encA, cap);
        case Deliver2(i, msg, key, cap) => Deliver2KeepsInv(S, w, i, msg, key, cap);
        case Deliver3(r, msg, key, cap) => Deliver3KeepsInv(S, w, r, msg, key, cap);
        case Deliver4(i, msg) => Deliver4KeepsInv(S, w, i, msg);
      }
    }
  }

  lemma EmptyInv(S: Suite)
    ensures Inv(S, Empty)
  {
  }

  // ------------------------------------------------------------------ matching conversations

  /** The idealised run: no hash collisions, no MAC shared by two PRKs, no ciphertext opened under foreign data. */
  ghost predicate Ideal(S: Suite, w: World) {
    NoCollisions(S, w.hashed) && MacsBound(S, w.macs) && DataBound(w.seals, w.opens)
  }

  lemma {:induction false} Took3Agrees(S: Suite, w: World, e: Sent, a: Sent)
    requires Lawful(S) && Inv(S, w) && Ideal(S, w) && e in w.sent3 && a in w.took3 && e.ct == a.ct
    ensures e.h == a.h && Agree(e.view, a.view)
  {
    hide Expand, Encaps, Decaps, IsPair, WellFormed;
    var i, r := e.view, a.view;
    assert Sent3Inv(S, e, w.hashed, w.macs, w.seals) && Took3Inv(S, a, w.hashed, w.macs, w.opens);
    assert i.th.th3 == r.th.th3 by {
      var s, o := Call(S, i.ks.prk3e2m, i.th.th3, e.ct), Call(S, r.ks.prk3e2m, r.th.th3, a.ct);
      assert s in w.seals && o in w.opens && s.ct == o.ct;
    }
    TranscriptFixesKeys(S, i, e.h, r, a.h, w.hashed, w.macs);
    SealOpens(S, i.ks.prk3e2m, i.th.th3, e.h.pt3);
    SharedPt3Agrees(S, i, e.h, r, a.h, w.hashed, w.macs);
  }

  lemma SealOpens(S: Suite, prk: Bytes, th: Bytes, pt: Bytes)
    requires LawfulAead(S) && Seal(S, prk, th, pt).Some?
    ensures Open(S, prk, th, Seal(S, prk, th, pt).value) == Some(pt)
  {
    hide AeadKey, AeadNonce;
  }

  lemma {:induction false} Took4Agrees(S: Suite, w: World, a: Sent, e: Sent)
    requires Lawful(S) && Inv(S, w) && Ideal(S, w) && a in w.sent4 && e in w.took4 && a.ct == e.ct
    ensures e.h == a.h && Agree(e.view, a.view) && e.view.peer.newPk == a.view.next.pk && e.view.done
  {
    hide Expand, Encaps, Decaps, IsPair, WellFormed;
    var i, r := e.view, a.view;
    assert Sent4Inv(S, a, w.hashed, w.macs, w.seals) && Took4Inv(S, e, w.hashed, w.macs, w.opens);
    assert i.th.th4 == r.th.th4 by {
      var s, o := Call(S, r.ks.prk4e3m, r.th.th4, a.ct), Call(S, i.ks.prk4e3m, i.th.th4, e.ct);
      assert s in w.seals && o in w.opens && s.ct == o.ct;
    }
    assert i.th.th3 + e.h.pt3 == r.th.th3 + a.h.pt3;
    HashLengths(S, i, r, e.h, a.h);
    ConcatSplits(i.th.th3, e.h.pt3, r.th.th3, a.h.pt3);
    SharedPt3Agrees(S, i, e.h, r, a.h, w.hashed, w.macs);
    SealOpens(S, r.ks.prk4e3m, r.th.th4, r.next.pk);
  }

  lemma HashLengths(S: Suite, i: Ctx, r: Ctx, hi: History, hr: History)
    requires LawfulHash(S) && i.th.th3 == ThNext(S, i.th.th2, hi.pt2) && r.th.th3 == ThNext(S, r.th.th2, hr.pt2)
    ensures |i.th.th3| == |r.th.th3|
  {
  }

  /** Matching conversations over every run of method 4.  A responder that accepted a message_3 an initiator sent has
      seen the same conversation and holds the same TH1 to TH4, PRKs, MSK, EMSK and next key of the initiator.  An
      initiator that accepted a message_4 a responder sent has the same guarantee back, holds the responder's next key,
      and only then is done. */
  lemma {:induction false} MatchingConversations(S: Suite, events: seq<Event>)
    requires Lawful(S) && Ideal(S, After(S, events))
    ensures var w := After(S, events);
            && (forall e, a | e in w.sent3 && a in w.took3 && e.ct == a.ct ::
                  e.h == a.h && Agree(e.view, a.view) && !e.view.done)
            && (forall a, e | a in w.sent4 && e in w.took4 && a.ct == e.ct ::
                  e.h == a.h && Agree(e.view, a.view) && e.view.peer.newPk == a.view.next.pk && e.view.done)
            && (forall i | 0 <= i < |w.ini| && w.ini[i].ctx.done :: w.ini[i].step >= 3)
  {
    hide Agree, After, Ideal, Lawful, Took3Inv, Sent4Inv, Took4Inv, RInv, IStarted, ISentMsg3, WellFormed;
    var w := After(S, events);
    ReachableInv(S, events);
    forall e, a | e in w.sent3 && a in w.took3 && e.ct == a.ct
      ensures e.h == a.h && Agree(e.view, a.view) && !e.view.done
    {
      Took3Agrees(S, w, e, a);
    }
    forall a, e | a in w.sent4 && e in w.took4 && a.ct == e.ct
      ensures e.h == a.h && Agree(e.view, a.view) && e.view.peer.newPk == a.view.next.pk && e.view.done
    {
      Took4Agrees(S, w, a, e);
    }
  }

  // ------------------------------------------------------------------ injective agreement

  /** Every recorded event belongs to a session that still has the message_1 or the ephemeral ciphertext it had then. */
  ghost predicate Placed(w: World) {
    && (forall e | e in w.sent3 || e in w.took4 :: e.at < |w.ini| && w.ini[e.at].step >= 2 && w.ini[e.at].h.msg1 == e.h.msg1)
    && (forall a | a in w.took3 || a in w.sent4 :: a.at < |w.res| && w.res[a.at].round == 2 && w.res[a.at].h.cte == a.h.cte)
  }

  lemma {:induction false} NextKeepsPlaces(S: Suite, w: World, e: Event)
    requires Placed(w)
    ensures Placed(Next(S, w, e))
  {
    hide HandleMsg1, HandleMsg2, HandleMsg3, HandleMsg4, MakeMsg1, BuildPt2, BuildPt3, OpenedOrEmpty, Call, MacInfo, Msg1Fill,
         Msg2Fill, Msg3Fill, Msg4Fill, InitInitiator, InitResponder, WellFormed, Sized;
  }

  lemma {:induction false} ReachablePlaced(S: Suite, events: seq<Event>)
    ensures Placed(After(S, events))
  {
    hide Next, Placed;
    if |events| == 0 {
      assert Placed(Empty) by { NothingPlaced(); }
    } else {
      ReachablePlaced(S, events[..|events| - 1]);
      NextKeepsPlaces(S, After(S, events[..|events| - 1]), events[|events| - 1]);
    }
  }

  lemma NothingPlaced()
    ensures Placed(Empty)
  {
  }

  /** No two initiators under way sent the same message_1, which carries the ephemeral key, and no two responders the same
      ciphertext to an ephemeral key. */
  ghost predicate DistinctEphemerals(w: World) {
    && (forall i, j | 0 <= i < |w.ini| && 0 <= j < |w.ini| && w.ini[i].step >= 2 && w.ini[j].step >= 2
                      && w.ini[i].h.msg1 == w.ini[j].h.msg1 :: i == j)
    && (forall r, q | 0 <= r < |w.res| && 0 <= q < |w.res| && w.res[r].round == 2 && w.res[q].round == 2
                      && w.res[r].h.cte == w.res[q].h.cte :: r == q)
  }

  /** Injective agreement: with distinct ephemerals, all acceptances of one sent message_3 belong to one responder session,
      and all sendings of an accepted one to one initiator session. */
  lemma {:induction false} InjectiveOnMessage3(S: Suite, events: seq<Event>, e: Sent, f: Sent, a: Sent, b: Sent)
    requires Lawful(S) && Ideal(S, After(S, events)) && DistinctEphemerals(After(S, events))
    requires var w := After(S, events);
             e in w.sent3 && f in w.sent3 && a in w.took3 && b in w.took3 && e.ct == f.ct == a.ct == b.ct
    ensures e.at == f.at && a.at == b.at
  {
    var w := After(S, events);
    ReachableInv(S, events);
    ReachablePlaced(S, events);
    hide After, Ideal, Lawful, Agree, Inv;
    Took3Agrees(S, w, e, a);
    Took3Agrees(S, w, f, a);
    Took3Agrees(S, w, e, b);
  }

  /** And the same of message_4, in the other direction. */
  lemma {:induction false} InjectiveOnMessage4(S: Suite, events: seq<Event>, a: Sent, b: Sent, e: Sent, f: Sent)
    requires Lawful(S) && Ideal(S, After(S, events)) && DistinctEphemerals(After(S, events))
    requires var w := After(S, events);
             a in w.sent4 && b in w.sent4 && e in w.took4 && f in w.took4 && a.ct == b.ct == e.ct == f.ct
    ensures a.at == b.at && e.at == f.at
  {
    var w := After(S, events);
    ReachableInv(S, events);
    ReachablePlaced(S, events);
    hide After, Ideal, Lawful, Agree, Inv;
    Took4Agrees(S, w, a, e);
    Took4Agrees(S, w, a, f);
    Took4Agrees(S, w, b, e);
  }
}
