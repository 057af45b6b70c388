/** The handshake cores behind the fragmentation layer: an undisturbed EAP exchange of any method ends with the server
    reporting success and both handshake contexts in agreement, after a number of wires fixed by the message sizes. */
module EndToEnd {
  import opened Primitives
  import opened Fragmentation
  import opened FragExchange
  import opened FragOutcome
  import Edhoc03
  import Edhoc03Runs
  import Edhoc4
  import Edhoc4Runs
  import Edhoc4Honest
  import Hkdf
  import XWing

  const CAP: nat := MAX_MSG

  function Output03(r: Edhoc03.Result): Option<Bytes> { if r.rc == Edhoc03.OK then Some(r.out) else None }

  function Output4(r: Edhoc4.Result): Option<Bytes> { if r.rc == Edhoc4.OK then Some(r.out) else None }

  lemma Method4Sizes()
    ensures Wires(2354) == 5 && Wires(6000) == 13 && Wires(4975) == 9 && Wires(1232) == 3
  {
  }

  lemma ClassicalSizes(n: nat)
    ensures n <= FIRST_CAP ==> Wires(n) == 1
  {
  }

  /** Method 4: for cores that are the handlers of two contexts, 32 wires after EDHOC-Start are enough, the cores see the
      four messages and nothing else, and both contexts end done, in agreement and with each other's next static key. */
  lemma {:induction false} Method4OverFragments(
    S: Suite, ini: Edhoc4.Creds, res: Edhoc4.Creds, d: Edhoc4Honest.Draws, onMsg1: Bytes -> Option<Bytes>,
    onMsg2: Bytes -> Option<Bytes>, onMsg3: Bytes -> Option<Bytes>, onMsg4: Bytes -> bool, x: Edhoc4Honest.Exchange)
    requires Edhoc4Honest.GoesThrough(S, ini, res, d, CAP)
    requires Edhoc4Honest.HonestExchange(S, ini, res, d, CAP) == Some(x)
    requires onMsg1(x.m1.out) == Output4(x.m2) && onMsg2(x.m2.out) == Output4(x.m3)
    requires onMsg3(x.m3.out) == Output4(x.m4) && onMsg4(x.m4.out) == (x.i.rc == Edhoc4.OK)
    ensures var s := System(ClientCore(Output4(x.m1), onMsg2, onMsg4), ServerCore(false, onMsg1, onMsg3));
            var end := Iterate(s, Start, 32);
            && end.status == Done
            && end.log == [Handled(Client, 0, []), Handled(Server, 0, x.m1.out), Handled(Client, 1, x.m2.out),
                           Handled(Server, 1, x.m3.out), Handled(Client, 2, x.m4.out), Handled(Server, 2, [])]
            && x.i.ctx.done && x.m4.ctx.done && Edhoc4Runs.Agree(x.i.ctx, x.m4.ctx)
            && x.i.ctx.peer.newPk == x.m4.ctx.next.pk && x.m4.ctx.peer.newPk == x.i.ctx.next.pk
  {
    hide Edhoc4.MakeMsg1, Edhoc4.HandleMsg1, Edhoc4.HandleMsg2, Edhoc4.HandleMsg3, Edhoc4.HandleMsg4, Wires, Step, Lawful,
         Edhoc4.WellFormed, Edhoc4.InitResponder, Edhoc4.InitInitiator, Iterate, ClientCore, ServerCore, Edhoc4.Sized;
    Edhoc4Honest.HonestRunAgrees(S, ini, res, d, CAP);
    PqExchange(x.m1.out, x.m2.out, x.m3.out, x.m4.out, onMsg1, onMsg2, onMsg3, onMsg4);
    Method4Sizes();
  }

  /** Methods 0 to 3: no message needs fragmenting, so four wires are enough. */
  lemma {:induction false} ClassicalOverFragments(
    S: Suite, meth: byte, ini: Edhoc03.Creds, res: Edhoc03.Creds, x: Bytes, y: Bytes, onMsg1: Bytes -> Option<Bytes>,
    onMsg2: Bytes -> Option<Bytes>, onMsg3: Bytes -> Option<Bytes>, e: Edhoc03Runs.Exchange)
    requires Lawful(S) && Edhoc03.MethodValid(meth) && Edhoc03.WellFormed(S, ini) && Edhoc03.WellFormed(S, res)
    requires e == Edhoc03Runs.HonestExchange(S, meth, ini, res, x, y, CAP) && Edhoc03Runs.Succeeds(e)
    requires onMsg1(e.m1.out) == Output03(e.m2) && onMsg2(e.m2.out) == Output03(e.m3) && onMsg3(e.m3.out) == Output03(e.r)
    ensures var s := System(ClientCore(Output03(e.m1), onMsg2, _ => false), ServerCore(true, onMsg1, onMsg3));
            var end := Iterate(s, Start, 4);
            && end.status == Done
            && end.log == [Handled(Client, 0, []), Handled(Server, 0, e.m1.out), Handled(Client, 1, e.m2.out),
                           Handled(Server, 1, e.m3.out)]
            && e.r.ctx.done && Edhoc03Runs.Agree(e.i.ctx, e.r.ctx)
  {
    hide Edhoc03.MakeMsg1, Edhoc03.HandleMsg1, Edhoc03.HandleMsg2, Edhoc03.HandleMsg3, Edhoc03.WellFormed, Step, Wires,
         Edhoc03.InitResponder, Edhoc03.InitInitiator, Iterate, ClientCore, ServerCore, Lawful;
    Edhoc03Runs.HonestRunAgrees(S, meth, ini, res, x, y, CAP);
    ClassicalExchange(e.m1.out, e.m2.out, e.m3.out, onMsg1, onMsg2, onMsg3);
    ClassicalSizes(|e.m1.out|);
    ClassicalSizes(|e.m2.out|);
    ClassicalSizes(|e.m3.out|);
  }

  // ------------------------------------------------------------------ any outcome

  /** Handlers that answer the honest messages of an exchange as its contexts do. */
  ghost predicate Method4Handlers(h: Handlers, x: Edhoc4Honest.Exchange) {
    && Fits(h) && !h.classical && h.start == Output4(x.m1)
    && h.onMsg1(x.m1.out) == Output4(x.m2) && h.onMsg2(x.m2.out) == Output4(x.m3)
    && h.onMsg3(x.m3.out) == Output4(x.m4) && h.onMsg4(x.m4.out) == (x.i.rc == Edhoc4.OK)
  }

  /** Method 4, primitives failing or not: the exchange over fragments has ended after 70 wires, with success exactly when
      no primitive failed, and then in agreement. */
  lemma {:induction false} Method4Outcome(S: Suite, ini: Edhoc4.Creds, res: Edhoc4.Creds, d: Edhoc4Honest.Draws, h: Handlers,
                                          x: Edhoc4Honest.Exchange, n: nat)
    requires Edhoc4Honest.Setting(S, ini, res, d, CAP) && Edhoc4Honest.HonestExchange(S, ini, res, d, CAP) == Some(x)
    requires Method4Handlers(h, x) && n >= 70
    ensures Iterate(Parties(h), Start, n).status == (if Edhoc4Honest.Succeeds(x) then Done else Broken)
    ensures Edhoc4Honest.Succeeds(x) ==>
              && x.i.ctx.done && x.m4.ctx.done && Edhoc4Runs.Agree(x.i.ctx, x.m4.ctx)
              && x.i.ctx.peer.newPk == x.m4.ctx.next.pk && x.m4.ctx.peer.newPk == x.i.ctx.next.pk
  {
    hide Edhoc4Honest.HonestExchange, Iterate, Parties, Fits, Edhoc4Honest.Setting, Edhoc4Runs.Agree, Edhoc4Honest.Excused;
    var e := Edhoc4Honest.HonestOutcome(S, ini, res, d, CAP);
    if Edhoc4Honest.Succeeds(x) {
      assert Edhoc4Honest.GoesThrough(S, ini, res, d, CAP);
      Edhoc4Honest.HonestRunAgrees(S, ini, res, d, CAP);
      assert x.m4.ctx.peer.newPk == x.i.ctx.next.pk by { AgreeOnNext(x.i.ctx, x.m4.ctx); }
    }
    ExchangeIsDirect(h, n);
  }

  lemma AgreeOnNext(i: Edhoc4.Ctx, r: Edhoc4.Ctx)
    ensures Edhoc4Runs.Agree(i, r) ==> r.peer.newPk == i.next.pk
  {
  }

  ghost predicate ClassicalHandlers(h: Handlers, e: Edhoc03Runs.Exchange) {
    && Fits(h) && h.classical && h.start == Output03(e.m1)
    && h.onMsg1(e.m1.out) == Output03(e.m2) && h.onMsg2(e.m2.out) == Output03(e.m3) && h.onMsg3(e.m3.out) == Output03(e.r)
  }

  /** The same for methods 0 to 3. */
  lemma {:induction false} ClassicalOutcome(S: Suite, meth: byte, ini: Edhoc03.Creds, res: Edhoc03.Creds, x: Bytes, y: Bytes,
                                            h: Handlers, e: Edhoc03Runs.Exchange, n: nat)
    requires Lawful(S) && Edhoc03.MethodValid(meth) && Edhoc03.WellFormed(S, ini) && Edhoc03.WellFormed(S, res)
    requires e == Edhoc03Runs.HonestExchange(S, meth, ini, res, x, y, CAP) && ClassicalHandlers(h, e) && n >= 70
    ensures Iterate(Parties(h), Start, n).status == (if Edhoc03Runs.Succeeds(e) then Done else Broken)
    ensures Edhoc03Runs.Succeeds(e) ==> e.i.ctx.done && e.r.ctx.done && Edhoc03Runs.Agree(e.i.ctx, e.r.ctx)
  {
    hide Edhoc03Runs.HonestExchange, Iterate, Parties, Fits, Lawful, Edhoc03.WellFormed, Edhoc03Runs.Agree, Edhoc03Runs.Excused;
    Edhoc03Runs.HonestOutcome(S, meth, ini, res, x, y, CAP);
    if Edhoc03Runs.Succeeds(e) {
      Edhoc03Runs.HonestRunAgrees(S, meth, ini, res, x, y, CAP);
    }
    ExchangeIsDirect(h, n);
  }

  // ------------------------------------------------------------------ which core answers

  /** The server module's choice on the first complete message of a session. */
  predicate ClassicalMode(msg: Bytes) { |msg| == Edhoc03.MSG1_LEN && msg[0] <= 3 }

  /** Each message_1 is dispatched to the only core that could accept it: the other one would refuse to parse it. */
  lemma {:induction false} DispatchLosesNothing(S: Suite, c3: Edhoc03.Ctx, c4: Edhoc4.Ctx, msg: Bytes, y: Bytes, encE: XWing.Coins,
                                                encA: XWing.Coins, cap: nat)
    requires c3.role == 0 && c4.role == 0 && Edhoc4.Sized(c4)
    ensures ClassicalMode(msg) <==> Edhoc03.HandleMsg1(S, c3, msg, y, cap).rc != Edhoc03.ERR_PARSE
    ensures ClassicalMode(msg) ==> Edhoc4.HandleMsg1(S, c4, msg, encE, encA, cap).rc == Edhoc4.ERR_PARSE
  {
    hide Edhoc03.Seal, Edhoc03.Mac, Hkdf.Extract, Edhoc03.Th2, Edhoc03.SigMessage, Edhoc03.ThNext;
  }

  /** Each initiator's message_1 is dispatched to the core of its own method. */
  lemma {:induction false} DispatchFindsTheMaker(S: Suite, c3: Edhoc03.Ctx, x: Bytes, c4: Edhoc4.Ctx, key: XWing.Coins,
                                                 enc: XWing.Coins, cap: nat)
    requires Lawful(S) && Edhoc4.Sized(c4) && Edhoc4.WellFormed(S, c4.self) && |key.x| == X_LEN
    ensures var m := Edhoc03.MakeMsg1(S, c3, x, cap); m.rc == Edhoc03.OK ==> ClassicalMode(m.out)
    ensures var m := Edhoc4.MakeMsg1(S, c4, key, enc, cap); m.rc == Edhoc4.OK ==> !ClassicalMode(m.out)
  {
    if c4.role == 1 {
      Edhoc4Runs.Msg1Kept(S, c4, key, enc, cap);
    }
    assert |S.base(x)| == X_LEN;
    hide Lawful, Edhoc4.WellFormed, Edhoc4.Sized, XWing.Keypair, XWing.Encaps, Edhoc4.Seal;
  }
}
