/** The outcome of every exchange over the fragmentation layer, whatever the handlers do: it ends, and both its verdict
    and the calls of the handlers are those of the handlers run one after another on whole messages. */
module FragOutcome {
  import opened Primitives
  import opened Fragmentation
  import opened FragExchange

  /** The handlers of an exchange; None is a handler that fails.  In a classical exchange, methods 0 to 3, the server
      succeeds on message_3; otherwise it sends message_4. */
  datatype Handlers = Handlers(
    classical: bool, start: Option<Bytes>, onMsg1: Bytes -> Option<Bytes>, onMsg2: Bytes -> Option<Bytes>,
    onMsg3: Bytes -> Option<Bytes>, onMsg4: Bytes -> bool)

  /** What a handler emits fits its output buffer. */
  ghost predicate Fits(h: Handlers) {
    && (h.start.Some? ==> |h.start.value| <= MAX_MSG)
    && (forall m :: h.onMsg1(m).Some? ==> |h.onMsg1(m).value| <= MAX_MSG)
    && (forall m :: h.onMsg2(m).Some? ==> |h.onMsg2(m).value| <= MAX_MSG)
    && (forall m :: h.onMsg3(m).Some? ==> |h.onMsg3(m).value| <= MAX_MSG)
  }

  function Parties(h: Handlers): System {
    System(ClientCore(h.start, h.onMsg2, h.onMsg4), ServerCore(h.classical, h.onMsg1, h.onMsg3))
  }

  /** The handlers one after another, on whole messages and without a network: the calls made and the verdict. */
  datatype Direct = Direct(calls: seq<Handled>, success: bool)

  function After4(h: Handlers, m4: Bytes): Direct {
    if h.onMsg4(m4) then Direct([Handled(Client, 2, m4), Handled(Server, 2, [])], true)
    else Direct([Handled(Client, 2, m4)], false)
  }

  function Before(call: Handled, d: Direct): Direct { Direct([call] + d.calls, d.success) }

  function After3(h: Handlers, m3: Bytes): Direct {
    match h.onMsg3(m3)
    case None => Direct([Handled(Server, 1, m3)], false)
    case Some(m4) =>
      if h.classical then Direct([Handled(Server, 1, m3)], true) else Before(Handled(Server, 1, m3), After4(h, m4))
  }

  function After2(h: Handlers, m2: Bytes): Direct {
    match h.onMsg2(m2)
    case None => Direct([Handled(Client, 1, m2)], false)
    case Some(m3) => Before(Handled(Client, 1, m2), After3(h, m3))
  }

  function After1(h: Handlers, m1: Bytes): Direct {
    match h.onMsg1(m1)
    case None => Direct([Handled(Server, 0, m1)], false)
    case Some(m2) => Before(Handled(Server, 0, m1), After2(h, m2))
  }

  function RunDirect(h: Handlers): Direct {
    match h.start
    case None => Direct([Handled(Client, 0, [])], false)
    case Some(m1) => Before(Handled(Client, 0, []), After1(h, m1))
  }

  /** The exchange has ended as the direct run says, having logged its calls after `log`. */
  ghost predicate Ended(end: Conf, log: seq<Handled>, d: Direct) {
    end.status == (if d.success then Done else Broken) && end.log == log + d.calls
  }

  lemma WiresBound(n: nat)
    requires n <= MAX_MSG
    ensures 1 <= Wires(n) <= 17
  {
  }

  /** A leg whose message makes the core fail ends the exchange. */
  lemma {:induction false} LegFails(s: System, c: Conf, out: Bytes, k: nat) returns (d: Conf)
    requires Sending(c, out) && CoreOf(s, c.to)(PeerOf(c, c.to).step, out) == Answer(k, Fail)
    ensures d == Iterate(s, c, Wires(|out|)) && d.status == Broken
    ensures d.log == c.log + [Handled(c.to, PeerOf(c, c.to).step, out)]
  {
    MessageArrives(s, c, out);
    d := Arrived(s, c, out);
  }

  lemma {:induction false} LegSucceeds(s: System, c: Conf, out: Bytes, k: nat) returns (d: Conf)
    requires Sending(c, out) && CoreOf(s, c.to)(PeerOf(c, c.to).step, out) == Answer(k, Success)
    ensures d == Iterate(s, c, Wires(|out|)) && d.status == Done
    ensures d.log == c.log + [Handled(c.to, PeerOf(c, c.to).step, out)]
  {
    MessageArrives(s, c, out);
    d := Arrived(s, c, out);
  }

  lemma {:induction false} From4(h: Handlers, c: Conf, m4: Bytes) returns (n: nat, end: Conf)
    requires Sending(c, m4) && c.to == Client && c.client.step == 2 && c.server.step == 2 && !h.classical
    ensures n <= 18 && end == Iterate(Parties(h), c, n) && Ended(end, c.log, After4(h, m4))
  {
    hide Step, Wires, Queue, FragCount;
    WiresBound(|m4|);
    if h.onMsg4(m4) {
      end := LastLeg(Parties(h), c, m4);
      n := Wires(|m4|) + 1;
    } else {
      end := LegFails(Parties(h), c, m4, 2);
      n := Wires(|m4|);
    }
  }

  lemma {:induction false} From3(h: Handlers, c: Conf, m3: Bytes) returns (n: nat, end: Conf)
    requires Fits(h) && Sending(c, m3) && c.to == Server && c.client.step == 2 && c.server.step == 1
    ensures n <= 35 && end == Iterate(Parties(h), c, n) && Ended(end, c.log, After3(h, m3))
  {
    hide Step, Wires, Queue, FragCount;
    WiresBound(|m3|);
    if h.onMsg3(m3).Some? && h.classical {
      end := LegSucceeds(Parties(h), c, m3, 1);
      n := Wires(|m3|);
    } else if h.onMsg3(m3).Some? {
      var d := Leg(Parties(h), c, m3, 2, h.onMsg3(m3).value);
      n, end := From4(h, d, h.onMsg3(m3).value);
      IterateSplits(Parties(h), c, Wires(|m3|), n);
      n := Wires(|m3|) + n;
    } else {
      end := LegFails(Parties(h), c, m3, 1);
      n := Wires(|m3|);
    }
  }

  lemma {:induction false} From2(h: Handlers, c: Conf, m2: Bytes) returns (n: nat, end: Conf)
    requires Fits(h) && Sending(c, m2) && c.to == Client && c.client.step == 1 && c.server.step == 1
    ensures n <= 52 && end == Iterate(Parties(h), c, n) && Ended(end, c.log, After2(h, m2))
  {
    hide Step, Wires, Queue, FragCount;
    WiresBound(|m2|);
    if h.onMsg2(m2).Some? {
      var d := Leg(Parties(h), c, m2, 2, h.onMsg2(m2).value);
      n, end := From3(h, d, h.onMsg2(m2).value);
      IterateSplits(Parties(h), c, Wires(|m2|), n);
      n := Wires(|m2|) + n;
    } else {
      end := LegFails(Parties(h), c, m2, 1);
      n := Wires(|m2|);
    }
  }

  lemma {:induction false} From1(h: Handlers, c: Conf, m1: Bytes) returns (n: nat, end: Conf)
    requires Fits(h) && Sending(c, m1) && c.to == Server && c.client.step == 1 && c.server.step == 0
    ensures n <= 69 && end == Iterate(Parties(h), c, n) && Ended(end, c.log, After1(h, m1))
  {
    hide Step, Wires, Queue, FragCount;
    WiresBound(|m1|);
    if h.onMsg1(m1).Some? {
      var d := Leg(Parties(h), c, m1, 1, h.onMsg1(m1).value);
      n, end := From2(h, d, h.onMsg1(m1).value);
      IterateSplits(Parties(h), c, Wires(|m1|), n);
      n := Wires(|m1|) + n;
    } else {
      end := LegFails(Parties(h), c, m1, 0);
      n := Wires(|m1|);
    }
  }

  lemma {:induction false} SoonEnded(h: Handlers) returns (n: nat)
    requires Fits(h)
    ensures n <= 70 && Ended(Iterate(Parties(h), Start, n), [], RunDirect(h))
  {
    hide Wires, Queue, FragCount;
    if h.start.Some? {
      var c := Started(Parties(h), h.start.value);
      var end;
      n, end := From1(h, c, h.start.value);
      IterateSplits(Parties(h), Start, 1, n);
      n := 1 + n;
    } else {
      StartFails(h);
      n := 1;
    }
  }

  lemma StartFails(h: Handlers)
    requires h.start.None?
    ensures Ended(Iterate(Parties(h), Start, 1), [], RunDirect(h))
  {
    var w: Bytes := [0x01];
    assert w[0] & FLAG_LEN == 0 && w[0] & FLAG_MORE == 0 && w[1..] == [];
    OneStep(Parties(h), Start);
  }

  lemma {:induction false} EndedStays(s: System, c: Conf, n: nat)
    requires c.status != Running
    ensures Iterate(s, c, n) == c
    decreases n
  {
    if n > 0 {
      EndedStays(s, c, n - 1);
    }
  }

  /** Fragmentation is transparent: every exchange has ended after 70 wires, as the direct run of the handlers does,
      with the same verdict and the same handlers called on the same whole messages in the same order. */
  lemma {:induction false} ExchangeIsDirect(h: Handlers, n: nat)
    requires Fits(h) && n >= 70
    ensures Ended(Iterate(Parties(h), Start, n), [], RunDirect(h))
  {
    hide Step, After1;
    var k := SoonEnded(h);
    IterateSplits(Parties(h), Start, k, n - k);
    EndedStays(Parties(h), Iterate(Parties(h), Start, k), n - k);
  }
}
