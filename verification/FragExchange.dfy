/** Two fragmenting peers in lock step: every message either peer's handshake core produces arrives whole at the other
    core, the whole exchange ends in a computed number of wires, and nothing but whole messages reaches a core. */
module FragExchange {
  import opened Primitives
  import opened Fragmentation

  /** What a handshake core answers to a complete message. */
  datatype Reply = Fail | Send(out: Bytes) | Ack | Success

  datatype Answer = Answer(step: nat, reply: Reply)

  /** A core sees its step and a complete message. */
  type Core = (nat, Bytes) -> Answer

  datatype Peer = Peer(tx: Tx, rx: Rx, step: nat)

  datatype Outcome = Dead | Wire(w: Bytes) | Finished

  /** One reaction: the new peer state, what goes out, and the message handed to the core, if any. */
  datatype Reaction = Reaction(peer: Peer, out: Outcome, handled: Option<Bytes>)

  const ACK: Bytes := [0x00]

  /** A pending outgoing message is continued whatever arrives; otherwise the input is consumed. */
  function React(core: Core, p: Peer, input: Bytes): Reaction
    requires p.tx.pos <= |p.tx.out|
  {
    if p.tx.pos < |p.tx.out| then Reaction(p.(tx := AfterFragment(p.tx)), Wire(FragmentWire(p.tx)), None)
    else
      var (rx, k) := Consume(p.rx, input);
      match k
      case Error(_) => Reaction(p.(rx := rx), Dead, None)
      case NeedAck => Reaction(p.(rx := rx), Wire(ACK), None)
      case Message(m) => Dispatch(core, p.(rx := rx), m)
  }

  function Dispatch(core: Core, p: Peer, m: Bytes): Reaction {
    var a := core(p.step, m);
    match a.reply
    case Fail => Reaction(p, Dead, Some(m))
    case Send(o) => Reaction(p.(step := a.step, tx := Queue(o).0), Wire(Queue(o).1), Some(m))
    case Ack => Reaction(p.(step := a.step), Wire(ACK), Some(m))
    case Success => Reaction(p.(step := a.step), Finished, Some(m))
  }

  // ------------------------------------------------------------------ the client engine and the server module

  /** The benchmark engine: message_1 on start, then message_2 to message_3, then (method 4) message_4. */
  function ClientCore(m1: Option<Bytes>, onMsg2: Bytes -> Option<Bytes>, onMsg4: Bytes -> bool): Core {
    (step: nat, m: Bytes) =>
      if step == 0 then (if m1.Some? then Answer(1, Send(m1.value)) else Answer(0, Fail))
      else if step == 1 then (match onMsg2(m) case Some(m3) => Answer(2, Send(m3)) case None => Answer(1, Fail))
      else if step == 2 then (if onMsg4(m) then Answer(3, Ack) else Answer(2, Fail))
      else Answer(step, Fail)
  }

  /** The server module: message_1 to message_2, then message_3; methods 0 to 3 succeed there, method 4 answers with
      message_4 and succeeds on the closing empty acknowledgement. */
  function ServerCore(classical: bool, onMsg1: Bytes -> Option<Bytes>, onMsg3: Bytes -> Option<Bytes>): Core {
    (round: nat, m: Bytes) =>
      if round == 0 then (match onMsg1(m) case Some(m2) => Answer(1, Send(m2)) case None => Answer(0, Fail))
      else if round == 1 then
        (match onMsg3(m)
         case None => Answer(1, Fail)
         case Some(m4) => if classical then Answer(1, Success) else Answer(2, Send(m4)))
      else if round == 2 then (if |m| == 0 then Answer(2, Success) else Answer(2, Fail))
      else Answer(round, Fail)
  }

  // ------------------------------------------------------------------ the lock-step system

  datatype Side = Client | Server

  function Other(s: Side): Side { if s == Client then Server else Client }

  datatype System = System(client: Core, server: Core)

  datatype Handled = Handled(who: Side, step: nat, msg: Bytes)

  datatype Status = Running | Broken | Done

  /** One wire is under way, towards `to`; the log lists the calls of the two cores so far. */
  datatype Conf = Conf(client: Peer, server: Peer, wire: Bytes, to: Side, status: Status, log: seq<Handled>)

  function CoreOf(s: System, side: Side): Core { if side == Client then s.client else s.server }

  function PeerOf(c: Conf, side: Side): Peer { if side == Client then c.client else c.server }

  function SetPeer(c: Conf, side: Side, p: Peer): Conf { if side == Client then c.(client := p) else c.(server := p) }

  predicate Sane(c: Conf) { c.client.tx.pos <= |c.client.tx.out| && c.server.tx.pos <= |c.server.tx.out| }

  /** The effect of one reaction of `c.to`. */
  function Apply(c: Conf, r: Reaction): Conf {
    var d := SetPeer(c, c.to, r.peer).(
      log := c.log + (match r.handled case Some(m) => [Handled(c.to, PeerOf(c, c.to).step, m)] case None => []));
    match r.out
    case Dead => d.(status := Broken, wire := [])
    case Wire(w) => d.(wire := w, to := Other(c.to))
    case Finished => d.(status := Done, wire := [])
  }

  function Step(s: System, c: Conf): Conf {
    if c.status != Running || !Sane(c) then c
    else Apply(c, React(CoreOf(s, c.to), PeerOf(c, c.to), c.wire))
  }

  function Iterate(s: System, c: Conf, n: nat): Conf
    decreases n
  {
    if n == 0 then c else Iterate(s, Step(s, c), n - 1)
  }

  lemma {:induction false} IterateSplits(s: System, c: Conf, m: nat, n: nat)
    ensures Iterate(s, c, m + n) == Iterate(s, Iterate(s, c, m), n)
    decreases m
  {
    if m > 0 {
      IterateSplits(s, Step(s, c), m - 1, n);
    }
  }

  /** Both ends idle, with the first wire of `out` under way to `c.to`. */
  predicate Sending(c: Conf, out: Bytes) {
    && c.status == Running && |out| <= MAX_MSG
    && PeerOf(c, c.to).tx == IdleTx && PeerOf(c, c.to).rx == IdleRx && PeerOf(c, Other(c.to)).rx == IdleRx
    && PeerOf(c, Other(c.to)).tx == Queue(out).0 && c.wire == Queue(out).1
  }

  /** The configuration after `out` has arrived whole and the core of `c.to` has answered. */
  function Arrived(s: System, c: Conf, out: Bytes): Conf {
    var idle := SetPeer(c, Other(c.to), PeerOf(c, Other(c.to)).(tx := IdleTx));
    Apply(idle, Dispatch(CoreOf(s, c.to), PeerOf(c, c.to), out))
  }

  /** Mid-message: an acknowledgement is under way to the sender, and sender and receiver are in step. */
  lemma {:induction false} RestArrives(s: System, c: Conf, t: Tx, r: Rx)
    requires c.status == Running && c.wire == ACK && InStep(t, r)
    requires PeerOf(c, c.to).tx == t && PeerOf(c, c.to).rx == IdleRx
    requires PeerOf(c, Other(c.to)).tx == IdleTx && PeerOf(c, Other(c.to)).rx == r
    ensures Iterate(s, c, 2 * Remaining(|t.out|, t.pos))
            == Arrived(s, SetPeer(c, Other(c.to), PeerOf(c, Other(c.to)).(rx := IdleRx)).(to := Other(c.to)), t.out)
    decreases |t.out| - t.pos
  {
    NextFragment(t, r);
    hide Consume, FragmentWire, AfterFragment, FragLen, Be16, Dispatch, Remaining, Queue;
    var c1 := Step(s, c);
    assert c1 == SetPeer(c, c.to, PeerOf(c, c.to).(tx := AfterFragment(t))).(wire := FragmentWire(t), to := Other(c.to));
    var c2 := Step(s, c1);
    assert Iterate(s, c, 2) == c2 by {
      assert Iterate(s, c, 2) == Iterate(s, c1, 1) == Iterate(s, c2, 0);
    }
    if |t.out| - t.pos > NEXT_CAP {
      var t', r' := AfterFragment(t), Consume(r, FragmentWire(t)).0;
      RestArrives(s, c2, t', r');
      IterateSplits(s, c, 2, 2 * Remaining(|t.out|, t'.pos));
    }
  }

  lemma OneStep(s: System, c: Conf)
    ensures Iterate(s, c, 1) == Step(s, c)
  {
    hide Step;
    assert Iterate(s, Step(s, c), 0) == Step(s, c);
  }

  lemma {:induction false} ShortArrives(s: System, c: Conf, out: Bytes)
    requires Sending(c, out) && |out| <= FIRST_CAP
    ensures Step(s, c) == Arrived(s, c, out)
  {
    hide Consume, FragmentWire, AfterFragment, FragLen, Dispatch;
    SingleFragment(out);
  }

  lemma {:induction false} LongStarts(s: System, c: Conf, out: Bytes)
    requires Sending(c, out) && |out| > FIRST_CAP
    ensures var r := PeerOf(c, c.to).(rx := Rx(|out|, out[..FIRST_CAP]));
            InStep(Tx(out, FIRST_CAP), r.rx) && Step(s, c) == SetPeer(c, c.to, r).(wire := ACK, to := Other(c.to))
    ensures PeerOf(c, Other(c.to)).tx == Tx(out, FIRST_CAP)
  {
    hide Consume, FragmentWire, AfterFragment, FragLen, Dispatch;
    FirstFragment(out);
  }

  /** A message of any length up to the limit arrives whole after 2 F - 1 wires, F its fragment count: F fragments
      and one acknowledgement for each but the last. */
  lemma {:induction false} MessageArrives(s: System, c: Conf, out: Bytes)
    requires Sending(c, out)
    ensures Iterate(s, c, 2 * FragCount(|out|) - 1) == Arrived(s, c, out)
  {
    hide Consume, FragmentWire, AfterFragment, FragLen, Dispatch, Step, Iterate, Queue;
    var c1 := Step(s, c);
    OneStep(s, c);
    if |out| <= FIRST_CAP {
      ShortArrives(s, c, out);
    } else {
      LongStarts(s, c, out);
      RestArrives(s, c1, Tx(out, FIRST_CAP), Rx(|out|, out[..FIRST_CAP]));
      IterateSplits(s, c, 1, 2 * Remaining(|out|, FIRST_CAP));
    }
  }

  /** Wires from the first one of an n-byte message to its delivery. */
  function Wires(n: nat): nat { 2 * FragCount(n) - 1 }

  /** One leg of an exchange: `out` arrives and the core answers with the next message, whose first wire is on its way. */
  lemma {:induction false} Leg(s: System, c: Conf, out: Bytes, k: nat, o: Bytes) returns (d: Conf)
    requires Sending(c, out) && |o| <= MAX_MSG
    requires CoreOf(s, c.to)(PeerOf(c, c.to).step, out) == Answer(k, Send(o))
    ensures d == Iterate(s, c, Wires(|out|)) && Sending(d, o) && d.to == Other(c.to)
    ensures PeerOf(d, c.to).step == k && PeerOf(d, d.to).step == PeerOf(c, d.to).step
    ensures d.log == c.log + [Handled(c.to, PeerOf(c, c.to).step, out)]
  {
    MessageArrives(s, c, out);
    d := Arrived(s, c, out);
  }

  // ------------------------------------------------------------------ whole exchanges

  /** The server has sent EDHOC-Start, one byte 0x01. */
  const Start: Conf := Conf(Peer(IdleTx, IdleRx, 0), Peer(IdleTx, IdleRx, 0), [0x01], Client, Running, [])

  /** The client's reaction to EDHOC-Start. */
  lemma {:induction false} Started(s: System, m1: Bytes) returns (c1: Conf)
    requires |m1| <= MAX_MSG && s.client(0, []) == Answer(1, Send(m1))
    ensures c1 == Iterate(s, Start, 1) && Sending(c1, m1) && c1.to == Server && c1.client.step == 1 && c1.server.step == 0
    ensures c1.log == [Handled(Client, 0, [])]
  {
    var w: Bytes := [0x01];
    assert w[0] & FLAG_LEN == 0 && w[0] & FLAG_MORE == 0 && w[1..] == [];
    c1 := Step(s, Start);
    assert Iterate(s, c1, 0) == c1;
  }

  /** Method 4, last leg: message_4 arrives, the client acknowledges with an empty wire and the server succeeds. */
  lemma {:induction false} LastLeg(s: System, c: Conf, m4: Bytes) returns (d: Conf)
    requires Sending(c, m4) && c.to == Client && s.client(c.client.step, m4) == Answer(3, Ack)
    requires s.server(c.server.step, []) == Answer(2, Success)
    ensures d == Iterate(s, c, Wires(|m4|) + 1)
    ensures d.status == Done && d.client == Peer(IdleTx, IdleRx, 3) && d.server == Peer(IdleTx, IdleRx, 2)
    ensures d.log == c.log + [Handled(Client, c.client.step, m4), Handled(Server, c.server.step, [])]
  {
    MessageArrives(s, c, m4);
    SingleFragment([]);
    assert [0x00] + [] == ACK;
    var c1 := Arrived(s, c, m4);
    d := Step(s, c1);
    assert Iterate(s, c1, 1) == d by { assert Iterate(s, d, 0) == d; }
    IterateSplits(s, c, Wires(|m4|), 1);
  }

  /** Method 4 over fragments: whatever the sizes of the four messages, the cores are called on exactly those messages,
      in order and once each, and the exchange succeeds after the stated number of wires. */
  lemma {:induction false} PqExchange(m1: Bytes, m2: Bytes, m3: Bytes, m4: Bytes, onMsg1: Bytes -> Option<Bytes>,
                                      onMsg2: Bytes -> Option<Bytes>, onMsg3: Bytes -> Option<Bytes>, onMsg4: Bytes -> bool)
    requires |m1| <= MAX_MSG && |m2| <= MAX_MSG && |m3| <= MAX_MSG && |m4| <= MAX_MSG
    requires onMsg1(m1) == Some(m2) && onMsg2(m2) == Some(m3) && onMsg3(m3) == Some(m4) && onMsg4(m4)
    ensures var s := System(ClientCore(Some(m1), onMsg2, onMsg4), ServerCore(false, onMsg1, onMsg3));
            var end := Iterate(s, Start, 2 + Wires(|m1|) + Wires(|m2|) + Wires(|m3|) + Wires(|m4|));
            && end.status == Done && end.client == Peer(IdleTx, IdleRx, 3) && end.server == Peer(IdleTx, IdleRx, 2)
            && end.log == [Handled(Client, 0, []), Handled(Server, 0, m1), Handled(Client, 1, m2),
                           Handled(Server, 1, m3), Handled(Client, 2, m4), Handled(Server, 2, [])]
  {
    var s := System(ClientCore(Some(m1), onMsg2, onMsg4), ServerCore(false, onMsg1, onMsg3));
    hide Step, Wires, Queue, FragCount;
    var c1 := Started(s, m1);
    var c2 := Leg(s, c1, m1, 1, m2);
    var c3 := Leg(s, c2, m2, 2, m3);
    var c4 := Leg(s, c3, m3, 2, m4);
    var c5 := LastLeg(s, c4, m4);
    var n1, n2, n3, n4 := Wires(|m1|), Wires(|m2|), Wires(|m3|), Wires(|m4|);
    IterateSplits(s, c3, n3, n4 + 1);
    IterateSplits(s, c2, n2, n3 + (n4 + 1));
    IterateSplits(s, c1, n1, n2 + (n3 + (n4 + 1)));
    IterateSplits(s, Start, 1, n1 + (n2 + (n3 + (n4 + 1))));
  }

  /** Methods 0 to 3 over the same layer: the server succeeds on message_3. */
  lemma {:induction false} ClassicalExchange(m1: Bytes, m2: Bytes, m3: Bytes, onMsg1: Bytes -> Option<Bytes>,
                                             onMsg2: Bytes -> Option<Bytes>, onMsg3: Bytes -> Option<Bytes>)
    requires |m1| <= MAX_MSG && |m2| <= MAX_MSG && |m3| <= MAX_MSG
    requires onMsg1(m1) == Some(m2) && onMsg2(m2) == Some(m3) && onMsg3(m3).Some?
    ensures var s := System(ClientCore(Some(m1), onMsg2, _ => false), ServerCore(true, onMsg1, onMsg3));
            var end := Iterate(s, Start, 1 + Wires(|m1|) + Wires(|m2|) + Wires(|m3|));
            && end.status == Done && end.client.step == 2 && end.server.step == 1
            && end.log == [Handled(Client, 0, []), Handled(Server, 0, m1), Handled(Client, 1, m2), Handled(Server, 1, m3)]
  {
    var s := System(ClientCore(Some(m1), onMsg2, _ => false), ServerCore(true, onMsg1, onMsg3));
    hide Step, Wires, Queue, FragCount;
    var c1 := Started(s, m1);
    var c2 := Leg(s, c1, m1, 1, m2);
    var c3 := Leg(s, c2, m2, 2, m3);
    MessageArrives(s, c3, m3);
    var n1, n2, n3 := Wires(|m1|), Wires(|m2|), Wires(|m3|);
    WiresIs(|m3|);
    IterateSplits(s, c2, n2, n3);
    IterateSplits(s, c1, n1, n2 + n3);
    IterateSplits(s, Start, 1, n1 + (n2 + n3));
  }

  lemma WiresIs(n: nat)
    ensures Wires(n) == 2 * FragCount(n) - 1
  {
  }

  // ------------------------------------------------------------------ nothing but whole messages

  /** The payload of a wire, header and announced length removed. */
  function Payload(w: Bytes): Bytes {
    if |w| == 0 then [] else if !HasLength(w[0]) then w[1..] else if |w| < 3 then [] else w[3..]
  }

  function Payloads(ws: seq<Bytes>): Bytes {
    if |ws| == 0 then [] else Payloads(ws[..|ws| - 1]) + Payload(ws[|ws| - 1])
  }

  /** The receiver after a sequence of wires, starting idle. */
  function RxAfter(ws: seq<Bytes>): Rx {
    if |ws| == 0 then IdleRx else Consume(RxAfter(ws[..|ws| - 1]), ws[|ws| - 1]).0
  }

  /** Every wire of the sequence was merely acknowledged. */
  predicate AllAcked(ws: seq<Bytes>) {
    |ws| > 0 ==> AllAcked(ws[..|ws| - 1]) && Consume(RxAfter(ws[..|ws| - 1]), ws[|ws| - 1]).1 == NeedAck
  }

  predicate Announces(w: Bytes, n: nat) {
    |w| >= 3 && HasLength(w[0]) && FromBe16(w[1..]) == n
  }

  lemma {:induction false} AckedPrefix(ws: seq<Bytes>) returns (n: nat)
    requires |ws| > 0 && AllAcked(ws)
    ensures 0 < n <= MAX_MSG && Announces(ws[0], n) && RxAfter(ws) == Rx(n, Payloads(ws))
  {
    hide FromBe16, HasLength, HasMore;
    var ws' := ws[..|ws| - 1];
    if |ws| == 1 {
      n := FromBe16(ws[0][1..]);
      assert Payloads(ws) == Payload(ws[0]) == [] + Payload(ws[0]);
    } else {
      n := AckedPrefix(ws');
    }
  }

  /** Only complete messages reach a core, whoever sends and whatever was sent: a delivered message is the payloads of
      the wires since the receiver was last idle, and has the announced length if it came in more than one wire. */
  lemma {:induction false} OnlyWholeMessages(ws: seq<Bytes>, w: Bytes, m: Bytes)
    requires AllAcked(ws) && Consume(RxAfter(ws), w).1 == Message(m)
    ensures m == Payloads(ws + [w]) && Consume(RxAfter(ws), w).0 == IdleRx
    ensures |ws| > 0 ==> Announces(ws[0], |m|)
    ensures |ws| == 0 ==> m == Payload(w)
  {
    hide FromBe16, HasLength, HasMore;
    assert (ws + [w])[..|ws|] == ws;
    if |ws| == 0 {
      assert [] + Payload(w) == Payload(w);
    } else {
      var n := AckedPrefix(ws);
    }
  }

  // ------------------------------------------------------------------ what the peers do off the path of an exchange

  /** While fragments are left to send, the next one goes out whatever arrives, and the core is not called. */
  lemma PendingContinues(core: Core, p: Peer, input: Bytes)
    requires p.tx.pos < |p.tx.out|
    ensures var r := React(core, p, input);
            r.handled == None && r.out == Wire(FragmentWire(p.tx)) && r.peer == Peer(AfterFragment(p.tx), p.rx, p.step)
  {
  }

  /** Otherwise an error of reassembly ends the exchange, an incomplete message is acknowledged, and a complete one goes to the
      core. */
  lemma IdleReacts(core: Core, p: Peer, input: Bytes)
    requires p.tx.pos == |p.tx.out|
    ensures var r, k := React(core, p, input), Consume(p.rx, input).1;
            && (k.Error? ==> r.out == Dead && r.handled == None)
            && (k.NeedAck? ==> r.out == Wire([0x00]) && r.handled == None && r.peer.step == p.step)
            && (k.Message? ==> r.handled == Some(k.msg) && (r.out == Dead <==> core(p.step, k.msg).reply == Fail)
                               && (r.out == Finished <==> core(p.step, k.msg).reply == Success))
  {
    hide Consume, Queue;
  }

  /** The server answers message_1 in round 0 and message_3 in round 1; in round 2 it succeeds on an empty message and fails on
      any other, and after that on every one. */
  lemma ServerRounds(classical: bool, onMsg1: Bytes -> Option<Bytes>, onMsg3: Bytes -> Option<Bytes>, m: Bytes)
    ensures var s := ServerCore(classical, onMsg1, onMsg3);
            && (onMsg1(m).None? ==> s(0, m).reply == Fail) && (onMsg1(m).Some? ==> s(0, m) == Answer(1, Send(onMsg1(m).value)))
            && (onMsg3(m).None? ==> s(1, m).reply == Fail)
            && (onMsg3(m).Some? ==> s(1, m) == if classical then Answer(1, Success) else Answer(2, Send(onMsg3(m).value)))
            && (s(2, m).reply == Success <==> m == []) && (m != [] ==> s(2, m).reply == Fail)
            && forall n: nat | n > 2 :: s(n, m).reply == Fail
  {
  }

  /** The client sends message_1 on the start, answers message_2, and acknowledges a message_4 that its core takes. */
  lemma ClientSteps(m1: Option<Bytes>, onMsg2: Bytes -> Option<Bytes>, onMsg4: Bytes -> bool, m: Bytes)
    ensures var c := ClientCore(m1, onMsg2, onMsg4);
            && c(0, m) == (if m1.Some? then Answer(1, Send(m1.value)) else Answer(0, Fail))
            && (onMsg2(m).None? ==> c(1, m).reply == Fail) && (onMsg2(m).Some? ==> c(1, m) == Answer(2, Send(onMsg2(m).value)))
            && c(2, m) == (if onMsg4(m) then Answer(3, Ack) else Answer(2, Fail))
            && forall n: nat | n > 2 :: c(n, m).reply == Fail
  {
  }
}
