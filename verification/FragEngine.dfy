/** The client engine as an object: fixed reassembly and output buffers, updated in place by every reaction. */
module FragEngine {
  import opened Primitives
  import opened Fragmentation
  import opened FragExchange

  /** The return code, the acknowledgement flag and the message of eng_consume as one value. */
  function Verdict(msg: Option<Bytes>, needAck: bool, rc: int): Consumed {
    if rc != 0 then Error(rc) else if needAck then NeedAck else Message(if msg.Some? then msg.value else [])
  }

  class Engine {
    const makeMsg1: Option<Bytes>
    const onMsg2: Bytes -> Option<Bytes>
    const onMsg4: Bytes -> bool
    const inBuf: array<byte>
    const outBuf: array<byte>
    var inLen: nat
    var inPos: nat
    var outLen: nat
    var outPos: nat
    var step: nat

    ghost predicate Valid()
      reads this
    {
      && inBuf.Length == MAX_MSG && outBuf.Length == MAX_MSG && inBuf != outBuf
      && inPos <= inLen <= MAX_MSG && outLen <= MAX_MSG
      && (outPos < outLen || outLen == outPos == 0) && (inLen == 0 ==> inPos == 0)
      && (makeMsg1.Some? ==> |makeMsg1.value| <= MAX_MSG)
    }

    ghost function Sender(): Tx
      requires Valid()
      reads this, outBuf
    {
      Tx(outBuf[..outLen], outPos)
    }

    ghost function Receiver(): Rx
      requires Valid()
      reads this, inBuf
    {
      Rx(inLen, inBuf[..inPos])
    }

    ghost function View(): Peer
      requires Valid()
      reads this, inBuf, outBuf
    {
      Peer(Sender(), Receiver(), step)
    }

    constructor (m1: Option<Bytes>, onMsg2: Bytes -> Option<Bytes>, onMsg4: Bytes -> bool)
      requires m1.Some? ==> |m1.value| <= MAX_MSG
      ensures Valid() && fresh(inBuf) && fresh(outBuf) && View() == Peer(IdleTx, IdleRx, 0)
      ensures makeMsg1 == m1 && this.onMsg2 == onMsg2 && this.onMsg4 == onMsg4
    {
      makeMsg1, this.onMsg2, this.onMsg4 := m1, onMsg2, onMsg4;
      inBuf, outBuf := new byte[MAX_MSG], new byte[MAX_MSG];
      inLen, inPos, outLen, outPos, step := 0, 0, 0, 0, 0;
    }

    /** One outbound fragment; the output state is cleared with the last one. */
    method SendFragment() returns (wire: Bytes)
      requires Valid()
      modifies this`outPos, this`outLen
      ensures Valid() && wire == FragmentWire(old(Sender())) && Sender() == AfterFragment(old(Sender()))
    {
      var remaining := outLen - outPos;
      var fragCap := if outPos == 0 then FIRST_CAP else NEXT_CAP;
      var fragLen := if remaining < fragCap then remaining else fragCap;
      var addLen := outPos == 0 && remaining > fragLen;
      wire := [(if remaining > fragLen then FLAG_MORE else 0) | (if addLen then FLAG_LEN else 0)];
      if addLen {
        wire := wire + Be16(outLen);
      }
      assert outBuf[..outLen][outPos..outPos + fragLen] == outBuf[outPos..outPos + fragLen];
      wire := wire + outBuf[outPos..outPos + fragLen];
      outPos := outPos + fragLen;
      if outPos >= outLen {
        outLen := 0;
        outPos := 0;
      }
    }

    /** Takes over a complete outbound message, as the handlers leave it in the output buffer, and emits its first
        fragment. */
    method QueueOutgoing(msg: Bytes) returns (wire: Bytes)
      requires Valid() && outLen == 0 && |msg| <= MAX_MSG
      modifies this`outPos, this`outLen, outBuf
      ensures Valid() && (Sender(), wire) == Queue(msg)
    {
      forall k | 0 <= k < |msg| { outBuf[k] := msg[k]; }
      if |msg| <= FIRST_CAP {
        wire := [0x00] + msg;
      } else {
        outLen, outPos := |msg|, 0;
        assert outBuf[..outLen] == msg;
        wire := SendFragment();
      }
    }

    /** Copies a payload behind what has been received. */
    method Append(payload: Bytes)
      requires Valid() && inPos + |payload| <= inLen
      modifies this`inPos, inBuf
      ensures Valid() && inPos == old(inPos) + |payload|
      ensures inBuf[..inPos] == old(inBuf[..inPos]) + payload
    {
      forall k | 0 <= k < |payload| { inBuf[inPos + k] := payload[k]; }
      assert inBuf[..inPos + |payload|] == old(inBuf[..inPos]) + payload;
      inPos := inPos + |payload|;
    }

    /** What a payload does once the flags and the length field have been read. */
    method ConsumePayload(payload: Bytes, more: bool) returns (msg: Option<Bytes>, needAck: bool, rc: int)
      requires Valid()
      modifies this`inPos, this`inLen, inBuf
      ensures Valid() && (Receiver(), Verdict(msg, needAck, rc)) == Body(old(Receiver()), payload, more)
      ensures msg.Some? <==> rc == 0 && !needAck
    {
      msg, needAck, rc := None, false, 0;
      if inLen != 0 {
        if inPos + |payload| > inLen { rc := -2; return; }
        Append(payload);
        if more { needAck := true; return; }
        if inPos != inLen { rc := -3; return; }
        msg := Some(inBuf[..inLen]);
        inLen, inPos := 0, 0;
        return;
      }
      if more { rc := -3; return; }
      msg := Some(payload);
    }

    /** Consumes one inbound fragment; a complete message is returned, otherwise an error or a request to acknowledge. */
    method ConsumeFragment(input: Bytes) returns (msg: Option<Bytes>, needAck: bool, rc: int)
      requires Valid()
      modifies this`inPos, this`inLen, inBuf
      ensures Valid() && (Receiver(), Verdict(msg, needAck, rc)) == Consume(old(Receiver()), input)
      ensures msg.Some? <==> rc == 0 && !needAck
    {
      hide Body, FromBe16, HasLength, HasMore;
      msg, needAck, rc := None, false, 0;
      if |input| == 0 { rc := -3; return; }
      var flags := input[0];
      var pos := 1;
      if HasLength(flags) {
        if |input| < 3 { rc := -3; return; }
        var total := FromBe16(input[pos..]);
        pos := pos + 2;
        if total == 0 || total > MAX_MSG { rc := -2; return; }
        if inLen == 0 {
          inLen, inPos := total, 0;
        } else if inLen != total {
          rc := -3;
          return;
        }
      }
      msg, needAck, rc := ConsumePayload(input[pos..], HasMore(flags));
    }

    /** Reacts to one inbound wire: the reaction of the client core behind the fragmentation layer. */
    method ReactTo(input: Bytes) returns (wire: Option<Bytes>)
      requires Valid() && (forall m: Bytes :: onMsg2(m).Some? ==> |onMsg2(m).value| <= MAX_MSG)
      modifies this, inBuf, outBuf
      ensures Valid()
      ensures var r := React(ClientCore(makeMsg1, onMsg2, onMsg4), old(View()), input);
              && View() == r.peer && r.out == (match wire case None => Dead case Some(w) => Wire(w))
    {
      hide Consume, FragmentWire, AfterFragment, Queue, FragLen;
      if outPos < outLen {
        var w := SendFragment();
        return Some(w);
      }
      var msg, needAck, rc := ConsumeFragment(input);
      if rc != 0 { return None; }
      if needAck { return Some([0x00]); }
      if step == 0 {
        if makeMsg1.None? { return None; }
        step := 1;
        var w := QueueOutgoing(makeMsg1.value);
        return Some(w);
      } else if step == 1 {
        var m3 := onMsg2(msg.value);
        if m3.None? { return None; }
        step := 2;
        var w := QueueOutgoing(m3.value);
        return Some(w);
      } else if step == 2 {
        if !onMsg4(msg.value) { return None; }
        step := 3;
        return Some([0x00]);
      } else {
        return None;
      }
    }
  }
}
