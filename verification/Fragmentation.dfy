/** The EAP fragmentation layer both peers run: a sender that cuts a message into fragments of at most 1000 bytes, a
    receiver that acknowledges every non-final one and reassembles, and a reaction function on top of a handshake core.
    The client engine (e2e_radius_bench.c) and the server module (rlm_eap_edhoc.c) are two instances of it. */
module Fragmentation {
  import opened Primitives

  const WIRE_MAX: nat := 1000
  const FIRST_CAP: nat := 997
  const NEXT_CAP: nat := 999
  const MAX_MSG: nat := 8192
  const FLAG_LEN: byte := 0x80
  const FLAG_MORE: byte := 0x40

  /** An outgoing message and how much of it has left; `out_len` is the length of `out`. */
  datatype Tx = Tx(out: Bytes, pos: nat)

  /** The announced length of an incoming message, 0 when idle, and the bytes received so far. */
  datatype Rx = Rx(len: nat, buf: Bytes)

  const IdleTx := Tx([], 0)
  const IdleRx := Rx(0, [])

  datatype Consumed = Error(code: int) | NeedAck | Message(msg: Bytes)

  // ------------------------------------------------------------------ sending

  function FragLen(t: Tx): nat
    requires t.pos <= |t.out|
  {
    var cap := if t.pos == 0 then FIRST_CAP else NEXT_CAP;
    if |t.out| - t.pos < cap then |t.out| - t.pos else cap
  }

  function Flags(more: bool, addLen: bool): byte {
    (if more then FLAG_MORE else 0) | (if addLen then FLAG_LEN else 0)
  }

  function FragmentWire(t: Tx): Bytes
    requires t.pos <= |t.out|
  {
    var more := |t.out| - t.pos > FragLen(t);
    var addLen := t.pos == 0 && more;
    [Flags(more, addLen)] + (if addLen then Be16(|t.out|) else []) + t.out[t.pos..t.pos + FragLen(t)]
  }

  function AfterFragment(t: Tx): Tx
    requires t.pos <= |t.out|
  {
    if t.pos + FragLen(t) >= |t.out| then IdleTx else t.(pos := t.pos + FragLen(t))
  }

  /** The first wire of a message and the sender state after it. */
  function Queue(out: Bytes): (Tx, Bytes) {
    if |out| <= FIRST_CAP then (IdleTx, [0x00] + out)
    else (AfterFragment(Tx(out, 0)), FragmentWire(Tx(out, 0)))
  }

  // ------------------------------------------------------------------ receiving

  predicate HasMore(flags: byte) { flags & FLAG_MORE != 0 }

  predicate HasLength(flags: byte) { flags & FLAG_LEN != 0 }

  /** The payload of a fragment whose length field, if any, has been dealt with. */
  function Body(r: Rx, payload: Bytes, more: bool): (Rx, Consumed) {
    if r.len != 0 then
      if |r.buf| + |payload| > r.len then (r, Error(-2)) else
      var r' := r.(buf := r.buf + payload);
      if more then (r', NeedAck)
      else if |r'.buf| != r'.len then (r', Error(-3))
      else (IdleRx, Message(r'.buf))
    else if more then (r, Error(-3))
    else (r, Message(payload))
  }

  function Consume(r: Rx, input: Bytes): (Rx, Consumed) {
    if |input| == 0 then (r, Error(-3)) else
    var more := HasMore(input[0]);
    if !HasLength(input[0]) then Body(r, input[1..], more) else
    if |input| < 3 then (r, Error(-3)) else
    var total := FromBe16(input[1..]);
    if total == 0 || total > MAX_MSG then (r, Error(-2)) else
    if r.len != 0 && r.len != total then (r, Error(-3)) else
    Body(if r.len == 0 then Rx(total, []) else r, input[3..], more)
  }

  // ------------------------------------------------------------------ one fragment at a time

  /** How many fragments a message of n bytes takes. */
  function FragCount(n: nat): nat {
    if n <= FIRST_CAP then 1 else 1 + (n - FIRST_CAP + NEXT_CAP - 1) / NEXT_CAP
  }

  /** Fragments still to be sent from position `pos` of an n-byte message that is being fragmented. */
  function Remaining(n: nat, pos: nat): nat
    requires FIRST_CAP <= pos <= n
  {
    (n - pos + NEXT_CAP - 1) / NEXT_CAP
  }

  /** The receiver has exactly what the sender has sent. */
  predicate InStep(t: Tx, r: Rx) {
    FIRST_CAP <= t.pos < |t.out| <= MAX_MSG && r == Rx(|t.out|, t.out[..t.pos])
  }

  /** A first fragment of a long message is at most 1000 bytes, is acknowledged, and leaves both ends in step. */
  lemma {:induction false} FirstFragment(out: Bytes)
    requires FIRST_CAP < |out| <= MAX_MSG
    ensures var (t, wire) := Queue(out);
            && |wire| == WIRE_MAX && t == Tx(out, FIRST_CAP)
            && Consume(IdleRx, wire) == (Rx(|out|, out[..FIRST_CAP]), NeedAck)
  {
    var t := Tx(out, 0);
    var wire := FragmentWire(t);
    assert Flags(true, true) & FLAG_LEN != 0 && Flags(true, true) & FLAG_MORE != 0;
    assert wire[1..] == Be16(|out|) + out[..FIRST_CAP];
    Be16RoundTrip(|out|, out[..FIRST_CAP]);
    assert wire[3..] == out[..FIRST_CAP];
    assert [] + out[..FIRST_CAP] == out[..FIRST_CAP];
  }

  /** A later fragment is acknowledged and keeps both ends in step unless it is the last; the last one delivers the
      message and leaves both ends idle. */
  lemma {:induction false} NextFragment(t: Tx, r: Rx)
    requires InStep(t, r)
    ensures |FragmentWire(t)| <= WIRE_MAX
    ensures var (r', k) := Consume(r, FragmentWire(t));
            var t' := AfterFragment(t);
            if |t.out| - t.pos > NEXT_CAP
            then k == NeedAck && t'.out == t.out && InStep(t', r')
                 && Remaining(|t.out|, t.pos) == 1 + Remaining(|t.out|, t'.pos)
            else k == Message(t.out) && r' == IdleRx && t' == IdleTx && Remaining(|t.out|, t.pos) == 1
  {
    var wire := FragmentWire(t);
    var more := |t.out| - t.pos > NEXT_CAP;
    assert Flags(more, false) & FLAG_LEN == 0 && (Flags(more, false) & FLAG_MORE != 0 <==> more);
    assert wire[1..] == t.out[t.pos..t.pos + FragLen(t)];
    assert t.out[..t.pos] + t.out[t.pos..t.pos + FragLen(t)] == t.out[..t.pos + FragLen(t)];
    if !more {
      assert t.out[..t.pos + FragLen(t)] == t.out;
    }
  }

  /** A short message is a single fragment that the idle receiver delivers at once. */
  lemma {:induction false} SingleFragment(out: Bytes)
    requires |out| <= FIRST_CAP
    ensures var (t, wire) := Queue(out);
            t == IdleTx && |wire| == 1 + |out| && Consume(IdleRx, wire) == (IdleRx, Message(out))
  {
    var wire := [0x00] + out;
    assert wire[1..] == out;
  }

  // ------------------------------------------------------------------ the format of a wire

  /** Bit 7 of the flags announces a length and bit 6 says that more follows, whatever the other bits are. */
  lemma FlagBits(flags: byte)
    ensures HasLength(flags) <==> flags as int / 128 % 2 == 1
    ensures HasMore(flags) <==> flags as int / 64 % 2 == 1
  {
  }

  /** The wires of a message: the first of several has both flags, the length in two octets and 997 bytes of payload; the next
      ones have the second flag and 999 bytes; the last one, or the only one, has no flag. */
  lemma WireBytes(out: Bytes, pos: nat)
    requires pos <= |out|
    ensures FragmentWire(Tx(out, pos)) ==
            if pos == 0 && |out| > 997 then [0xC0] + Be16(|out|) + out[..997]
            else if pos > 0 && |out| - pos > 999 then [0x40] + out[pos..pos + 999]
            else [0x00] + out[pos..]
  {
    hide Be16;
    assert [0x00] + [] + out[pos..] == [0x00] + out[pos..];
    if pos > 0 && |out| - pos > 999 {
      assert [0x40] + [] + out[pos..pos + 999] == [0x40] + out[pos..pos + 999];
    }
  }

  /** Without an announced length, everything after the flags is payload. */
  lemma PlainRead(r: Rx, flags: byte, payload: Bytes)
    requires !HasLength(flags)
    ensures Consume(r, [flags] + payload) == Body(r, payload, HasMore(flags))
  {
    hide HasMore, HasLength, Body;
    assert ([flags] + payload)[1..] == payload;
  }

  /** Two octets, most significant first. */
  lemma PairValue(high: byte, low: byte)
    ensures FromBe16([high, low]) == 256 * (high as int) + low as int
  {
  }

  /** An announced length is the two octets after the flags; it must be 1 to 8192 (-2) and that announced before (-3). */
  lemma LengthRead(r: Rx, flags: byte, high: byte, low: byte, payload: Bytes)
    requires HasLength(flags)
    ensures var total := FromBe16([high, low]);
            Consume(r, [flags, high, low] + payload) ==
            if total == 0 || total > 8192 then (r, Error(-2))
            else if r.len != 0 && r.len != total then (r, Error(-3))
            else Body(if r.len == 0 then Rx(total, []) else r, payload, HasMore(flags))
  {
    hide HasMore, HasLength, Body;
    var w := [flags, high, low] + payload;
    assert w[1..][0] == high && w[1..][1] == low && w[3..] == payload;
    assert FromBe16(w[1..]) == FromBe16([high, low]);
    hide FromBe16;
  }

  /** The first wire of a message that fits one is a zero and the message; a longer one starts as WireBytes says. */
  lemma QueueBytes(out: Bytes)
    ensures if |out| <= 997 then Queue(out) == (Tx([], 0), [0x00] + out)
            else Queue(out) == (Tx(out, 997), [0xC0] + Be16(|out|) + out[..997])
  {
    hide Be16;
    WireBytes(out, 0);
  }

  /** What becomes of a payload, and of the receiver: complete, one more piece, too much (-2), or out of place (-3). */
  lemma BodyMeans(r: Rx, payload: Bytes, more: bool)
    ensures var (t, k) := Body(r, payload, more);
            var n := |r.buf| + |payload|;
            && (k.Message? <==> !more && (r.len == 0 || n == r.len))
            && (k.NeedAck? <==> more && r.len != 0 && n <= r.len)
            && (k == Error(-2) <==> r.len != 0 && n > r.len)
            && (k.Error? ==> k == Error(-2) || k == Error(-3))
            && (k.Message? ==> k.msg == (if r.len == 0 then payload else r.buf + payload) && (r.len != 0 ==> t == Rx(0, [])))
            && (k.NeedAck? ==> t == Rx(r.len, r.buf + payload))
  {
  }
}
