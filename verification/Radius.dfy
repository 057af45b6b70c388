/** RADIUS framing of the benchmark client: Access-Requests that carry an EAP packet in pieces of at most 253 bytes, and the
    parser that puts pieces and State together again (section 5 of RFC 2865, section 3.1 of RFC 3579). */
module Radius {
  import opened Primitives

  const USER_NAME: byte := 1
  const NAS_IP_ADDRESS: byte := 4
  const NAS_PORT: byte := 5
  const STATE: byte := 24
  const EAP_MESSAGE: byte := 79
  const MESSAGE_AUTH: byte := 80
  const ACCESS_REQUEST: byte := 1
  const EAP_CHUNK: nat := 253
  const MAX_PKT: nat := 4096

  datatype Attr = Attr(kind: byte, value: Bytes)

  function EncodeAttr(a: Attr): Bytes { [a.kind, Octet(|a.value| + 2)] + a.value }

  function EncodeAttrs(s: seq<Attr>): Bytes {
    if |s| == 0 then [] else EncodeAttr(s[0]) + EncodeAttrs(s[1..])
  }

  lemma {:induction false} EncodeConcat(s: seq<Attr>, t: seq<Attr>)
    ensures EncodeAttrs(s + t) == EncodeAttrs(s) + EncodeAttrs(t)
  {
    hide EncodeAttr;
    if |s| == 0 {
      assert s + t == t;
    } else {
      assert (s + t)[1..] == s[1..] + t;
      EncodeConcat(s[1..], t);
    }
  }

  // ------------------------------------------------------------------ parsing

  datatype Reply = Reply(eap: Bytes, state: Bytes)

  /** The attribute loop: it stops at the first attribute that does not fit. */
  function Parse(b: Bytes, r: Reply): Reply
    decreases |b|
  {
    if |b| < 2 then r
    else if b[1] as int < 2 || b[1] as int > |b| then r
    else Parse(b[b[1] as int..], Take(r, b[0], b[2..b[1] as int]))
  }

  function Take(r: Reply, kind: byte, v: Bytes): Reply {
    if kind == EAP_MESSAGE then r.(eap := r.eap + v) else if kind == STATE then r.(state := v) else r
  }

  /** What the attributes of a packet say: all EAP-Message values together, and the last State. */
  function Meaning(s: seq<Attr>, r: Reply): Reply {
    if |s| == 0 then r else Meaning(s[1..], Take(r, s[0].kind, s[0].value))
  }

  predicate Encodable(s: seq<Attr>) { forall a | a in s :: |a.value| <= EAP_CHUNK }

  lemma {:induction false} ParseOne(a: Attr, rest: Bytes, r: Reply)
    requires |a.value| <= EAP_CHUNK
    ensures Parse(EncodeAttr(a) + rest, r) == Parse(rest, Take(r, a.kind, a.value))
  {
    hide Octet, Take, Parse;
    var n := |a.value| + 2;
    SmallOctetValue(n);
    var b := EncodeAttr(a) + rest;
    assert b[0] == a.kind && b[1] == Octet(n);
    assert b[2..n] == a.value && b[n..] == rest;
    OneParsed(b, n, r);
  }

  lemma OneParsed(b: Bytes, n: nat, r: Reply)
    requires 2 <= n <= |b| && b[1] as int == n
    ensures Parse(b, r) == Parse(b[n..], Take(r, b[0], b[2..n]))
  {
    hide Take;
  }

  /** Parsing an encoded attribute list gives its meaning, whatever other attributes stand among them. */
  lemma {:induction false} ParseUndoesEncode(s: seq<Attr>, r: Reply)
    requires Encodable(s)
    ensures Parse(EncodeAttrs(s), r) == Meaning(s, r)
  {
    hide EncodeAttr, Take;
    if |s| > 0 {
      ParseOne(s[0], EncodeAttrs(s[1..]), r);
      hide Parse;
      ParseUndoesEncode(s[1..], Take(r, s[0].kind, s[0].value));
    }
  }

  lemma {:induction false} MeaningConcat(s: seq<Attr>, t: seq<Attr>, r: Reply)
    ensures Meaning(s + t, r) == Meaning(t, Meaning(s, r))
  {
    hide Take;
    if |s| == 0 {
      assert s + t == t;
    } else {
      assert (s + t)[1..] == s[1..] + t;
      MeaningConcat(s[1..], t, Take(r, s[0].kind, s[0].value));
    }
  }

  /** parse_reply: None is the error return for a packet shorter than its header. */
  method ParseReply(pkt: Bytes) returns (out: Option<(byte, Reply)>)
    ensures out == if |pkt| < 20 then None else Some((pkt[0], Parse(pkt[20..], Reply([], []))))
  {
    if |pkt| < 20 {
      return None;
    }
    var eap: Bytes, state: Bytes, pos := [], [], 20;
    while pos + 2 <= |pkt|
      invariant 20 <= pos <= |pkt|
      invariant Parse(pkt[20..], Reply([], [])) == Parse(pkt[pos..], Reply(eap, state))
      decreases |pkt| - pos
    {
      var t, l := pkt[pos], pkt[pos + 1] as int;
      if l < 2 || pos + l > |pkt| {
        return Some((pkt[0], Reply(eap, state)));
      }
      var v := pkt[pos + 2..pos + l];
      ParseStep(pkt, pos, Reply(eap, state));
      if t == EAP_MESSAGE {
        eap := eap + v;
      } else if t == STATE {
        state := v;
      }
      pos := pos + l;
    }
    out := Some((pkt[0], Reply(eap, state)));
  }

  lemma ParseStep(pkt: Bytes, pos: nat, r: Reply)
    requires pos + 2 <= |pkt| && 2 <= pkt[pos + 1] as int && pos + pkt[pos + 1] as int <= |pkt|
    ensures var l := pkt[pos + 1] as int;
            Parse(pkt[pos..], r) == Parse(pkt[pos + l..], Take(r, pkt[pos], pkt[pos + 2..pos + l]))
  {
    hide Take;
    var b, l := pkt[pos..], pkt[pos + 1] as int;
    assert b[1] == pkt[pos + 1] && b[0] == pkt[pos];
    assert b[l..] == pkt[pos + l..] && b[2..l] == pkt[pos + 2..pos + l];
  }

  // ------------------------------------------------------------------ the pieces of an EAP packet

  function Chunks(eap: Bytes): (s: seq<Attr>)
    ensures |s| >= 1
    decreases |eap|
  {
    if |eap| <= EAP_CHUNK then [Attr(EAP_MESSAGE, eap)]
    else [Attr(EAP_MESSAGE, eap[..EAP_CHUNK])] + Chunks(eap[EAP_CHUNK..])
  }

  lemma {:induction false} ChunksMean(eap: Bytes, r: Reply)
    ensures Encodable(Chunks(eap)) && Meaning(Chunks(eap), r) == r.(eap := r.eap + eap)
    ensures |Chunks(eap)| == if |eap| == 0 then 1 else (|eap| + EAP_CHUNK - 1) / EAP_CHUNK
    decreases |eap|
  {
    if |eap| <= EAP_CHUNK {
    } else {
      var rest := eap[EAP_CHUNK..];
      var first := Attr(EAP_MESSAGE, eap[..EAP_CHUNK]);
      ChunksMean(rest, Take(r, first.kind, first.value));
      assert ([first] + Chunks(rest))[1..] == Chunks(rest);
      assert r.eap + eap[..EAP_CHUNK] + rest == r.eap + eap;
    }
  }

  // ------------------------------------------------------------------ building a request

  function Head(identity: Bytes, state: Bytes): seq<Attr> {
    [Attr(USER_NAME, identity), Attr(NAS_IP_ADDRESS, [127, 0, 0, 1]), Attr(NAS_PORT, [0, 0, 0, 1])]
    + (if |state| > 0 then [Attr(STATE, state)] else [])
  }

  function Request(identity: Bytes, eap: Bytes, state: Bytes, mac: Bytes): seq<Attr> {
    Head(identity, state) + Chunks(eap) + [Attr(MESSAGE_AUTH, mac)]
  }

  function Packet(id: byte, auth: Bytes, attrs: Bytes): Bytes {
    [ACCESS_REQUEST, id] + Be16(20 + |attrs|) + auth + attrs
  }

  /** Whatever the Message-Authenticator, a request means its EAP packet and its State. */
  lemma {:induction false} RequestMeans(identity: Bytes, eap: Bytes, state: Bytes, mac: Bytes)
    requires |identity| <= EAP_CHUNK && |state| <= EAP_CHUNK && |mac| <= EAP_CHUNK
    ensures Encodable(Request(identity, eap, state, mac))
    ensures Meaning(Request(identity, eap, state, mac), Reply([], [])) == Reply(eap, state)
  {
    var h, c, m := Head(identity, state), Chunks(eap), [Attr(MESSAGE_AUTH, mac)];
    ChunksMean(eap, Reply([], state));
    HeadMeans(identity, state);
    hide Head, Chunks;
    MeaningConcat(h + c, m, Reply([], []));
    MeaningConcat(h, c, Reply([], []));
    assert [] + eap == eap;
    assert m[1..] == [];
  }

  lemma HeadMeans(identity: Bytes, state: Bytes)
    requires |identity| <= EAP_CHUNK && |state| <= EAP_CHUNK
    ensures Encodable(Head(identity, state)) && Meaning(Head(identity, state), Reply([], [])) == Reply([], state)
  {
    var a, b, c := Attr(USER_NAME, identity), Attr(NAS_IP_ADDRESS, [127, 0, 0, 1]), Attr(NAS_PORT, [0, 0, 0, 1]);
    var r := Reply([], []);
    var t := if |state| > 0 then [Attr(STATE, state)] else [];
    assert Head(identity, state) == [a] + ([b] + ([c] + t));
    MeaningConcat([a], [b] + ([c] + t), r);
    MeaningConcat([b], [c] + t, r);
    MeaningConcat([c], t, r);
  }

  /** put_attr: appends an attribute to a buffer. */
  method PutAttr(buf: array<byte>, len: nat, a: Attr) returns (len': nat)
    requires |a.value| <= EAP_CHUNK && len + 2 + |a.value| <= buf.Length
    modifies buf
    ensures len' == len + 2 + |a.value| && buf[..len'] == old(buf[..len]) + EncodeAttr(a)
  {
    hide Octet;
    ghost var before := buf[..len];
    buf[len] := a.kind;
    buf[len + 1] := Octet(|a.value| + 2);
    forall k | 0 <= k < |a.value| { buf[len + 2 + k] := a.value[k]; }
    len' := len + 2 + |a.value|;
    assert buf[len + 2..len'] == a.value;
    assert buf[..len'] == buf[..len] + [buf[len], buf[len + 1]] + buf[len + 2..len'];
    assert buf[..len] == before;
  }

  /** The chunk loop: at least one EAP-Message attribute, also for an empty packet. */
  method PutEap(buf: array<byte>, len: nat, eap: Bytes) returns (len': nat)
    requires len + |EncodeAttrs(Chunks(eap))| <= buf.Length
    modifies buf
    ensures len' == len + |EncodeAttrs(Chunks(eap))| && buf[..len'] == old(buf[..len]) + EncodeAttrs(Chunks(eap))
  {
    hide EncodeAttr, Chunks, EncodeAttrs;
    ghost var before, all := buf[..len], EncodeAttrs(Chunks(eap));
    len' := len;
    var off, first := 0, true;
    while first || off < |eap|
      invariant 0 <= off <= |eap| && len <= len' <= buf.Length
      invariant first ==> off == 0 && buf[..len'] == before
      invariant first || off < |eap| ==> before + all == buf[..len'] + EncodeAttrs(Chunks(eap[off..]))
      invariant !first && off == |eap| ==> buf[..len'] == before + all
      decreases |eap| - off, if first then 1 else 0
    {
      var chunk := if |eap| - off > EAP_CHUNK then EAP_CHUNK else |eap| - off;
      ghost var now := buf[..len'];
      ChunkStep(eap, off, chunk);
      EncodedLength(Attr(EAP_MESSAGE, eap[off..off + chunk]));
      len' := PutAttr(buf, len', Attr(EAP_MESSAGE, eap[off..off + chunk]));
      off := off + chunk;
      first := false;
    }
  }

  lemma EncodedLength(a: Attr)
    ensures |EncodeAttr(a)| == 2 + |a.value|
  {
  }

  lemma ChunkStep(eap: Bytes, off: nat, chunk: nat)
    requires off <= |eap| && chunk == (if |eap| - off > EAP_CHUNK then EAP_CHUNK else |eap| - off)
    ensures var a := Attr(EAP_MESSAGE, eap[off..off + chunk]);
            EncodeAttrs(Chunks(eap[off..]))
            == EncodeAttr(a) + (if off + chunk < |eap| then EncodeAttrs(Chunks(eap[off + chunk..])) else [])
  {
    hide EncodeAttr;
    var b, a := eap[off..], Attr(EAP_MESSAGE, eap[off..off + chunk]);
    if |b| <= EAP_CHUNK {
      assert b == eap[off..off + chunk];
      assert Chunks(b) == [a] && [a][1..] == [];
      assert EncodeAttr(a) + EncodeAttrs([]) == EncodeAttr(a);
    } else {
      assert b[..EAP_CHUNK] == eap[off..off + chunk] && b[EAP_CHUNK..] == eap[off + chunk..];
      assert ([a] + Chunks(b[EAP_CHUNK..]))[1..] == Chunks(b[EAP_CHUNK..]);
    }
  }

  /** The packet with its Message-Authenticator computed over the packet in which it is zero. */
  function SignedPacket(md5: (Bytes, Bytes) -> Bytes, secret: Bytes, id: byte, auth: Bytes, identity: Bytes, eap: Bytes, state: Bytes): Bytes {
    var blank := Packet(id, auth, EncodeAttrs(Request(identity, eap, state, Zeros(16))));
    Packet(id, auth, EncodeAttrs(Request(identity, eap, state, md5(secret, blank))))
  }

  /** The attributes up to the Message-Authenticator. */
  function Before(identity: Bytes, eap: Bytes, state: Bytes): Bytes {
    EncodeAttrs(Head(identity, state)) + EncodeAttrs(Chunks(eap))
  }

  lemma {:induction false} RequestBytes(identity: Bytes, eap: Bytes, state: Bytes, mac: Bytes)
    ensures EncodeAttrs(Request(identity, eap, state, mac))
         == Before(identity, eap, state) + [MESSAGE_AUTH, Octet(|mac| + 2)] + mac
  {
    hide Head, Chunks, EncodeAttr, EncodeAttrs;
    var m := Attr(MESSAGE_AUTH, mac);
    EncodeConcat(Head(identity, state) + Chunks(eap), [m]);
    EncodeConcat(Head(identity, state), Chunks(eap));
    OneAttr(m);
    assert EncodeAttr(m) == [MESSAGE_AUTH, Octet(|mac| + 2)] + mac by { AttrBytes(m); }
    hide Octet;
    assert Before(identity, eap, state) + ([MESSAGE_AUTH, Octet(|mac| + 2)] + mac)
        == Before(identity, eap, state) + [MESSAGE_AUTH, Octet(|mac| + 2)] + mac;
  }

  lemma AttrBytes(a: Attr)
    ensures EncodeAttr(a) == [a.kind, Octet(|a.value| + 2)] + a.value
  {
  }

  method PutHead(attrs: array<byte>, identity: Bytes, state: Bytes) returns (alen: nat)
    requires |identity| <= EAP_CHUNK && |state| <= EAP_CHUNK && attrs.Length >= 1024
    modifies attrs
    ensures alen == |EncodeAttrs(Head(identity, state))| && alen <= attrs.Length
    ensures attrs[..alen] == EncodeAttrs(Head(identity, state))
  {
    hide EncodeAttr;
    var a, b, c := Attr(USER_NAME, identity), Attr(NAS_IP_ADDRESS, [127, 0, 0, 1]), Attr(NAS_PORT, [0, 0, 0, 1]);
    EncodedLength(a);
    EncodedLength(b);
    EncodedLength(c);
    alen := PutAttr(attrs, 0, a);
    alen := PutAttr(attrs, alen, b);
    alen := PutAttr(attrs, alen, c);
    if |state| > 0 {
      alen := PutAttr(attrs, alen, Attr(STATE, state));
    }
    HeadBytes(identity, state);
    EncodedLength(Attr(STATE, state));
  }

  lemma HeadBytes(identity: Bytes, state: Bytes)
    ensures EncodeAttrs(Head(identity, state))
         == [] + EncodeAttr(Attr(USER_NAME, identity)) + EncodeAttr(Attr(NAS_IP_ADDRESS, [127, 0, 0, 1]))
            + EncodeAttr(Attr(NAS_PORT, [0, 0, 0, 1])) + (if |state| > 0 then EncodeAttr(Attr(STATE, state)) else [])
  {
    hide EncodeAttr;
    var a, b, c := Attr(USER_NAME, identity), Attr(NAS_IP_ADDRESS, [127, 0, 0, 1]), Attr(NAS_PORT, [0, 0, 0, 1]);
    var t := if |state| > 0 then [Attr(STATE, state)] else [];
    assert Head(identity, state) == [a] + ([b] + ([c] + t));
    EncodeConcat([a], [b] + ([c] + t));
    EncodeConcat([b], [c] + t);
    EncodeConcat([c], t);
    OneAttr(a);
    OneAttr(b);
    OneAttr(c);
    if |state| > 0 {
      OneAttr(Attr(STATE, state));
    }
  }

  lemma OneAttr(a: Attr)
    ensures EncodeAttrs([a]) == EncodeAttr(a)
  {
    hide EncodeAttr;
    assert [a][1..] == [];
    assert EncodeAttr(a) + EncodeAttrs([]) == EncodeAttr(a);
  }

  /** build_access_request, for a request that fits the packet buffer: attributes, header, and the Message-Authenticator
      patched in at its place. */
  method BuildAccessRequest(md5: (Bytes, Bytes) -> Bytes, secret: Bytes, id: byte, auth: Bytes, identity: Bytes, eap: Bytes, state: Bytes)
    returns (pkt: Bytes)
    requires (forall k, m :: |md5(k, m)| == 16) && |auth| == 16 && |identity| <= EAP_CHUNK && |state| <= EAP_CHUNK
    requires 20 + |Before(identity, eap, state)| + 18 <= MAX_PKT
    ensures pkt == SignedPacket(md5, secret, id, auth, identity, eap, state)
  {
    hide EncodeAttr, EncodeAttrs, Octet, Head, Chunks, Be16, Request;
    var attrs := new byte[MAX_PKT](_ => 0);
    var alen := PutHead(attrs, identity, state);
    alen := PutEap(attrs, alen, eap);
    var off := alen;
    alen := PutAttr(attrs, alen, Attr(MESSAGE_AUTH, Zeros(16)));
    RequestBytes(identity, eap, state, Zeros(16));
    assert EncodeAttr(Attr(MESSAGE_AUTH, Zeros(16))) == [MESSAGE_AUTH, Octet(18)] + Zeros(16) by { AttrBytes(Attr(MESSAGE_AUTH, Zeros(16))); }
    assert attrs[..alen] == EncodeAttrs(Request(identity, eap, state, Zeros(16)));
    pkt := [ACCESS_REQUEST, id] + Be16(20 + alen) + auth + attrs[..alen];
    var mac := md5(secret, pkt);
    RequestBytes(identity, eap, state, mac);
    var at := 20 + off + 2;
    pkt := pkt[..at] + mac + pkt[at + 16..];
    Patched([ACCESS_REQUEST, id] + Be16(20 + alen) + auth, Before(identity, eap, state) + [MESSAGE_AUTH, Octet(18)], Zeros(16), mac);
  }

  lemma Patched(h: Bytes, a: Bytes, z: Bytes, mac: Bytes)
    requires |z| == |mac|
    ensures var p := h + (a + z); var at := |h| + |a|; p[..at] + mac + p[at + |mac|..] == h + (a + mac)
  {
  }

  /** Parsing a built packet gives back exactly the EAP packet and the State. */
  lemma {:induction false} ParseUndoesBuild(md5: (Bytes, Bytes) -> Bytes, secret: Bytes, id: byte, auth: Bytes,
                                            identity: Bytes, eap: Bytes, state: Bytes)
    requires (forall k, m :: |md5(k, m)| == 16) && |auth| == 16 && |identity| <= EAP_CHUNK && |state| <= EAP_CHUNK
    ensures var pkt := SignedPacket(md5, secret, id, auth, identity, eap, state);
            |pkt| >= 20 && pkt[0] == ACCESS_REQUEST && Parse(pkt[20..], Reply([], [])) == Reply(eap, state)
  {
    hide EncodeAttrs, Request, Parse, Meaning, Octet, Be16;
    var blank := Packet(id, auth, EncodeAttrs(Request(identity, eap, state, Zeros(16))));
    var mac := md5(secret, blank);
    var r := Request(identity, eap, state, mac);
    RequestMeans(identity, eap, state, mac);
    ParseUndoesEncode(r, Reply([], []));
    var pkt := Packet(id, auth, EncodeAttrs(r));
    assert pkt[20..] == EncodeAttrs(r) && pkt[0] == ACCESS_REQUEST;
  }

  /** Any Message-Authenticator of sixteen bytes parses to the same EAP packet and State. */
  lemma {:induction false} PatchingChangesNeither(identity: Bytes, eap: Bytes, state: Bytes, mac: Bytes, mac': Bytes)
    requires |identity| <= EAP_CHUNK && |state| <= EAP_CHUNK && |mac| == 16 && |mac'| == 16
    ensures Parse(EncodeAttrs(Request(identity, eap, state, mac)), Reply([], []))
         == Parse(EncodeAttrs(Request(identity, eap, state, mac')), Reply([], []))
  {
    hide EncodeAttrs, Request, Parse, Meaning;
    RequestMeans(identity, eap, state, mac);
    RequestMeans(identity, eap, state, mac');
    ParseUndoesEncode(Request(identity, eap, state, mac), Reply([], []));
    ParseUndoesEncode(Request(identity, eap, state, mac'), Reply([], []));
  }

  // ------------------------------------------------------------------ the octets of a request

  /** Code, identifier, the length of the whole packet, and the authenticator. */
  lemma PacketHeader(id: byte, auth: Bytes, attrs: Bytes)
    requires |auth| == 16 && |attrs| <= MAX_PKT - 20
    ensures var p := Packet(id, auth, attrs);
            && |p| == 20 + |attrs| && p[0] == 1 && p[1] == id && 256 * (p[2] as int) + p[3] as int == |p|
            && p[4..20] == auth && p[20..] == attrs
  {
    hide Be16, FromBe16;
    var n := 20 + |attrs|;
    Be16RoundTrip(n, []);
    var p := Packet(id, auth, attrs);
    assert p[2..4] == Be16(n) + [];
    FromBe16Value(p[2..4]);
  }

  /** Type, length with its own two octets, value. */
  lemma AttributeOctets(a: Attr)
    requires |a.value| <= EAP_CHUNK
    ensures var b := EncodeAttr(a); |b| == |a.value| + 2 && b[0] == a.kind && b[1] as int == |a.value| + 2 && b[2..] == a.value
  {
    hide Octet;
    SmallOctetValue(|a.value| + 2);
    assert EncodeAttr(a)[1] == Octet(|a.value| + 2);
  }

  /** User-Name (1), NAS-IP-Address (4), NAS-Port (5), State (24) if there is one, EAP-Message (79) and, in the end,
      Message-Authenticator (80), keyed by the shared secret over the packet in which it is zero. */
  lemma RequestAttributes(md5: (Bytes, Bytes) -> Bytes, secret: Bytes, id: byte, auth: Bytes, identity: Bytes, eap: Bytes, state: Bytes)
    ensures var front := [Attr(1, identity), Attr(4, [127, 0, 0, 1]), Attr(5, [0, 0, 0, 1])]
                         + (if |state| > 0 then [Attr(24, state)] else []) + Chunks(eap);
            SignedPacket(md5, secret, id, auth, identity, eap, state)
            == Packet(id, auth, EncodeAttrs(
                        front + [Attr(80, md5(secret, Packet(id, auth, EncodeAttrs(front + [Attr(80, Zeros(16))]))))]))
  {
    hide EncodeAttrs, Packet, Chunks;
  }

  /** All pieces but the last are 253 octets, and there is one for every 253 octets begun, at least one. */
  lemma {:induction false} ChunkKinds(eap: Bytes)
    ensures forall a | a in Chunks(eap) :: a.kind == 79 && |a.value| <= 253
    ensures forall i | 0 <= i < |Chunks(eap)| - 1 :: |Chunks(eap)[i].value| == 253
    ensures |Chunks(eap)| == if |eap| == 0 then 1 else (|eap| + 252) / 253
    decreases |eap|
  {
    if |eap| > 253 {
      ChunkKinds(eap[253..]);
      assert (|eap| + 252) / 253 == 1 + (|eap| - 253 + 252) / 253;
    }
  }

  /** What the parser does with an attribute: type 79 is appended, type 24 replaces the State, others are skipped; a length
      below two or beyond the packet ends it. */
  lemma ParseMeans(b: Bytes, r: Reply)
    ensures |b| < 2 ==> Parse(b, r) == r
    ensures |b| >= 2 && !(2 <= b[1] as int <= |b|) ==> Parse(b, r) == r
    ensures |b| >= 2 && 2 <= b[1] as int <= |b| ==>
              var n := b[1] as int;
              var v := b[2..n];
              Parse(b, r) == Parse(b[n..], if b[0] == 79 then Reply(r.eap + v, r.state)
                                           else if b[0] == 24 then Reply(r.eap, v) else r)
  {
  }
}
