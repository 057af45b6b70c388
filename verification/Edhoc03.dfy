/** The EAP-EDHOC core of methods 0 to 3: contexts as values, every handler as a function from the old context
    to the new one, the bytes sent and the return code, and the two key-agreement theorems for a single exchange.
    Edhoc03Context.dfy proves the imperative handlers against these functions. */
module Edhoc03 {
  import opened Primitives
  import opened Hkdf

  const OK := 0
  const ERR_ARG := -1
  const ERR_BUF := -2
  const ERR_PARSE := -3
  const ERR_DH := -4
  const ERR_AEAD := -5
  const ERR_MAC := -6
  const ERR_SIG := -7
  const ERR_STATE := -8

  const ID_LEN: nat := 3
  const MAC_LEN: nat := 8
  const KEY_LEN: nat := 32
  const NONCE_LEN: nat := 12
  const MSG1_LEN: nat := 34
  const STAT_LEN: nat := 43
  const SIG_LEN: nat := 99

  datatype Auth = Sig | Stat

  datatype Creds = Creds(idCred: Bytes, sigSk: Bytes, sigVk: Bytes, dhSk: Bytes, dhPk: Bytes)

  datatype Peer = Peer(sigVk: Bytes, dhPk: Bytes)

  datatype Ctx = Ctx(
    role: int, meth: byte, selfAuth: Auth, peerAuth: Auth, self: Creds, peer: Peer, cI: byte, cR: byte,
    ephSk: Bytes, ephPk: Bytes, peerEphPk: Bytes, ssE: Bytes, hMsg1: Bytes,
    th2: Bytes, th3: Bytes, th4: Bytes, prk2e: Bytes, prk3e2m: Bytes, prk4e3m: Bytes, prkOut: Bytes,
    peerIdCred: Bytes, msk: Bytes, emsk: Bytes, done: bool)

  /** What a handler returns: the new context, the output bytes (empty on failure) and the return code. */
  datatype Result = Result(ctx: Ctx, out: Bytes, rc: int)

  predicate MethodValid(m: byte) { 0 <= m <= 3 }

  function InitAuth(m: byte): Auth { if m == 0 || m == 1 then Sig else Stat }

  function RespAuth(m: byte): Auth { if m == 0 || m == 2 then Sig else Stat }

  /** Credentials as provisioned: fixed widths, and public halves that belong to their secret halves. */
  ghost predicate WellFormed(S: Suite, c: Creds) {
    && |c.idCred| == ID_LEN && |c.sigVk| == X_LEN && |c.dhPk| == X_LEN
    && c.dhPk == S.base(c.dhSk) && EdPair(S, c.sigVk, c.sigSk)
  }

  function PublicOf(c: Creds): Peer { Peer(c.sigVk, c.dhPk) }

  // ------------------------------------------------------------------ transcript and key schedule

  function Msg1(meth: byte, gX: Bytes, cI: byte): Bytes { [meth] + gX + [cI] }

  function Th2(S: Suite, gY: Bytes, hMsg1: Bytes, cR: byte): Bytes { S.sha256(gY + hMsg1 + [cR]) }

  /** TH3 and TH4 both hash the previous transcript hash and a plaintext. */
  function ThNext(S: Suite, th: Bytes, pt: Bytes): Bytes { S.sha256(th + pt) }

  function KeyInfo(th: Bytes): Bytes { th + Ascii("E3KEY") }

  function AeadKey(S: Suite, prk: Bytes, th: Bytes): Bytes {
    Take(Expand(S, prk, KeyInfo(th), KEY_LEN + NONCE_LEN), KEY_LEN)
  }

  function AeadNonce(S: Suite, prk: Bytes, th: Bytes): Bytes {
    var okm := Expand(S, prk, KeyInfo(th), KEY_LEN + NONCE_LEN);
    if KEY_LEN <= |okm| then okm[KEY_LEN..] else []
  }

  function Seal(S: Suite, prk: Bytes, th: Bytes, pt: Bytes): Option<Bytes> {
    S.seal(AeadKey(S, prk, th), AeadNonce(S, prk, th), th, pt)
  }

  function Open(S: Suite, prk: Bytes, th: Bytes, ct: Bytes): Option<Bytes> {
    S.open(AeadKey(S, prk, th), AeadNonce(S, prk, th), th, ct)
  }

  function Mac(S: Suite, prk: Bytes, th: Bytes, id: Bytes, pub: Bytes): Bytes {
    Expand(S, prk, th + id + pub, MAC_LEN)
  }

  function SigMessage(th: Bytes, id: Bytes, mac: Bytes): Bytes { th + id + mac }

  function PrkOut(S: Suite, c: Ctx): Bytes { Expand(S, c.prk4e3m, c.th4, 32) }

  function DeriveMsk(S: Suite, c: Ctx): Ctx {
    c.(prkOut := PrkOut(S, c),
       msk := Expand(S, PrkOut(S, c), Ascii("EDHOC-EAP-MSK"), 64),
       emsk := Expand(S, PrkOut(S, c), Ascii("EDHOC-EAP-EMSK"), 64),
       done := true)
  }

  // ------------------------------------------------------------------ the authenticated plaintexts

  /** PT2 or PT3 with the PRK its MAC is keyed with; `prk` is left as it was when no PRK was derived. */
  datatype Built = Built(prk: Bytes, pt: Bytes, rc: int)

  function BuildAuth(S: Suite, auth: Auth, prkIn: Bytes, th: Bytes, self: Creds, peerEph: Bytes, prk0: Bytes): Built
  {
    match auth
    case Stat =>
      (match S.dh(self.dhSk, peerEph)
       case None => Built(prk0, [], ERR_DH)
       case Some(g) =>
         var prk := Extract(S, prkIn, g);
         Built(prk, self.idCred + self.dhPk + Mac(S, prk, th, self.idCred, self.dhPk), OK))
    case Sig =>
      (match S.sign(self.sigSk, SigMessage(th, self.idCred, Mac(S, prkIn, th, self.idCred, self.sigVk)))
       case None => Built(prkIn, [], ERR_SIG)
       case Some(sig) => Built(prkIn, self.idCred + self.sigVk + sig, OK))
  }

  /** The receiver's check of PT2 or PT3: the peer identity and PRK it leaves in the context, and the code. */
  datatype Checked = Checked(id: Bytes, prk: Bytes, rc: int)

  function CheckAuth(S: Suite, auth: Auth, prkIn: Bytes, th: Bytes, peer: Peer, ephSk: Bytes, pt: Bytes,
                     id0: Bytes, prk0: Bytes): Checked
  {
    match auth
    case Stat =>
      if |pt| != STAT_LEN then Checked(id0, prk0, ERR_PARSE) else
      var id, pub, mac := pt[..3], pt[3..35], pt[35..];
      if pub != peer.dhPk then Checked(id, prk0, ERR_MAC) else
      (match S.dh(ephSk, pub)
       case None => Checked(id, prk0, ERR_DH)
       case Some(g) =>
         var prk := Extract(S, prkIn, g);
         Checked(id, prk, if Mac(S, prk, th, id, pub) == mac then OK else ERR_MAC))
    case Sig =>
      if |pt| != SIG_LEN then Checked(id0, prk0, ERR_PARSE) else
      var id, vk, sig := pt[..3], pt[3..35], pt[35..];
      if vk != peer.sigVk then Checked(id, prk0, ERR_SIG) else
      Checked(id, prkIn, if S.verify(vk, SigMessage(th, id, Mac(S, prkIn, th, id, vk)), sig) then OK else ERR_SIG)
  }

  // ------------------------------------------------------------------ contexts and handlers

  function Blank(role: int, meth: byte, sa: Auth, pa: Auth, self: Creds, peer: Peer): Ctx {
    Ctx(role, meth, sa, pa, self, peer, 0x10, 0x20, Zeros(32), Zeros(32), Zeros(32), Zeros(32), Zeros(32),
        Zeros(32), Zeros(32), Zeros(32), Zeros(32), Zeros(32), Zeros(32), Zeros(32), Zeros(3), Zeros(64), Zeros(64),
        false)
  }

  function InitInitiator(meth: byte, self: Creds, peer: Peer): Ctx {
    Blank(1, meth, InitAuth(meth), RespAuth(meth), self, peer)
  }

  function InitResponder(self: Creds, peer: Peer): Ctx { Blank(0, 0, Sig, Sig, self, peer) }

  function MakeMsg1(S: Suite, c: Ctx, rnd: Bytes, cap: nat): Result {
    if c.role != 1 then Result(c, [], ERR_STATE)
    else if !MethodValid(c.meth) then Result(c, [], ERR_ARG)
    else
      var c1 := c.(ephSk := rnd, ephPk := S.base(rnd));
      if MSG1_LEN > cap then Result(c1, [], ERR_BUF)
      else
        var out := Msg1(c.meth, c1.ephPk, c.cI);
        Result(c1.(hMsg1 := S.sha256(out)), out, OK)
  }

  function HandleMsg1(S: Suite, c: Ctx, input: Bytes, rnd: Bytes, cap: nat): Result {
    if c.role != 0 then Result(c, [], ERR_STATE)
    else if |input| != MSG1_LEN || !MethodValid(input[0]) then Result(c, [], ERR_PARSE)
    else
      var c1 := c.(meth := input[0], selfAuth := RespAuth(input[0]), peerAuth := InitAuth(input[0]),
                   peerEphPk := input[1..33], cI := input[33], hMsg1 := S.sha256(input),
                   ephSk := rnd, ephPk := S.base(rnd));
      match S.dh(rnd, c1.peerEphPk)
      case None => Result(c1, [], ERR_DH)
      case Some(ss) =>
        var th2 := Th2(S, c1.ephPk, c1.hMsg1, c.cR);
        var prk2e := Extract(S, th2, ss);
        var b := BuildAuth(S, c1.selfAuth, prk2e, th2, c.self, c1.peerEphPk, c.prk3e2m);
        var c2 := c1.(ssE := ss, th2 := th2, prk2e := prk2e, prk3e2m := b.prk);
        if b.rc != OK then Result(c2, [], b.rc)
        else
          var c3 := c2.(th3 := ThNext(S, th2, b.pt));
          match Seal(S, prk2e, th2, b.pt)
          case None => Result(c3, [], ERR_AEAD)
          case Some(ct) =>
            if X_LEN + |ct| > cap then Result(c3, [], ERR_BUF) else Result(c3, c1.ephPk + ct, OK)
  }

  /** The plaintext the responder authenticates itself with, as message_1 handling builds it. */
  function Pt2Built(S: Suite, c: Ctx, input: Bytes, rnd: Bytes): Bytes
    requires |input| == MSG1_LEN
  {
    var th2 := Th2(S, S.base(rnd), S.sha256(input), c.cR);
    var ss := S.dh(rnd, input[1..33]);
    if ss.None? then [] else
    BuildAuth(S, RespAuth(input[0]), Extract(S, th2, ss.value), th2, c.self, input[1..33], c.prk3e2m).pt
  }

  /** The second half of message_2 handling, once PT2 is authenticated: TH3, PT3, TH4, message_3 and the keys. */
  function EmitMsg3(S: Suite, c: Ctx, pt2: Bytes, cap: nat): Result {
    var th3 := ThNext(S, c.th2, pt2);
    var b := BuildAuth(S, c.selfAuth, c.prk3e2m, th3, c.self, c.peerEphPk, c.prk4e3m);
    var c1 := c.(th3 := th3, prk4e3m := b.prk);
    if b.rc != OK then Result(c1, [], b.rc)
    else
      var c2 := c1.(th4 := ThNext(S, th3, b.pt));
      match Seal(S, c.prk3e2m, th3, b.pt)
      case None => Result(c2, [], ERR_AEAD)
      case Some(ct) => if |ct| > cap then Result(c2, [], ERR_BUF) else Result(DeriveMsk(S, c2), ct, OK)
  }

  function HandleMsg2(S: Suite, c: Ctx, input: Bytes, cap: nat): Result {
    if c.role != 1 then Result(c, [], ERR_STATE)
    else if |input| < X_LEN + TAG_LEN then Result(c, [], ERR_PARSE)
    else
      var c1 := c.(peerEphPk := input[..32]);
      match S.dh(c.ephSk, c1.peerEphPk)
      case None => Result(c1, [], ERR_DH)
      case Some(ss) =>
        var th2 := Th2(S, c1.peerEphPk, c.hMsg1, c.cR);
        var prk2e := Extract(S, th2, ss);
        var c2 := c1.(ssE := ss, th2 := th2, prk2e := prk2e);
        match Open(S, prk2e, th2, input[32..])
        case None => Result(c2, [], ERR_AEAD)
        case Some(pt2) =>
          var k := CheckAuth(S, c.peerAuth, prk2e, th2, c.peer, c.ephSk, pt2, c.peerIdCred, c.prk3e2m);
          var c3 := c2.(peerIdCred := k.id, prk3e2m := k.prk);
          if k.rc != OK then Result(c3, [], k.rc) else EmitMsg3(S, c3, pt2, cap)
  }

  function HandleMsg3(S: Suite, c: Ctx, input: Bytes): Result {
    if c.role != 0 then Result(c, [], ERR_STATE)
    else
      match Open(S, c.prk3e2m, c.th3, input)
      case None => Result(c, [], ERR_AEAD)
      case Some(pt3) =>
        var k := CheckAuth(S, c.peerAuth, c.prk3e2m, c.th3, c.peer, c.ephSk, pt3, c.peerIdCred, c.prk4e3m);
        var c1 := c.(peerIdCred := k.id, prk4e3m := k.prk);
        if k.rc != OK then Result(c1, [], k.rc)
        else Result(DeriveMsk(S, c1.(th4 := ThNext(S, c.th3, pt3))), [], OK)
  }

  function HandleMsg4(c: Ctx, input: Bytes): Result {
    if c.role != 1 then Result(c, [], ERR_STATE)
    else if |input| != 0 then Result(c, [], ERR_PARSE)
    else Result(c.(done := true), [], OK)
  }

  // ------------------------------------------------------------------ the local plaintext buffers

  /** pt2 and pt3 hold an identity, a key, a signature and sixteen bytes more. */
  const PT_CAP: nat := 115

  /** How many bytes message_2 handling decrypts into pt2; it does so before it looks at the length. */
  function Msg2Fill(S: Suite, c: Ctx, input: Bytes): nat {
    if c.role != 1 || |input| < X_LEN + TAG_LEN || S.dh(c.ephSk, input[..32]).None? then 0 else Decrypted(input[32..])
  }

  function Msg3Fill(c: Ctx, input: Bytes): nat { if c.role != 0 then 0 else Decrypted(input) }

  /** A message that reaches the decryption stays within the buffer exactly up to these lengths. */
  lemma {:induction false} FitsExactly(S: Suite, c: Ctx, input: Bytes)
    ensures c.role == 1 && |input| >= X_LEN + TAG_LEN && S.dh(c.ephSk, input[..32]).Some? ==>
              (Msg2Fill(S, c, input) <= PT_CAP <==> |input| <= 163)
    ensures c.role == 0 ==> (Msg3Fill(c, input) <= PT_CAP <==> |input| <= 131)
    ensures |input| <= 163 ==> Msg2Fill(S, c, input) <= PT_CAP
    ensures |input| <= 131 ==> Msg3Fill(c, input) <= PT_CAP
  {
  }

  /** What is opened is what was written. */
  lemma OpenedLength(S: Suite, prk: Bytes, th: Bytes, ct: Bytes)
    requires LawfulAead(S) && Open(S, prk, th, ct).Some?
    ensures |Open(S, prk, th, ct).value| == Decrypted(ct)
  {
    hide AeadKey, AeadNonce;
  }

  // ------------------------------------------------------------------ what a call leaves untouched

  /** No handler changes who a context belongs to. */
  predicate SameParty(c: Ctx, d: Ctx) { c.role == d.role && c.self == d.self && c.peer == d.peer && c.cR == d.cR }

  /** The exported keys, and whether there are any. */
  predicate SameKeys(c: Ctx, d: Ctx) { c.prkOut == d.prkOut && c.msk == d.msk && c.emsk == d.emsk && c.done == d.done }

  /** A call that fails emits nothing and exports nothing; one that succeeds makes the context done if it exports. */
  predicate Outcome(c: Ctx, m: Result, exports: bool) {
    && SameParty(c, m.ctx)
    && (m.rc != OK ==> m.out == [] && SameKeys(c, m.ctx))
    && (m.rc == OK ==> if exports then m.ctx.done else SameKeys(c, m.ctx))
  }

  lemma {:induction false} MakeMsg1Outcome(S: Suite, c: Ctx, rnd: Bytes, cap: nat)
    ensures Outcome(c, MakeMsg1(S, c, rnd, cap), false)
  {
  }

  lemma {:induction false} Msg1Outcome(S: Suite, c: Ctx, input: Bytes, rnd: Bytes, cap: nat)
    ensures Outcome(c, HandleMsg1(S, c, input, rnd, cap), false)
  {
    hide BuildAuth, Seal, Th2, ThNext, Extract, RespAuth, InitAuth;
  }

  lemma {:induction false} EmissionOutcome(S: Suite, c: Ctx, pt2: Bytes, cap: nat)
    ensures Outcome(c, EmitMsg3(S, c, pt2, cap), true)
  {
    hide BuildAuth, Seal, ThNext, PrkOut, Expand, Ascii;
  }

  lemma {:induction false} Msg2Outcome(S: Suite, c: Ctx, input: Bytes, cap: nat)
    ensures Outcome(c, HandleMsg2(S, c, input, cap), true)
  {
    hide CheckAuth, Open, Th2, Extract, EmitMsg3;
    forall d, pt2 { EmissionOutcome(S, d, pt2, cap); }
  }

  lemma {:induction false} Msg3Outcome(S: Suite, c: Ctx, input: Bytes)
    ensures Outcome(c, HandleMsg3(S, c, input), true)
  {
    hide CheckAuth, Open, ThNext, PrkOut, Expand, Ascii;
  }

  // ------------------------------------------------------------------ build and check are inverse

  lemma {:induction false} MacLength(S: Suite, prk: Bytes, th: Bytes, id: Bytes, pub: Bytes)
    requires LawfulHash(S)
    ensures |Mac(S, prk, th, id, pub)| == MAC_LEN
  {
    ExpandLength(S, prk, th + id + pub, MAC_LEN);
  }

  /** Domain separation: the AEAD, MAC, PRK_out, MSK and EMSK derivations never share an HKDF info string. */
  lemma {:induction false} InfosDiffer(th: Bytes, th': Bytes, th'': Bytes, id: Bytes, pub: Bytes)
    requires |th| == |th'| == |th''| == HASH_LEN && |id| == ID_LEN && |pub| == X_LEN
    ensures KeyInfo(th) != th' + id + pub && KeyInfo(th) != th'' && th' + id + pub != th''
    ensures forall tag | tag in [Ascii("EDHOC-EAP-MSK"), Ascii("EDHOC-EAP-EMSK")] ::
              tag != KeyInfo(th) && tag != th' + id + pub && tag != th''
    ensures Ascii("EDHOC-EAP-MSK") != Ascii("EDHOC-EAP-EMSK")
  {
    assert |KeyInfo(th)| == 37 && |th' + id + pub| == 67;
    assert |Ascii("EDHOC-EAP-MSK")| == 13 && |Ascii("EDHOC-EAP-EMSK")| == 14;
  }

  /** A built plaintext has the length its auth mode prescribes and carries the builder's identity and key. */
  lemma {:induction false} BuiltLayout(S: Suite, auth: Auth, prkIn: Bytes, th: Bytes, self: Creds, peerEph: Bytes, prk0: Bytes)
    requires Lawful(S) && WellFormed(S, self)
    requires BuildAuth(S, auth, prkIn, th, self, peerEph, prk0).rc == OK
    ensures var pt := BuildAuth(S, auth, prkIn, th, self, peerEph, prk0).pt;
            && |pt| == (if auth == Stat then STAT_LEN else SIG_LEN) && pt[..3] == self.idCred
            && pt[3..35] == (if auth == Stat then self.dhPk else self.sigVk)
            && (auth == Stat ==> S.dh(self.dhSk, peerEph).Some?)
            && (auth == Stat ==>
                  pt[35..] == Mac(S, Extract(S, prkIn, S.dh(self.dhSk, peerEph).value), th, self.idCred, self.dhPk))
            && (auth == Sig ==>
                  Some(pt[35..])
                  == S.sign(self.sigSk, SigMessage(th, self.idCred, Mac(S, prkIn, th, self.idCred, self.sigVk))))
  {
    var pt := BuildAuth(S, auth, prkIn, th, self, peerEph, prk0).pt;
    match auth
    case Stat =>
      var prk := Extract(S, prkIn, S.dh(self.dhSk, peerEph).value);
      MacLength(S, prk, th, self.idCred, self.dhPk);
      assert pt == self.idCred + self.dhPk + Mac(S, prk, th, self.idCred, self.dhPk);
    case Sig =>
      var m := SigMessage(th, self.idCred, Mac(S, prkIn, th, self.idCred, self.sigVk));
      assert pt == self.idCred + self.sigVk + S.sign(self.sigSk, m).value;
  }

  /** Completeness: what an honest peer builds towards g^y is accepted by the holder of y who pinned that peer. */
  lemma {:induction false} CheckUndoesBuild(S: Suite, auth: Auth, prkIn: Bytes, th: Bytes, self: Creds, y: Bytes,
                                            prk0: Bytes, prk1: Bytes, id0: Bytes)
    requires Lawful(S) && WellFormed(S, self)
    requires BuildAuth(S, auth, prkIn, th, self, S.base(y), prk0).rc == OK
    ensures var b := BuildAuth(S, auth, prkIn, th, self, S.base(y), prk0);
            CheckAuth(S, auth, prkIn, th, PublicOf(self), y, b.pt, id0, prk1) == Checked(self.idCred, b.prk, OK)
  {
    BuiltLayout(S, auth, prkIn, th, self, S.base(y), prk0);
  }

  /** Soundness: if the holder of y accepts, on the builder's inputs, a plaintext the builder made towards g^y,
      whatever keys it pinned, both ends hold the same PRK and the receiver names the builder. */
  lemma {:induction false} AcceptedBuildAgrees(S: Suite, auth: Auth, prkIn: Bytes, th: Bytes, self: Creds, peer: Peer,
                                               y: Bytes, prk0: Bytes, prk1: Bytes, id0: Bytes)
    requires Lawful(S) && WellFormed(S, self)
    requires var b := BuildAuth(S, auth, prkIn, th, self, S.base(y), prk0);
             b.rc == OK && CheckAuth(S, auth, prkIn, th, peer, y, b.pt, id0, prk1).rc == OK
    ensures var b := BuildAuth(S, auth, prkIn, th, self, S.base(y), prk0);
            var k := CheckAuth(S, auth, prkIn, th, peer, y, b.pt, id0, prk1);
            k.prk == b.prk && k.id == self.idCred
            && (auth == Stat ==> peer.dhPk == self.dhPk) && (auth == Sig ==> peer.sigVk == self.sigVk)
  {
    BuiltLayout(S, auth, prkIn, th, self, S.base(y), prk0);
  }
}
