/** What the handlers of methods 0 to 3 compute and accept, in calls of the library alone: hashes, HMACs, Diffie-Hellman,
    signatures and the AEAD.  Nothing here mentions how the handlers derive, build or check. */
module Edhoc03Meaning {
  import opened Primitives
  import opened Hkdf
  import opened Edhoc03

  /** "E3KEY", "EDHOC-EAP-MSK" and "EDHOC-EAP-EMSK" in ASCII. */
  const KEY_LABEL: Bytes := [0x45, 0x33, 0x4B, 0x45, 0x59]
  const MSK_LABEL: Bytes := [0x45, 0x44, 0x48, 0x4F, 0x43, 0x2D, 0x45, 0x41, 0x50, 0x2D, 0x4D, 0x53, 0x4B]
  const EMSK_LABEL: Bytes := [0x45, 0x44, 0x48, 0x4F, 0x43, 0x2D, 0x45, 0x41, 0x50, 0x2D, 0x45, 0x4D, 0x53, 0x4B]

  lemma Labels()
    ensures Ascii("E3KEY") == KEY_LABEL && Ascii("EDHOC-EAP-MSK") == MSK_LABEL && Ascii("EDHOC-EAP-EMSK") == EMSK_LABEL
  {
    hide Ascii;
    AsciiIs("E3KEY", KEY_LABEL);
    AsciiIs("EDHOC-EAP-MSK", MSK_LABEL);
    AsciiIs("EDHOC-EAP-EMSK", EMSK_LABEL);
  }

  // ------------------------------------------------------------------ the AEAD and the exported keys

  /** Key and nonce are the first 32 and the next 12 of 44 octets. */
  predicate Seals(S: Suite, prk: Bytes, th: Bytes, pt: Bytes, ct: Bytes) {
    var okm := Kdf(S, prk, th + KEY_LABEL, 44);
    |okm| == 44 && S.seal(okm[..32], okm[32..], th, pt) == Some(ct)
  }

  predicate Opens(S: Suite, prk: Bytes, th: Bytes, ct: Bytes, pt: Bytes) {
    var okm := Kdf(S, prk, th + KEY_LABEL, 44);
    |okm| == 44 && S.open(okm[..32], okm[32..], th, ct) == Some(pt)
  }

  lemma SealMeans(S: Suite, prk: Bytes, th: Bytes, pt: Bytes, ct: Bytes)
    requires LawfulHash(S)
    ensures Seal(S, prk, th, pt) == Some(ct) <==> Seals(S, prk, th, pt, ct)
    ensures Open(S, prk, th, ct) == Some(pt) <==> Opens(S, prk, th, ct, pt)
  {
    Labels();
    KdfIsExpand(S, prk, th + KEY_LABEL, 44);
    ExpandLength(S, prk, th + KEY_LABEL, 44);
    hide Expand, Kdf, Ascii;
  }

  /** PRK_out, MSK and EMSK as exported. */
  predicate Exported(S: Suite, d: Ctx) {
    && d.prkOut == Kdf(S, d.prk4e3m, d.th4, 32) && d.msk == Kdf(S, d.prkOut, MSK_LABEL, 64)
    && d.emsk == Kdf(S, d.prkOut, EMSK_LABEL, 64) && d.done
  }

  lemma DerivedIsExported(S: Suite, c: Ctx)
    ensures Exported(S, DeriveMsk(S, c))
  {
    Labels();
    KdfIsExpand(S, c.prk4e3m, c.th4, 32);
    KdfIsExpand(S, PrkOut(S, c), MSK_LABEL, 64);
    KdfIsExpand(S, PrkOut(S, c), EMSK_LABEL, 64);
    hide Expand, Kdf, Ascii;
  }

  // ------------------------------------------------------------------ authentication

  /** The plaintext of a signing party: identity, verification key, and a signature over the transcript hash, the identity
      and the MAC. */
  predicate Signed(S: Suite, prk: Bytes, th: Bytes, vk: Bytes, p: Bytes) {
    && |p| == 99 && p[3..35] == vk
    && S.verify(vk, th + p[..3] + Kdf(S, prk, th + p[..3] + vk, 8), p[35..])
  }

  /** The plaintext of a party with a static key: identity, public key, and a MAC under the PRK that mixes in the agreement
      of that key with the ephemeral one. */
  predicate Maced(S: Suite, prk: Bytes, th: Bytes, pk: Bytes, sk: Bytes, p: Bytes) {
    && |p| == 43 && p[3..35] == pk && S.dh(sk, pk).Some?
    && p[35..] == Kdf(S, S.hmac(prk, S.dh(sk, pk).value), th + p[..3] + pk, 8)
  }

  predicate Proves(S: Suite, auth: Auth, prk: Bytes, th: Bytes, peer: Peer, sk: Bytes, p: Bytes) {
    if auth == Sig then Signed(S, prk, th, peer.sigVk, p) else Maced(S, prk, th, peer.dhPk, sk, p)
  }

  /** The PRK that follows: the same for a signature, mixed with the static agreement otherwise. */
  function NextPrk(S: Suite, auth: Auth, prk: Bytes, sk: Bytes, pk: Bytes): Bytes {
    if auth == Sig || S.dh(sk, pk).None? then prk else S.hmac(prk, S.dh(sk, pk).value)
  }

  /** A plaintext is accepted if and only if it proves its sender; the identity is taken from it. */
  lemma CheckExactly(S: Suite, auth: Auth, prk: Bytes, th: Bytes, peer: Peer, sk: Bytes, p: Bytes, id0: Bytes, prk0: Bytes)
    ensures var k := CheckAuth(S, auth, prk, th, peer, sk, p, id0, prk0);
            && (k.rc == OK <==> Proves(S, auth, prk, th, peer, sk, p))
            && (k.rc == OK ==> |p| >= 3 && k.id == p[..3] && k.prk == NextPrk(S, auth, prk, sk, peer.dhPk))
  {
    MacIsKdf(S);
    hide Expand, Kdf, Mac;
  }

  lemma MacIsKdf(S: Suite)
    ensures forall prk, th, id, pub :: Mac(S, prk, th, id, pub) == Kdf(S, prk, th + id + pub, 8)
  {
    forall prk, th, id, pub ensures Mac(S, prk, th, id, pub) == Kdf(S, prk, th + id + pub, 8) {
      KdfIsExpand(S, prk, th + id + pub, 8);
      hide Expand, Kdf;
    }
  }

  /** Why a plaintext is refused: the first thing wrong with it, in the order length, key, agreement, signature or MAC. */
  lemma RefusalCodes(S: Suite, auth: Auth, prk: Bytes, th: Bytes, peer: Peer, sk: Bytes, p: Bytes, id0: Bytes, prk0: Bytes)
    ensures var rc := CheckAuth(S, auth, prk, th, peer, sk, p, id0, prk0).rc;
            if |p| != (if auth == Sig then 99 else 43) then rc == ERR_PARSE
            else if auth == Sig then rc == (if Signed(S, prk, th, peer.sigVk, p) then OK else ERR_SIG)
            else if p[3..35] == peer.dhPk && S.dh(sk, peer.dhPk).None? then rc == ERR_DH
            else rc == if Maced(S, prk, th, peer.dhPk, sk, p) then OK else ERR_MAC
  {
    CheckExactly(S, auth, prk, th, peer, sk, p, id0, prk0);
    hide Kdf, Mac;
  }

  /** What a check leaves behind: the identity as soon as the length is right, and the next PRK once the key was the pinned one
      and the agreement succeeded, also if the proof then fails. */
  lemma CheckLeaves(S: Suite, auth: Auth, prk: Bytes, th: Bytes, peer: Peer, sk: Bytes, p: Bytes, id0: Bytes, prk0: Bytes)
    ensures var k := CheckAuth(S, auth, prk, th, peer, sk, p, id0, prk0);
            if |p| != (if auth == Sig then 99 else 43) then k.id == id0 && k.prk == prk0
            else
              var key := if auth == Sig then peer.sigVk else peer.dhPk;
              && k.id == p[..3]
              && k.prk == if p[3..35] != key || (auth == Stat && S.dh(sk, key).None?) then prk0 else NextPrk(S, auth, prk, sk, key)
  {
    hide Mac;
  }

  // ------------------------------------------------------------------ what a party shows of itself

  predicate ShowsSigned(S: Suite, prk: Bytes, th: Bytes, self: Creds, p: Bytes) {
    var sig := S.sign(self.sigSk, th + self.idCred + Kdf(S, prk, th + self.idCred + self.sigVk, 8));
    sig.Some? && p == self.idCred + self.sigVk + sig.value
  }

  predicate ShowsMaced(S: Suite, prk: Bytes, th: Bytes, self: Creds, eph: Bytes, p: Bytes) {
    && S.dh(self.dhSk, eph).Some?
    && p == self.idCred + self.dhPk + Kdf(S, S.hmac(prk, S.dh(self.dhSk, eph).value), th + self.idCred + self.dhPk, 8)
  }

  predicate Shows(S: Suite, auth: Auth, prk: Bytes, th: Bytes, self: Creds, eph: Bytes, p: Bytes) {
    if auth == Sig then ShowsSigned(S, prk, th, self, p) else ShowsMaced(S, prk, th, self, eph, p)
  }

  lemma BuildExactly(S: Suite, auth: Auth, prk: Bytes, th: Bytes, self: Creds, eph: Bytes, prk0: Bytes)
    ensures var b := BuildAuth(S, auth, prk, th, self, eph, prk0);
            b.rc == OK ==> Shows(S, auth, prk, th, self, eph, b.pt) && b.prk == NextPrk(S, auth, prk, self.dhSk, eph)
  {
    MacIsKdf(S);
    hide Expand, Kdf, Mac;
  }

  // ------------------------------------------------------------------ the handlers

  /** Fresh contexts: connection identifiers 0x10 and 0x20, and authentication by the initiator's method. */
  lemma FreshContexts(meth: byte, self: Creds, peer: Peer)
    ensures var i, r := InitInitiator(meth, self, peer), InitResponder(self, peer);
            && i.role == 1 && r.role == 0 && i.cI == 0x10 && i.cR == 0x20 && r.cR == 0x20 && !i.done && !r.done
            && i.self == self == r.self && i.peer == peer == r.peer
            && (meth < 4 ==> (i.selfAuth == Stat <==> meth in {2, 3}) && (i.peerAuth == Stat <==> meth in {1, 3}))
  {
  }

  /** message_1: the method, the ephemeral key and a connection identifier. */
  lemma Message1Means(S: Suite, c: Ctx, rnd: Bytes, cap: nat)
    ensures var m := MakeMsg1(S, c, rnd, cap);
            m.rc == OK ==> m.out == [c.meth] + S.base(rnd) + [c.cI] && m.ctx.hMsg1 == S.sha256(m.out) && m.ctx.ephSk == rnd
  {
  }

  /** A responder that answers: the method decides who signs, the transcript hashes chain its key, message_1 and PT2, and
      message_2 is its key and PT2 encrypted. */
  lemma Message2Means(S: Suite, c: Ctx, input: Bytes, rnd: Bytes, cap: nat) returns (pt2: Bytes)
    requires LawfulHash(S) && HandleMsg1(S, c, input, rnd, cap).rc == OK
    ensures |input| == 34 && input[0] < 4
    ensures var m := HandleMsg1(S, c, input, rnd, cap);
            var d := m.ctx;
            var g := S.dh(rnd, input[1..33]);
            && c.role == 0 && d.meth == input[0] && g.Some?
            && (d.selfAuth == Stat <==> input[0] in {1, 3}) && (d.peerAuth == Stat <==> input[0] in {2, 3})
            && d.th2 == S.sha256(S.base(rnd) + S.sha256(input) + [c.cR]) && d.prk2e == S.hmac(d.th2, g.value)
            && Shows(S, d.selfAuth, d.prk2e, d.th2, c.self, input[1..33], pt2)
            && d.prk3e2m == NextPrk(S, d.selfAuth, d.prk2e, c.self.dhSk, input[1..33])
            && d.th3 == S.sha256(d.th2 + pt2)
            && |m.out| >= |S.base(rnd)| && m.out[..|S.base(rnd)|] == S.base(rnd)
            && Seals(S, d.prk2e, d.th2, pt2, m.out[|S.base(rnd)|..])
  {
    var d := HandleMsg1(S, c, input, rnd, cap).ctx;
    pt2 := BuildAuth(S, d.selfAuth, d.prk2e, d.th2, c.self, input[1..33], c.prk3e2m).pt;
    BuildExactly(S, d.selfAuth, d.prk2e, d.th2, c.self, input[1..33], c.prk3e2m);
    Methods(input[0]);
    hide BuildAuth, Shows, InitAuth, RespAuth, NextPrk, Seal, Seals;
    var ct := Seal(S, d.prk2e, d.th2, pt2).value;
    SealMeans(S, d.prk2e, d.th2, pt2, ct);
    assert (S.base(rnd) + ct)[..|S.base(rnd)|] == S.base(rnd) && (S.base(rnd) + ct)[|S.base(rnd)|..] == ct;
  }

  lemma Methods(m: byte)
    requires m < 4
    ensures InitAuth(m) == Stat <==> m in {2, 3}
    ensures RespAuth(m) == Stat <==> m in {1, 3}
  {
  }

  /** Message_2 is accepted if and only if it opens under the shared secret to a plaintext that proves the responder. */
  ghost predicate AcceptsMessage2(S: Suite, c: Ctx, input: Bytes, th2: Bytes, prk2e: Bytes, pt2: Bytes) {
    && c.role == 1 && |input| >= 48 && S.dh(c.ephSk, input[..32]).Some?
    && th2 == S.sha256(input[..32] + c.hMsg1 + [c.cR]) && prk2e == S.hmac(th2, S.dh(c.ephSk, input[..32]).value)
    && Opens(S, prk2e, th2, input[32..], pt2) && Proves(S, c.peerAuth, prk2e, th2, c.peer, c.ephSk, pt2)
  }

  lemma OpenIs(S: Suite, prk: Bytes, th: Bytes, ct: Bytes)
    requires LawfulHash(S)
    ensures Open(S, prk, th, ct).Some? ==> Opens(S, prk, th, ct, Open(S, prk, th, ct).value)
    ensures forall pt :: Opens(S, prk, th, ct, pt) ==> Open(S, prk, th, ct) == Some(pt)
  {
    hide Open, Opens;
    if Open(S, prk, th, ct).Some? {
      SealMeans(S, prk, th, Open(S, prk, th, ct).value, ct);
    }
    forall pt | Opens(S, prk, th, ct, pt) ensures Open(S, prk, th, ct) == Some(pt) {
      SealMeans(S, prk, th, pt, ct);
    }
  }

  /** An initiator that goes on: it accepted message_2, its message_3 is its own proof encrypted, and the keys are those of
      the transcript. */
  lemma Message3Means(S: Suite, c: Ctx, input: Bytes, cap: nat) returns (pt2: Bytes, pt3: Bytes)
    requires LawfulHash(S) && HandleMsg2(S, c, input, cap).rc == OK
    ensures var m := HandleMsg2(S, c, input, cap);
            var d := m.ctx;
            && AcceptsMessage2(S, c, input, d.th2, d.prk2e, pt2)
            && d.prk3e2m == NextPrk(S, c.peerAuth, d.prk2e, c.ephSk, c.peer.dhPk)
            && |pt2| >= 3 && d.peerIdCred == pt2[..3] && d.th3 == S.sha256(d.th2 + pt2)
            && Shows(S, c.selfAuth, d.prk3e2m, d.th3, c.self, input[..32], pt3)
            && d.prk4e3m == NextPrk(S, c.selfAuth, d.prk3e2m, c.self.dhSk, input[..32])
            && d.th4 == S.sha256(d.th3 + pt3) && Seals(S, d.prk3e2m, d.th3, pt3, m.out) && Exported(S, d)
  {
    var g := S.dh(c.ephSk, input[..32]);
    var th2 := S.sha256(input[..32] + c.hMsg1 + [c.cR]);
    var prk2e := S.hmac(th2, g.value);
    OpenIs(S, prk2e, th2, input[32..]);
    pt2 := Open(S, prk2e, th2, input[32..]).value;
    var k := CheckAuth(S, c.peerAuth, prk2e, th2, c.peer, c.ephSk, pt2, c.peerIdCred, c.prk3e2m);
    CheckExactly(S, c.peerAuth, prk2e, th2, c.peer, c.ephSk, pt2, c.peerIdCred, c.prk3e2m);
    var c3 := c.(peerEphPk := input[..32], ssE := g.value, th2 := th2, prk2e := prk2e, peerIdCred := k.id, prk3e2m := k.prk);
    pt3 := EmissionMeans(S, c3, pt2, cap);
    hide CheckAuth, EmitMsg3, Proves, Shows, NextPrk, Seals, Opens, Open, Exported;
  }

  lemma EmissionMeans(S: Suite, c: Ctx, pt2: Bytes, cap: nat) returns (pt3: Bytes)
    requires LawfulHash(S)
    ensures var m := EmitMsg3(S, c, pt2, cap);
            var d := m.ctx;
            m.rc == OK ==>
              && d.th2 == c.th2 && d.prk2e == c.prk2e && d.prk3e2m == c.prk3e2m && d.peerIdCred == c.peerIdCred
              && d.th3 == S.sha256(c.th2 + pt2) && Shows(S, c.selfAuth, c.prk3e2m, d.th3, c.self, c.peerEphPk, pt3)
              && d.prk4e3m == NextPrk(S, c.selfAuth, c.prk3e2m, c.self.dhSk, c.peerEphPk)
              && d.th4 == S.sha256(d.th3 + pt3) && Seals(S, c.prk3e2m, d.th3, pt3, m.out) && Exported(S, d)
  {
    var th3 := S.sha256(c.th2 + pt2);
    var b := BuildAuth(S, c.selfAuth, c.prk3e2m, th3, c.self, c.peerEphPk, c.prk4e3m);
    pt3 := b.pt;
    BuildExactly(S, c.selfAuth, c.prk3e2m, th3, c.self, c.peerEphPk, c.prk4e3m);
    DerivedIsExported(S, c.(th3 := th3, prk4e3m := b.prk, th4 := S.sha256(th3 + pt3)));
    var ct := Seal(S, c.prk3e2m, th3, pt3);
    if ct.Some? { SealMeans(S, c.prk3e2m, th3, pt3, ct.value); }
    hide BuildAuth, Shows, NextPrk, Seal, Seals, PrkOut, Exported, Expand;
  }

  /** Message_3 is accepted if and only if it opens to a plaintext that proves the initiator. */
  ghost predicate AcceptsMessage3(S: Suite, c: Ctx, input: Bytes, pt3: Bytes) {
    c.role == 0 && Opens(S, c.prk3e2m, c.th3, input, pt3) && Proves(S, c.peerAuth, c.prk3e2m, c.th3, c.peer, c.ephSk, pt3)
  }

  lemma Message3Accepted(S: Suite, c: Ctx, input: Bytes)
    requires LawfulHash(S)
    ensures HandleMsg3(S, c, input).rc == OK <==> exists pt3 :: AcceptsMessage3(S, c, input, pt3)
    ensures forall pt3 | AcceptsMessage3(S, c, input, pt3) ::
              var d := HandleMsg3(S, c, input).ctx;
              && |pt3| >= 3 && d.peerIdCred == pt3[..3] && d.th4 == S.sha256(c.th3 + pt3)
              && d.prk4e3m == NextPrk(S, c.peerAuth, c.prk3e2m, c.ephSk, c.peer.dhPk) && Exported(S, d)
  {
    OpenIs(S, c.prk3e2m, c.th3, input);
    var o := Open(S, c.prk3e2m, c.th3, input);
    if c.role == 0 && o.Some? {
      CheckExactly(S, c.peerAuth, c.prk3e2m, c.th3, c.peer, c.ephSk, o.value, c.peerIdCred, c.prk4e3m);
      var k := CheckAuth(S, c.peerAuth, c.prk3e2m, c.th3, c.peer, c.ephSk, o.value, c.peerIdCred, c.prk4e3m);
      DerivedIsExported(S, c.(peerIdCred := k.id, prk4e3m := k.prk, th4 := S.sha256(c.th3 + o.value)));
      assert k.rc == OK ==> AcceptsMessage3(S, c, input, o.value);
    }
    hide CheckAuth, Proves, NextPrk, Opens, Open, PrkOut, Exported, Expand;
  }

  /** A message_3 that opens to a plaintext which does not prove the initiator gives the code of what is wrong with it, and
      leaves the exported keys as they were; so does a message_2 at the initiator. */
  lemma RefusedMessage3(S: Suite, c: Ctx, input: Bytes, pt3: Bytes)
    requires LawfulHash(S) && c.role == 0 && Opens(S, c.prk3e2m, c.th3, input, pt3)
    requires !Proves(S, c.peerAuth, c.prk3e2m, c.th3, c.peer, c.ephSk, pt3)
    ensures var m := HandleMsg3(S, c, input);
            && m.rc == CheckAuth(S, c.peerAuth, c.prk3e2m, c.th3, c.peer, c.ephSk, pt3, c.peerIdCred, c.prk4e3m).rc != OK
            && (c.peerAuth == Sig && |pt3| == 99 ==> m.rc == ERR_SIG) && SameKeys(c, m.ctx) && m.out == []
  {
    OpenIs(S, c.prk3e2m, c.th3, input);
    CheckExactly(S, c.peerAuth, c.prk3e2m, c.th3, c.peer, c.ephSk, pt3, c.peerIdCred, c.prk4e3m);
    RefusalCodes(S, c.peerAuth, c.prk3e2m, c.th3, c.peer, c.ephSk, pt3, c.peerIdCred, c.prk4e3m);
    Msg3Outcome(S, c, input);
    hide CheckAuth, Opens, Open, PrkOut, Expand, Signed, Maced;
  }

  lemma RefusedMessage2(S: Suite, c: Ctx, input: Bytes, cap: nat, th2: Bytes, prk2e: Bytes, pt2: Bytes)
    requires LawfulHash(S) && c.role == 1 && |input| >= 48 && S.dh(c.ephSk, input[..32]).Some?
    requires th2 == S.sha256(input[..32] + c.hMsg1 + [c.cR]) && prk2e == S.hmac(th2, S.dh(c.ephSk, input[..32]).value)
    requires Opens(S, prk2e, th2, input[32..], pt2) && !Proves(S, c.peerAuth, prk2e, th2, c.peer, c.ephSk, pt2)
    ensures var m := HandleMsg2(S, c, input, cap);
            && m.rc == CheckAuth(S, c.peerAuth, prk2e, th2, c.peer, c.ephSk, pt2, c.peerIdCred, c.prk3e2m).rc != OK
            && (c.peerAuth == Sig && |pt2| == 99 ==> m.rc == ERR_SIG) && SameKeys(c, m.ctx) && m.out == []
  {
    OpenIs(S, prk2e, th2, input[32..]);
    CheckExactly(S, c.peerAuth, prk2e, th2, c.peer, c.ephSk, pt2, c.peerIdCred, c.prk3e2m);
    RefusalCodes(S, c.peerAuth, prk2e, th2, c.peer, c.ephSk, pt2, c.peerIdCred, c.prk3e2m);
    Msg2Outcome(S, c, input, cap);
    hide CheckAuth, Opens, Open, EmitMsg3, Signed, Maced;
  }

  // ------------------------------------------------------------------ what is refused before a plaintext is seen

  /** The codes of a handler that does not get as far as a plaintext: wrong role (-8), wrong length or method (-3), failed key
      agreement (-4), nothing that opens (-5). */
  lemma EarlyRefusals(S: Suite, c: Ctx, input: Bytes, rnd: Bytes, cap: nat)
    requires LawfulHash(S)
    ensures var rc := HandleMsg1(S, c, input, rnd, cap).rc;
            if c.role != 0 then rc == -8 else if |input| != 34 || input[0] > 3 then rc == -3
            else S.dh(rnd, input[1..33]).None? ==> rc == -4
    ensures var rc := HandleMsg2(S, c, input, cap).rc;
            if c.role != 1 then rc == -8 else if |input| < 48 then rc == -3
            else if S.dh(c.ephSk, input[..32]).None? then rc == -4
            else
              var th2 := S.sha256(input[..32] + c.hMsg1 + [c.cR]);
              var prk2e := S.hmac(th2, S.dh(c.ephSk, input[..32]).value);
              (forall pt :: !Opens(S, prk2e, th2, input[32..], pt)) ==> rc == -5
    ensures var rc := HandleMsg3(S, c, input).rc;
            if c.role != 0 then rc == -8 else (forall pt :: !Opens(S, c.prk3e2m, c.th3, input, pt)) ==> rc == -5
    ensures HandleMsg4(c, input).rc == if c.role != 1 then -8 else if |input| != 0 then -3 else 0
  {
    hide BuildAuth, CheckAuth, EmitMsg3, Open, Opens, Seal, ThNext, PrkOut, Expand, InitAuth, RespAuth;
    OpenIs(S, c.prk3e2m, c.th3, input);
    if |input| >= 48 && S.dh(c.ephSk, input[..32]).Some? {
      var th2 := S.sha256(input[..32] + c.hMsg1 + [c.cR]);
      OpenIs(S, S.hmac(th2, S.dh(c.ephSk, input[..32]).value), th2, input[32..]);
    }
  }

  // ------------------------------------------------------------------ output buffers

  /** What a smaller output buffer changes: the result is the same if the message fits, and -2 without output if not. */
  predicate CutBy(m: Result, cap: nat, less: Result) {
    if m.rc != OK then less.rc == m.rc || less.rc == -2
    else if |m.out| <= cap then less == m
    else less.rc == -2 && less.out == []
  }

  lemma BufferLimits(S: Suite, c: Ctx, input: Bytes, rnd: Bytes, cap: nat, more: nat)
    requires LawfulDh(S) && cap <= more
    ensures CutBy(MakeMsg1(S, c, rnd, more), cap, MakeMsg1(S, c, rnd, cap))
    ensures CutBy(HandleMsg1(S, c, input, rnd, more), cap, HandleMsg1(S, c, input, rnd, cap))
    ensures CutBy(HandleMsg2(S, c, input, more), cap, HandleMsg2(S, c, input, cap))
  {
    hide BuildAuth, CheckAuth, Open, Seal, ThNext, PrkOut, Expand, InitAuth, RespAuth, Th2, Extract, Ascii;
  }
}
