/** The context of methods 0 to 3 as an object its handlers update in place.  The C handlers receive a pointer to one
    struct; here the object holds that struct and every `ctx->f = v` is one update of it, failures included. */
module Edhoc03Context {
  import opened Primitives
  import opened Hkdf
  import opened Edhoc03
  import Edhoc03Runs

  class Context {
    const S: Suite
    var c: Ctx

    constructor Initiator(S: Suite, meth: byte, self: Creds, peer: Peer)
      ensures this.S == S && c == InitInitiator(meth, self, peer)
    {
      this.S := S;
      c := Blank(1, meth, InitAuth(meth), RespAuth(meth), self, peer);
    }

    constructor Responder(S: Suite, self: Creds, peer: Peer)
      ensures this.S == S && c == InitResponder(self, peer)
    {
      this.S := S;
      c := Blank(0, 0, Sig, Sig, self, peer);
    }

    /** Key and nonce of one AEAD call: 44 octets of HKDF output, cut after 32. */
    method DeriveKey(prk: Bytes, th: Bytes) returns (key: Bytes, nonce: Bytes)
      requires LawfulHash(S)
      ensures key == AeadKey(S, prk, th) && nonce == AeadNonce(S, prk, th)
      ensures |key| == KEY_LEN && |nonce| == NONCE_LEN
    {
      hide LawfulHash, Expand, Ascii;
      var okm := ExpandC(S, prk, th + Ascii("E3KEY"), KEY_LEN + NONCE_LEN);
      key, nonce := okm[..KEY_LEN], okm[KEY_LEN..];
    }

    method ComputeMac(prk: Bytes, th: Bytes, id: Bytes, pub: Bytes) returns (mac: Bytes)
      requires LawfulHash(S)
      ensures mac == Mac(S, prk, th, id, pub)
    {
      var info := th;
      info := info + id;
      info := info + pub;
      mac := ExpandC(S, prk, info, MAC_LEN);
    }

    method DeriveSessionKeys()
      requires LawfulHash(S)
      modifies this
      ensures c == DeriveMsk(S, old(c))
    {
      hide LawfulHash, Expand, Ascii;
      var okm := ExpandC(S, c.prk4e3m, c.th4, 32);
      c := c.(prkOut := okm);
      okm := ExpandC(S, c.prkOut, Ascii("EDHOC-EAP-MSK"), 64);
      c := c.(msk := okm);
      okm := ExpandC(S, c.prkOut, Ascii("EDHOC-EAP-EMSK"), 64);
      c := c.(emsk := okm);
      c := c.(done := true);
    }

    method MakeMessage1(rnd: Bytes, cap: nat) returns (out: Bytes, rc: int)
      modifies this
      ensures Result(c, out, rc) == MakeMsg1(S, old(c), rnd, cap)
      ensures Outcome(old(c), Result(c, out, rc), false)
    {
      MakeMsg1Outcome(S, c, rnd, cap);
      if c.role != 1 { return [], ERR_STATE; }
      if !MethodValid(c.meth) { return [], ERR_ARG; }
      c := c.(ephSk := rnd);
      c := c.(ephPk := S.base(c.ephSk));
      var need := 1 + X_LEN + 1;
      if need > cap { return [], ERR_BUF; }
      out := [c.meth];
      out := out + c.ephPk;
      out := out + [c.cI];
      c := c.(hMsg1 := S.sha256(out));
      rc := OK;
    }

    /** The authenticated plaintext of this end, PT2 or PT3, with the PRK its MAC is keyed with. */
    method BuildPlaintext(prkIn: Bytes, th: Bytes, prk0: Bytes) returns (prk: Bytes, pt: Bytes, rc: int)
      requires LawfulHash(S)
      ensures Built(prk, pt, rc) == BuildAuth(S, c.selfAuth, prkIn, th, c.self, c.peerEphPk, prk0)
    {
      hide LawfulHash, Mac;
      if c.selfAuth == Stat {
        var g := S.dh(c.self.dhSk, c.peerEphPk);
        if g.None? { return prk0, [], ERR_DH; }
        prk := Extract(S, prkIn, g.value);
        var mac := ComputeMac(prk, th, c.self.idCred, c.self.dhPk);
        pt := c.self.idCred;
        pt := pt + c.self.dhPk;
        pt := pt + mac;
      } else {
        prk := prkIn;
        var mac := ComputeMac(prk, th, c.self.idCred, c.self.sigVk);
        var sig := S.sign(c.self.sigSk, SigMessage(th, c.self.idCred, mac));
        if sig.None? { return prk, [], ERR_SIG; }
        pt := c.self.idCred;
        pt := pt + c.self.sigVk;
        pt := pt + sig.value;
      }
      rc := OK;
    }

    /** The check of the peer's plaintext; `peerIdCred` is written as soon as the length is right. */
    method CheckPlaintext(prkIn: Bytes, th: Bytes, pt: Bytes, prk0: Bytes) returns (prk: Bytes, rc: int)
      requires LawfulHash(S)
      modifies this
      ensures var k := CheckAuth(S, old(c.peerAuth), prkIn, th, old(c.peer), old(c.ephSk), pt, old(c.peerIdCred), prk0);
              c == old(c).(peerIdCred := k.id) && prk == k.prk && rc == k.rc
    {
      hide LawfulHash, Mac;
      if c.peerAuth == Stat {
        if |pt| != ID_LEN + X_LEN + MAC_LEN { return prk0, ERR_PARSE; }
        c := c.(peerIdCred := pt[..3]);
        var pub, mac := pt[3..35], pt[35..];
        if pub != c.peer.dhPk { return prk0, ERR_MAC; }
        var g := S.dh(c.ephSk, pub);
        if g.None? { return prk0, ERR_DH; }
        prk := Extract(S, prkIn, g.value);
        var mac' := ComputeMac(prk, th, c.peerIdCred, pub);
        if mac' != mac { return prk, ERR_MAC; }
      } else {
        if |pt| != ID_LEN + X_LEN + ED_SIG { return prk0, ERR_PARSE; }
        c := c.(peerIdCred := pt[..3]);
        var vk, sig := pt[3..35], pt[35..];
        if vk != c.peer.sigVk { return prk0, ERR_SIG; }
        prk := prkIn;
        var mac := ComputeMac(prk, th, c.peerIdCred, vk);
        if !S.verify(vk, SigMessage(th, c.peerIdCred, mac), sig) { return prk, ERR_SIG; }
      }
      rc := OK;
    }

    /** Opens ct into a buffer, which is overwritten up to the length of the plaintext, with zeros on failure. */
    method AeadOpen(prk: Bytes, th: Bytes, ct: Bytes, pt: array<byte>) returns (n: nat, ok: bool)
      requires LawfulHash(S) && LawfulAead(S) && Decrypted(ct) <= pt.Length
      modifies pt
      ensures n == Decrypted(ct) && pt[n..] == old(pt[n..])
      ensures Open(S, prk, th, ct) == if ok then Some(pt[..n]) else None
      ensures !ok ==> pt[..n] == Zeros(n)
    {
      hide LawfulHash, AeadKey, AeadNonce;
      var key, nonce := DeriveKey(prk, th);
      var p := S.open(key, nonce, th, ct);
      ok, n := p.Some?, if |ct| < TAG_LEN then 0 else |ct| - TAG_LEN;
      if ok { OpenedLength(S, prk, th, ct); }
      var bytes := if ok then p.value else Zeros(n);
      forall i | 0 <= i < n { pt[i] := bytes[i]; }
      assert pt[..n] == bytes;
    }

    method HandleMessage1(input: Bytes, rnd: Bytes, cap: nat) returns (out: Bytes, rc: int)
      requires LawfulHash(S)
      modifies this
      ensures Result(c, out, rc) == HandleMsg1(S, old(c), input, rnd, cap)
      ensures Outcome(old(c), Result(c, out, rc), false)
    {
      Msg1Outcome(S, c, input, rnd, cap);
      hide LawfulHash, BuildAuth, AeadKey, AeadNonce, InitAuth, RespAuth;
      if c.role != 0 { return [], ERR_STATE; }
      if |input| != 1 + X_LEN + 1 { return [], ERR_PARSE; }
      if !MethodValid(input[0]) { return [], ERR_PARSE; }
      c := c.(meth := input[0]);
      c := c.(selfAuth := RespAuth(c.meth));
      c := c.(peerAuth := InitAuth(c.meth));
      c := c.(peerEphPk := input[1..33]);
      c := c.(cI := input[33]);
      c := c.(hMsg1 := S.sha256(input));
      c := c.(ephSk := rnd);
      c := c.(ephPk := S.base(c.ephSk));
      var ss := S.dh(c.ephSk, c.peerEphPk);
      if ss.None? { return [], ERR_DH; }
      c := c.(ssE := ss.value);
      c := c.(th2 := S.sha256(c.ephPk + c.hMsg1 + [c.cR]));
      c := c.(prk2e := Extract(S, c.th2, c.ssE));
      var prk, pt2, code := BuildPlaintext(c.prk2e, c.th2, c.prk3e2m);
      c := c.(prk3e2m := prk);
      if code != OK { return [], code; }
      c := c.(th3 := S.sha256(c.th2 + pt2));
      var key, nonce := DeriveKey(c.prk2e, c.th2);
      var ct := S.seal(key, nonce, c.th2, pt2);
      if ct.None? { return [], ERR_AEAD; }
      if X_LEN + |ct.value| > cap { return [], ERR_BUF; }
      out := c.ephPk;
      out := out + ct.value;
      rc := OK;
    }

    /** The caller must not pass a message that overruns the local plaintext buffer. */
    method HandleMessage2(input: Bytes, cap: nat) returns (out: Bytes, rc: int)
      requires LawfulHash(S) && LawfulAead(S) && Msg2Fill(S, c, input) <= PT_CAP
      modifies this
      ensures Result(c, out, rc) == HandleMsg2(S, old(c), input, cap)
      ensures Outcome(old(c), Result(c, out, rc), true)
    {
      Msg2Outcome(S, c, input, cap);
      hide LawfulHash, LawfulAead, CheckAuth, AeadKey, AeadNonce, EmitMsg3;
      if c.role != 1 { return [], ERR_STATE; }
      if |input| < X_LEN + TAG_LEN { return [], ERR_PARSE; }
      c := c.(peerEphPk := input[..32]);
      var ss := S.dh(c.ephSk, c.peerEphPk);
      if ss.None? { return [], ERR_DH; }
      c := c.(ssE := ss.value);
      c := c.(th2 := S.sha256(c.peerEphPk + c.hMsg1 + [c.cR]));
      c := c.(prk2e := Extract(S, c.th2, c.ssE));
      var pt2 := new byte[ID_LEN + X_LEN + ED_SIG + 16];
      var len, good := AeadOpen(c.prk2e, c.th2, input[32..], pt2);
      if !good { return [], ERR_AEAD; }
      var prk, code := CheckPlaintext(c.prk2e, c.th2, pt2[..len], c.prk3e2m);
      c := c.(prk3e2m := prk);
      if code != OK { return [], code; }
      out, rc := AnswerMessage2(pt2[..len], cap);
    }

    /** The rest of message_2 handling, from TH3 on. */
    method AnswerMessage2(pt2: Bytes, cap: nat) returns (out: Bytes, rc: int)
      requires LawfulHash(S)
      modifies this
      ensures Result(c, out, rc) == EmitMsg3(S, old(c), pt2, cap)
    {
      hide LawfulHash, BuildAuth, AeadKey, AeadNonce, DeriveMsk;
      c := c.(th3 := S.sha256(c.th2 + pt2));
      var prk, pt3, code := BuildPlaintext(c.prk3e2m, c.th3, c.prk4e3m);
      c := c.(prk4e3m := prk);
      if code != OK { return [], code; }
      c := c.(th4 := S.sha256(c.th3 + pt3));
      var key, nonce := DeriveKey(c.prk3e2m, c.th3);
      var ct := S.seal(key, nonce, c.th3, pt3);
      if ct.None? { return [], ERR_AEAD; }
      if |ct.value| > cap { return [], ERR_BUF; }
      out := ct.value;
      DeriveSessionKeys();
      rc := OK;
    }

    method HandleMessage3(input: Bytes) returns (out: Bytes, rc: int)
      requires LawfulHash(S) && LawfulAead(S) && Msg3Fill(c, input) <= PT_CAP
      modifies this
      ensures Result(c, out, rc) == HandleMsg3(S, old(c), input)
      ensures Outcome(old(c), Result(c, out, rc), true)
    {
      Msg3Outcome(S, c, input);
      hide LawfulHash, LawfulAead, CheckAuth, AeadKey, AeadNonce, DeriveMsk;
      if c.role != 0 { return [], ERR_STATE; }
      var pt3 := new byte[ID_LEN + X_LEN + ED_SIG + 16];
      var len, good := AeadOpen(c.prk3e2m, c.th3, input, pt3);
      if !good { return [], ERR_AEAD; }
      var prk, code := CheckPlaintext(c.prk3e2m, c.th3, pt3[..len], c.prk4e3m);
      c := c.(prk4e3m := prk);
      if code != OK { return [], code; }
      c := c.(th4 := S.sha256(c.th3 + pt3[..len]));
      DeriveSessionKeys();
      return [], OK;
    }

    method HandleMessage4(input: Bytes) returns (rc: int)
      modifies this
      ensures Result(c, [], rc) == HandleMsg4(old(c), input)
      ensures SameParty(old(c), c) && (rc != OK ==> c == old(c)) && (rc == OK ==> input == [] && c.done)
    {
      if c.role != 1 { return ERR_STATE; }
      if |input| != 0 { return ERR_PARSE; }
      c := c.(done := true);
      rc := OK;
    }
  }

  /** The in-process exchange of the self-test, over two real contexts: it stops at the first handler that fails, and
      otherwise both ends finish with equal keys. */
  method RunHandshake(S: Suite, meth: byte, ini: Creds, res: Creds, x: Bytes, y: Bytes, cap: nat)
    returns (i: Context, r: Context, ok: bool)
    requires Lawful(S) && MethodValid(meth) && WellFormed(S, ini) && WellFormed(S, res) && cap >= 147
    ensures fresh(i) && fresh(r)
    ensures ok <==> Edhoc03Runs.Succeeds(Edhoc03Runs.HonestExchange(S, meth, ini, res, x, y, cap))
    ensures ok ==> i.c.done && r.c.done && Edhoc03Runs.Agree(i.c, r.c)
    ensures !ok ==> !i.c.done && !r.c.done
  {
    ghost var plan := Edhoc03Runs.HonestExchange(S, meth, ini, res, x, y, cap);
    Edhoc03Runs.HonestMessagesFit(S, meth, ini, res, x, y, cap);
    assert plan.m1.rc == OK && (Edhoc03Runs.Succeeds(plan) ==> plan.r.rc == OK && plan.i.rc == OK) by {
      Edhoc03Runs.HonestOutcome(S, meth, ini, res, x, y, cap);
    }
    if Edhoc03Runs.Succeeds(plan) {
      Edhoc03Runs.HonestRunAgrees(S, meth, ini, res, x, y, cap);
    }
    hide Expand, MakeMsg1, HandleMsg1, HandleMsg2, HandleMsg3, Msg2Fill, Msg3Fill, WellFormed, Edhoc03Runs.Agree;
    i := new Context.Initiator(S, meth, ini, PublicOf(res));
    r := new Context.Responder(S, res, PublicOf(ini));
    var m1, rc := i.MakeMessage1(x, cap);
    var m2;
    m2, rc := r.HandleMessage1(m1, y, cap);
    if rc != OK { return i, r, false; }
    var m3;
    m3, rc := i.HandleMessage2(m2, cap);
    if rc != OK { return i, r, false; }
    var m4;
    m4, rc := r.HandleMessage3(m3);
    rc := i.HandleMessage4(m4);
    ok := true;
  }
}
