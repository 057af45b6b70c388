/** The method-4 context as an object its handlers update in place, failures included. */
module Edhoc4Context {
  import opened Primitives
  import opened Hkdf
  import opened XWing
  import opened Edhoc4
  import Edhoc4Runs
  import Edhoc4Honest

  class Context {
    const S: Suite
    var c: Ctx

    constructor Initiator(S: Suite, self: Creds, peerPk: Bytes)
      ensures this.S == S && c == InitInitiator(self, peerPk)
    {
      this.S := S;
      c := Blank(1, self, peerPk, 0x10, 0);
    }

    constructor Responder(S: Suite, self: Creds, peerPk: Bytes)
      ensures this.S == S && c == InitResponder(self, peerPk)
    {
      this.S := S;
      c := Blank(0, self, peerPk, 0, 0x20);
    }

    method DeriveKey(prk: Bytes, th: Bytes) returns (key: Bytes, nonce: Bytes)
      requires LawfulHash(S)
      ensures key == AeadKey(S, prk, th) && nonce == AeadNonce(S, prk, th)
    {
      hide LawfulHash, Expand, Ascii;
      var okm := ExpandC(S, prk, th + Ascii("E4KEY"), KEY_LEN + NONCE_LEN);
      key, nonce := okm[..KEY_LEN], okm[KEY_LEN..];
    }

    method AeadSeal(prk: Bytes, th: Bytes, pt: Bytes) returns (ct: Option<Bytes>)
      requires LawfulHash(S)
      ensures ct == Seal(S, prk, th, pt)
    {
      var key, nonce := DeriveKey(prk, th);
      ct := S.seal(key, nonce, th, pt);
    }

    /** Opens ct into a buffer, which is overwritten up to the length of the plaintext, with zeros on failure. */
    method AeadOpen(prk: Bytes, th: Bytes, ct: Bytes, pt: array<byte>) returns (n: nat, ok: bool)
      requires LawfulHash(S) && LawfulAead(S) && Decrypted(ct) <= pt.Length
      modifies pt
      ensures n == Decrypted(ct) && pt[n..] == old(pt[n..])
      ensures Open(S, prk, th, ct) == if ok then Some(pt[..n]) else None
      ensures !ok ==> pt[..n] == Zeros(n)
    {
      hide LawfulHash, AeadKey, AeadNonce;
      var key, nonce := DeriveKey(prk, th);
      var p := S.open(key, nonce, th, ct);
      ok, n := p.Some?, if |ct| < TAG_LEN then 0 else |ct| - TAG_LEN;
      if ok { OpenedLength(S, prk, th, ct); }
      var bytes := if ok then p.value else Zeros(n);
      forall i | 0 <= i < n { pt[i] := bytes[i]; }
      assert pt[..n] == bytes;
    }

    method ComputeMac(prk: Bytes, th: Bytes, id: Bytes, ead: Bytes) returns (mac: Bytes)
      requires LawfulHash(S)
      ensures mac == Mac(S, prk, th, id, ead)
    {
      var info := th;
      info := info + id;
      if |ead| > 0 { info := info + ead; }
      assert info == MacInfo(th, id, ead);
      mac := ExpandC(S, prk, info, MAC_LEN);
    }

    method DeriveSessionKeys()
      requires LawfulHash(S)
      modifies this
      ensures c == DeriveMsk(S, old(c))
    {
      hide LawfulHash, Expand, Ascii;
      var okm := ExpandC(S, c.ks.prk4e3m, c.th.th4, 32);
      c := c.(ks := c.ks.(prkOut := okm));
      okm := ExpandC(S, c.ks.prkOut, Ascii("EDHOC-EAP-MSK"), 64);
      c := c.(ks := c.ks.(msk := okm));
      okm := ExpandC(S, c.ks.prkOut, Ascii("EDHOC-EAP-EMSK"), 64);
      c := c.(ks := c.ks.(emsk := okm));
      c := c.(done := true);
    }

    method MakeMessage1(key: Coins, enc: Coins, cap: nat) returns (out: Bytes, rc: int)
      requires LawfulHash(S) && Sized(c)
      modifies this
      ensures Result(c, out, rc) == MakeMsg1(S, old(c), key, enc, cap)
      ensures Outcome(old(c), Result(c, out, rc), true)
    {
      MakeMsg1Outcome(S, c, key, enc, cap);
      hide LawfulHash, Keypair, Encaps, Extract, Th1, Seal;
      if c.role != 1 { return [], ERR_STATE; }
      var eph := Keypair(S, key);
      if eph.None? { return [], ERR_KEM; }
      c := c.(eph := eph.value);
      var b := Encaps(S, c.peer.kemPk, enc);
      if b.None? { return [], ERR_KEM; }
      c := c.(ss := c.ss.(b := b.value.ss));
      c := c.(th := c.th.(th1 := Th1(S, c.eph.pk, b.value.ct)));
      c := c.(ks := c.ks.(prk1e := Extract(S, c.th.th1, c.ss.b)));
      var ct1 := AeadSeal(c.ks.prk1e, c.th.th1, [0x04, c.cI]);
      if ct1.None? { return [], ERR_AEAD; }
      var need := XCT + XPK + |ct1.value|;
      if need > cap { return [], ERR_BUF; }
      out := b.value.ct;
      out := out + c.eph.pk;
      out := out + ct1.value;
      c := c.(th := c.th.(hMsg1 := S.sha256(out)));
      rc := OK;
    }

    method HandleMessage1(input: Bytes, encE: Coins, encA: Coins, cap: nat) returns (out: Bytes, rc: int)
      requires LawfulHash(S) && LawfulAead(S) && Sized(c) && Msg1Fill(S, c, input) <= PT1_CAP
      modifies this
      ensures Result(c, out, rc) == HandleMsg1(S, old(c), input, encE, encA, cap)
      ensures Outcome(old(c), Result(c, out, rc), true)
    {
      Msg1Outcome(S, c, input, encE, encA, cap);
      hide LawfulHash, LawfulAead, Decaps, EmitMsg2, Extract, Th1, Open;
      if c.role != 0 { return [], ERR_STATE; }
      if |input| < XCT + XPK + 2 + TAG_LEN { return [], ERR_PARSE; }
      var ctB, pkX, ct1 := input[..1120], input[1120..2336], input[2336..];
      c := c.(eph := c.eph.(pk := pkX));
      var ssB := Decaps(S, ctB, c.self.kemSk);
      if ssB.None? { return [], ERR_KEM; }
      c := c.(ss := c.ss.(b := ssB.value));
      c := c.(th := c.th.(th1 := Th1(S, pkX, ctB)));
      c := c.(ks := c.ks.(prk1e := Extract(S, c.th.th1, c.ss.b)));
      var pt1 := new byte[64];
      var len, good := AeadOpen(c.ks.prk1e, c.th.th1, ct1, pt1);
      if !good { return [], ERR_AEAD; }
      if len < 2 || pt1[0] != 0x04 { return [], ERR_PARSE; }
      c := c.(cI := pt1[1]);
      out, rc := AnswerMessage1(S.sha256(input), encE, encA, cap);
    }

    /** The rest of message_1 handling, from the encapsulation to pkX on. */
    method AnswerMessage1(hMsg1: Bytes, encE: Coins, encA: Coins, cap: nat) returns (out: Bytes, rc: int)
      requires LawfulHash(S) && Sized(c)
      modifies this
      ensures Result(c, out, rc) == EmitMsg2(S, old(c), hMsg1, encE, encA, cap)
    {
      hide LawfulHash, Encaps, Extract, Th2, ThNext, Seal, Mac;
      var e := Encaps(S, c.eph.pk, encE);
      if e.None? { return [], ERR_KEM; }
      c := c.(ss := c.ss.(e := e.value.ss));
      c := c.(th := c.th.(th2 := Th2(S, hMsg1, e.value.ct, c.cR)));
      c := c.(ks := c.ks.(prk2e := Extract(S, c.th.th2, c.ss.e)));
      var a := Encaps(S, c.peer.kemPk, encA);
      if a.None? { return [], ERR_KEM; }
      c := c.(ctA := a.value.ct, ss := c.ss.(a := a.value.ss));
      c := c.(ks := c.ks.(prk3e2m := Extract(S, c.ks.prk2e, c.ss.b)));
      var mac2 := ComputeMac(c.ks.prk3e2m, c.th.th2, c.self.idCred, []);
      var sig := S.pqSign(c.self.sigSk, SigMessage(c.th.th2, c.self.idCred, mac2));
      if sig.None? { return [], ERR_SIG; }
      if |sig.value| != MLDSA_SIG { return [], ERR_SIG; }
      var pt2 := c.ctA;
      pt2 := pt2 + [c.cR];
      pt2 := pt2 + c.self.idCred;
      pt2 := pt2 + c.self.sigVk;
      pt2 := pt2 + mac2;
      pt2 := pt2 + sig.value;
      c := c.(th := c.th.(th3 := ThNext(S, c.th.th2, pt2)));
      var ct := AeadSeal(c.ks.prk2e, c.th.th2, pt2);
      if ct.None? { return [], ERR_AEAD; }
      if XCT + |ct.value| > cap { return [], ERR_BUF; }
      out := e.value.ct;
      out := out + ct.value;
      rc := OK;
    }

    method HandleMessage2(input: Bytes, key: Coins, cap: nat) returns (out: Bytes, rc: int)
      requires LawfulHash(S) && LawfulAead(S) && Sized(c) && Msg2Fill(S, c, input) <= PT2_CAP
      modifies this
      ensures Result(c, out, rc) == HandleMsg2(S, old(c), input, key, cap)
      ensures Outcome(old(c), Result(c, out, rc), rc != OK) && (rc == OK ==> !c.done)
    {
      Msg2Outcome(S, c, input, key, cap);
      hide LawfulHash, LawfulAead, Decaps, Extract, Th2, Open, Mac, EmitMsg3;
      if c.role != 1 { return [], ERR_STATE; }
      if |input| < XCT + TAG_LEN { return [], ERR_PARSE; }
      var cte, ct2 := input[..1120], input[1120..];
      var ssE := Decaps(S, cte, c.eph.sk);
      if ssE.None? { return [], ERR_KEM; }
      c := c.(ss := c.ss.(e := ssE.value));
      c := c.(cR := 0x20);
      c := c.(th := c.th.(th2 := Th2(S, c.th.hMsg1, cte, c.cR)));
      c := c.(ks := c.ks.(prk2e := Extract(S, c.th.th2, c.ss.e)));
      var buf := new byte[XCT + 1 + ID_LEN + MLDSA_PK + MAC_LEN + MLDSA_SIG + 16];
      var len, good := AeadOpen(c.ks.prk2e, c.th.th2, ct2, buf);
      if !good { return [], ERR_AEAD; }
      var pt2 := buf[..len];
      if len != XCT + 1 + ID_LEN + MLDSA_PK + MAC_LEN + MLDSA_SIG { return [], ERR_PARSE; }
      c := c.(ctA := pt2[..1120]);
      c := c.(cR := pt2[1120]);
      c := c.(peer := c.peer.(idCred := pt2[1121..1124]));
      c := c.(peer := c.peer.(sigVk := pt2[1124..2436]));
      var mac2, sig := pt2[2436..2444], pt2[2444..];
      c := c.(ks := c.ks.(prk3e2m := Extract(S, c.ks.prk2e, c.ss.b)));
      var mac := ComputeMac(c.ks.prk3e2m, c.th.th2, c.peer.idCred, []);
      if mac != mac2 { return [], ERR_MAC; }
      if !S.pqVerify(c.peer.sigVk, SigMessage(c.th.th2, c.peer.idCred, mac), sig) { return [], ERR_SIG; }
      out, rc := AnswerMessage2(pt2, key, cap);
    }

    /** The rest of message_2 handling, from TH3 on. */
    method AnswerMessage2(pt2: Bytes, key: Coins, cap: nat) returns (out: Bytes, rc: int)
      requires LawfulHash(S) && Sized(c) && |c.ctA| == XCT
      modifies this
      ensures Result(c, out, rc) == EmitMsg3(S, old(c), pt2, key, cap)
    {
      hide LawfulHash, LawfulAead, Decaps, Keypair, Extract, ThNext, Seal, Mac, DeriveMsk;
      c := c.(th := c.th.(th3 := ThNext(S, c.th.th2, pt2)));
      var ssA := Decaps(S, c.ctA, c.self.kemSk);
      if ssA.None? { return [], ERR_KEM; }
      c := c.(ss := c.ss.(a := ssA.value));
      c := c.(ks := c.ks.(prk4e3m := Extract(S, c.ks.prk3e2m, c.ss.a)));
      var k := Keypair(S, key);
      if k.None? { return [], ERR_KEM; }
      c := c.(next := k.value);
      var mac3 := ComputeMac(c.ks.prk4e3m, c.th.th3, c.self.idCred, c.next.pk);
      var sig := S.pqSign(c.self.sigSk, SigMessage(c.th.th3, c.self.idCred, mac3));
      if sig.None? { return [], ERR_SIG; }
      if |sig.value| != MLDSA_SIG { return [], ERR_SIG; }
      var pt3 := c.self.idCred;
      pt3 := pt3 + c.next.pk;
      pt3 := pt3 + mac3;
      pt3 := pt3 + c.self.sigVk;
      pt3 := pt3 + sig.value;
      c := c.(th := c.th.(th4 := ThNext(S, c.th.th3, pt3)));
      var ct := AeadSeal(c.ks.prk3e2m, c.th.th3, pt3);
      if ct.None? { return [], ERR_AEAD; }
      if |ct.value| > cap { return [], ERR_BUF; }
      out := ct.value;
      DeriveSessionKeys();
      c := c.(done := false);
      rc := OK;
    }

    method HandleMessage3(input: Bytes, key: Coins, cap: nat) returns (out: Bytes, rc: int)
      requires LawfulHash(S) && LawfulAead(S) && Msg3Fill(c, input) <= PT3_CAP
      modifies this
      ensures Result(c, out, rc) == HandleMsg3(S, old(c), input, key, cap)
      ensures var exports := old(c.role) == 0 && Authentic3(S, old(c), input);
              Outcome(old(c), Result(c, out, rc), !exports) && (exports ==> c.done)
    {
      Msg3Outcome(S, c, input, key, cap);
      hide LawfulHash, LawfulAead, Keypair, Extract, ThNext, Seal, Open, Mac, DeriveMsk;
      if c.role != 0 { return [], ERR_STATE; }
      c := c.(ks := c.ks.(prk4e3m := Extract(S, c.ks.prk3e2m, c.ss.a)));
      var buf := new byte[ID_LEN + XPK + MAC_LEN + MLDSA_PK + MLDSA_SIG + 16];
      var len, good := AeadOpen(c.ks.prk3e2m, c.th.th3, input, buf);
      if !good { return [], ERR_AEAD; }
      var pt3 := buf[..len];
      if len != ID_LEN + XPK + MAC_LEN + MLDSA_PK + MLDSA_SIG { return [], ERR_PARSE; }
      c := c.(peer := c.peer.(idCred := pt3[..3]));
      c := c.(peer := c.peer.(newPk := pt3[3..1219]));
      c := c.(peer := c.peer.(sigVk := pt3[1227..2539]));
      var mac3, sig := pt3[1219..1227], pt3[2539..];
      var mac := ComputeMac(c.ks.prk4e3m, c.th.th3, c.peer.idCred, c.peer.newPk);
      if mac != mac3 { return [], ERR_MAC; }
      if !S.pqVerify(c.peer.sigVk, SigMessage(c.th.th3, c.peer.idCred, mac), sig) { return [], ERR_SIG; }
      c := c.(th := c.th.(th4 := ThNext(S, c.th.th3, pt3)));
      DeriveSessionKeys();
      var k := Keypair(S, key);
      if k.None? { return [], ERR_KEM; }
      c := c.(next := k.value);
      KeptByDerive();
      var ct := AeadSeal(c.ks.prk4e3m, c.th.th4, c.next.pk);
      if ct.None? { return [], ERR_AEAD; }
      if |ct.value| > cap { return [], ERR_BUF; }
      out := ct.value;
      rc := OK;
    }

    /** Exporting the keys changes neither PRK4e3m nor a transcript hash. */
    lemma KeptByDerive()
      ensures forall d: Ctx {:trigger DeriveMsk(S, d)} ::
                DeriveMsk(S, d).ks.prk4e3m == d.ks.prk4e3m && DeriveMsk(S, d).th == d.th
    {
    }

    method HandleMessage4(input: Bytes) returns (rc: int)
      requires LawfulHash(S) && LawfulAead(S) && Msg4Fill(c, input) <= PT4_CAP
      modifies this
      ensures Result(c, [], rc) == HandleMsg4(S, old(c), input)
      ensures c.ks == old(c.ks) && if rc == OK then c.done else c == old(c)
    {
      Msg4Outcome(S, c, input);
      hide LawfulHash, Open;
      if c.role != 1 { return ERR_STATE; }
      var pt4 := new byte[XPK + 16];
      var len, good := AeadOpen(c.ks.prk4e3m, c.th.th4, input, pt4);
      if !good { return ERR_AEAD; }
      if len != XPK { return ERR_PARSE; }
      c := c.(peer := c.peer.(newPk := pt4[..len]));
      c := c.(done := true);
      rc := OK;
    }
  }

  /** The in-process exchange of the self-test, over two real contexts: it stops at the first handler that fails, and
      otherwise both ends finish with equal keys and swapped next static keys. */
  method RunHandshake(S: Suite, ini: Creds, res: Creds, d: Edhoc4Honest.Draws, cap: nat)
    returns (i: Context, r: Context, ok: bool)
    requires Edhoc4Honest.Setting(S, ini, res, d, cap)
    ensures fresh(i) && fresh(r)
    ensures ok <==> Edhoc4Honest.GoesThrough(S, ini, res, d, cap)
    ensures ok ==> i.c.done && r.c.done && Edhoc4Runs.Agree(i.c, r.c)
    ensures ok ==> i.c.ks == r.c.ks && i.c.peer.newPk == r.c.next.pk && r.c.peer.newPk == i.c.next.pk
    ensures !ok ==> !i.c.done
  {
    ghost var plan := Edhoc4Honest.HonestOutcome(S, ini, res, d, cap);
    Edhoc4Honest.ExchangeDefined(S, ini, res, d, cap);
    Edhoc4Honest.HonestMessagesFit(S, ini, res, d, cap, plan);
    if Edhoc4Honest.GoesThrough(S, ini, res, d, cap) {
      Edhoc4Honest.HonestRunAgrees(S, ini, res, d, cap);
    }
    hide Expand, Keypair, Encaps, MakeMsg1, HandleMsg1, HandleMsg2, HandleMsg3, HandleMsg4, WellFormed, Lawful, Sized, Msg1Fill,
         Msg2Fill, Msg3Fill, Msg4Fill, Authentic3, Edhoc4Runs.Agree, Edhoc4Honest.Excused;
    i := new Context.Initiator(S, ini, res.kemPk);
    r := new Context.Responder(S, res, ini.kemPk);
    var m1, rc := i.MakeMessage1(d.eph, d.encB, cap);
    if rc != OK { return i, r, false; }
    var m2;
    m2, rc := r.HandleMessage1(m1, d.encE, d.encA, cap);
    if rc != OK { return i, r, false; }
    var m3;
    m3, rc := i.HandleMessage2(m2, d.nextI, cap);
    if rc != OK { return i, r, false; }
    var m4;
    m4, rc := r.HandleMessage3(m3, d.nextR, cap);
    if rc != OK { return i, r, false; }
    rc := i.HandleMessage4(m4);
    ok := true;
  }
}
