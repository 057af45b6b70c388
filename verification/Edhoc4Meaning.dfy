/** What the handlers of method 4 compute and accept, in calls of the library alone: hashes, HMACs, ML-KEM, X25519, ML-DSA and
    the AEAD.  Nothing here mentions how the handlers derive, build or check. */
module Edhoc4Meaning {
  import opened Primitives
  import opened Hkdf
  import opened XWing
  import opened Edhoc4

  /** "E4KEY", "EDHOC-EAP-MSK", "EDHOC-EAP-EMSK" and "XWING-combiner-v1" in ASCII. */
  const KEY_LABEL: Bytes := [0x45, 0x34, 0x4B, 0x45, 0x59]
  const MSK_LABEL: Bytes := [0x45, 0x44, 0x48, 0x4F, 0x43, 0x2D, 0x45, 0x41, 0x50, 0x2D, 0x4D, 0x53, 0x4B]
  const EMSK_LABEL: Bytes := [0x45, 0x44, 0x48, 0x4F, 0x43, 0x2D, 0x45, 0x41, 0x50, 0x2D, 0x45, 0x4D, 0x53, 0x4B]
  const XWING_LABEL: Bytes :=
    [0x58, 0x57, 0x49, 0x4E, 0x47, 0x2D, 0x63, 0x6F, 0x6D, 0x62, 0x69, 0x6E, 0x65, 0x72, 0x2D, 0x76, 0x31]

  lemma Labels()
    ensures Ascii("E4KEY") == KEY_LABEL && Ascii("EDHOC-EAP-MSK") == MSK_LABEL && Ascii("EDHOC-EAP-EMSK") == EMSK_LABEL
  {
    hide Ascii;
    AsciiIs("E4KEY", KEY_LABEL);
    AsciiIs("EDHOC-EAP-MSK", MSK_LABEL);
    AsciiIs("EDHOC-EAP-EMSK", EMSK_LABEL);
  }

  lemma CombinerLabel()
    ensures Ascii("XWING-combiner-v1") == XWING_LABEL
  {
    hide Ascii;
    AsciiIs("XWING-combiner-v1", XWING_LABEL);
  }

  // ------------------------------------------------------------------ the hybrid KEM

  /** A generated pair: the ML-KEM pair, with the X25519 public and secret halves behind. */
  lemma KeypairMeans(S: Suite, r: Coins, k: KemPair)
    ensures Keypair(S, r) == Some(k)
            <==> exists m :: S.kemKeypair(r.kem) == Some(m) && k.pk == m.pk + S.base(r.x) && k.sk == m.sk + r.x
  {
  }

  /** An encapsulation: an ML-KEM one, an ephemeral X25519 key behind it, and the hash of both secrets, that key and the
      receiver's X25519 key under the label. */
  lemma EncapsMeans(S: Suite, pk: Bytes, r: Coins, e: Encapsulation)
    requires |pk| == 1216
    ensures Encaps(S, pk, r) == Some(e)
            <==> exists m, x ::
                   && S.kemEnc(pk[..1184], r.kem) == Some(m) && S.dh(r.x, pk[1184..]) == Some(x)
                   && e.ct == m.ct + S.base(r.x)
                   && e.ss == S.sha256(m.ss + x + S.base(r.x) + pk[1184..] + XWING_LABEL)
  {
    CombinerLabel();
    hide Ascii;
  }

  lemma DecapsMeans(S: Suite, ct: Bytes, sk: Bytes, ss: Bytes)
    requires |ct| == 1120 && |sk| == 2432
    ensures Decaps(S, ct, sk) == Some(ss)
            <==> exists m, x ::
                   && S.kemDec(ct[..1088], sk[..2400]) == Some(m) && S.dh(sk[2400..], ct[1088..]) == Some(x)
                   && ss == S.sha256(m + x + ct[1088..] + S.base(sk[2400..]) + XWING_LABEL)
  {
    CombinerLabel();
    hide Ascii;
  }

  // ------------------------------------------------------------------ the AEAD and the exported keys

  predicate Seals(S: Suite, prk: Bytes, th: Bytes, pt: Bytes, ct: Bytes) {
    var okm := Kdf(S, prk, th + KEY_LABEL, 44);
    |okm| == 44 && S.seal(okm[..32], okm[32..], th, pt) == Some(ct)
  }

  predicate Opens(S: Suite, prk: Bytes, th: Bytes, ct: Bytes, pt: Bytes) {
    var okm := Kdf(S, prk, th + KEY_LABEL, 44);
    |okm| == 44 && S.open(okm[..32], okm[32..], th, ct) == Some(pt)
  }

  lemma SealMeans(S: Suite, prk: Bytes, th: Bytes, pt: Bytes, ct: Bytes)
    requires LawfulHash(S)
    ensures Seal(S, prk, th, pt) == Some(ct) <==> Seals(S, prk, th, pt, ct)
    ensures Open(S, prk, th, ct) == Some(pt) <==> Opens(S, prk, th, ct, pt)
  {
    Labels();
    KdfIsExpand(S, prk, th + KEY_LABEL, 44);
    ExpandLength(S, prk, th + KEY_LABEL, 44);
    hide Expand, Kdf, Ascii;
  }

  lemma OpenIs(S: Suite, prk: Bytes, th: Bytes, ct: Bytes)
    requires LawfulHash(S)
    ensures Open(S, prk, th, ct).Some? ==> Opens(S, prk, th, ct, Open(S, prk, th, ct).value)
    ensures forall pt :: Opens(S, prk, th, ct, pt) ==> Open(S, prk, th, ct) == Some(pt)
  {
    hide Open, Opens;
    if Open(S, prk, th, ct).Some? {
      SealMeans(S, prk, th, Open(S, prk, th, ct).value, ct);
    }
    forall pt | Opens(S, prk, th, ct, pt) ensures Open(S, prk, th, ct) == Some(pt) {
      SealMeans(S, prk, th, pt, ct);
    }
  }

  predicate Exported(S: Suite, d: Ctx) {
    && d.ks.prkOut == Kdf(S, d.ks.prk4e3m, d.th.th4, 32) && d.ks.msk == Kdf(S, d.ks.prkOut, MSK_LABEL, 64)
    && d.ks.emsk == Kdf(S, d.ks.prkOut, EMSK_LABEL, 64)
  }

  lemma DerivedIsExported(S: Suite, c: Ctx)
    ensures Exported(S, DeriveMsk(S, c))
  {
    Labels();
    KdfIsExpand(S, c.ks.prk4e3m, c.th.th4, 32);
    KdfIsExpand(S, PrkOut(S, c), MSK_LABEL, 64);
    KdfIsExpand(S, PrkOut(S, c), EMSK_LABEL, 64);
    hide Expand, Kdf, Ascii;
  }

  lemma MacIsKdf(S: Suite)
    ensures forall prk, th, id, ead :: Mac(S, prk, th, id, ead) == Kdf(S, prk, th + id + ead, 8)
  {
    forall prk, th, id, ead ensures Mac(S, prk, th, id, ead) == Kdf(S, prk, th + id + ead, 8) {
      KdfIsExpand(S, prk, th + id + ead, 8);
      hide Expand, Kdf;
    }
  }

  // ------------------------------------------------------------------ authentication

  /** PT2 proves a responder: ciphertext, identifier, identity and key, the MAC over identity, and a signature over both. */
  predicate ProvesResponder(S: Suite, prk: Bytes, th: Bytes, p: Bytes) {
    && |p| == 4864 && p[2436..2444] == Kdf(S, prk, th + p[1121..1124], 8)
    && S.pqVerify(p[1124..2436], th + p[1121..1124] + p[2436..2444], p[2444..])
  }

  /** PT3 proves an initiator: identity, its next key, the MAC over both, the verification key and a signature. */
  predicate ProvesInitiator(S: Suite, prk: Bytes, th: Bytes, p: Bytes) {
    && |p| == 4959 && p[1219..1227] == Kdf(S, prk, th + p[..3] + p[3..1219], 8)
    && S.pqVerify(p[1227..2539], th + p[..3] + p[1219..1227], p[2539..])
  }

  /** What a responder and an initiator show of themselves. */
  predicate ShowsResponder(S: Suite, prk: Bytes, th: Bytes, self: Creds, ctA: Bytes, cR: byte, p: Bytes) {
    var mac := Kdf(S, prk, th + self.idCred, 8);
    var sig := S.pqSign(self.sigSk, th + self.idCred + mac);
    sig.Some? && p == ctA + [cR] + self.idCred + self.sigVk + mac + sig.value
  }

  predicate ShowsInitiator(S: Suite, prk: Bytes, th: Bytes, self: Creds, nextPk: Bytes, p: Bytes) {
    var mac := Kdf(S, prk, th + self.idCred + nextPk, 8);
    var sig := S.pqSign(self.sigSk, th + self.idCred + mac);
    sig.Some? && p == self.idCred + nextPk + mac + self.sigVk + sig.value
  }

  lemma BuildMeans(S: Suite, c: Ctx)
    ensures BuildPt2(S, c).Some? ==>
              ShowsResponder(S, c.ks.prk3e2m, c.th.th2, c.self, c.ctA, c.cR, BuildPt2(S, c).value)
    ensures BuildPt3(S, c).Some? ==> ShowsInitiator(S, c.ks.prk4e3m, c.th.th3, c.self, c.next.pk, BuildPt3(S, c).value)
  {
    MacIsKdf(S);
    hide Mac, Kdf;
    assert c.th.th2 + c.self.idCred + [] == c.th.th2 + c.self.idCred;
  }

  // ------------------------------------------------------------------ message_1

  /** message_1: an encapsulation to the responder's static key, the ephemeral key, and method and identifier encrypted under
      PRK1e. */
  lemma Message1Means(S: Suite, c: Ctx, key: Coins, enc: Coins, cap: nat) returns (b: Encapsulation, ct: Bytes)
    requires LawfulHash(S) && Sized(c) && MakeMsg1(S, c, key, enc, cap).rc == OK
    ensures var m := MakeMsg1(S, c, key, enc, cap);
            var d := m.ctx;
            && c.role == 1 && Keypair(S, key) == Some(d.eph) && Encaps(S, c.peer.kemPk, enc) == Some(b)
            && d.th.th1 == S.sha256(d.eph.pk + b.ct) && d.ks.prk1e == S.hmac(d.th.th1, b.ss) && d.ss.b == b.ss
            && Seals(S, d.ks.prk1e, d.th.th1, [0x04, c.cI], ct) && m.out == b.ct + d.eph.pk + ct
            && d.th.hMsg1 == S.sha256(m.out)
  {
    hide Keypair, Encaps, Seal, Seals;
    b := Encaps(S, c.peer.kemPk, enc).value;
    var th1 := S.sha256(Keypair(S, key).value.pk + b.ct);
    ct := Seal(S, S.hmac(th1, b.ss), th1, [0x04, c.cI]).value;
    SealMeans(S, S.hmac(th1, b.ss), th1, [0x04, c.cI], ct);
  }

  // ------------------------------------------------------------------ message_2

  /** What a responder that answers has computed from message_1: it opened the last part with the secret of the first, and it
      answers with an encapsulation to the ephemeral key and its proof, encrypted. */
  lemma Message2Means(S: Suite, c: Ctx, input: Bytes, encE: Coins, encA: Coins, cap: nat)
    returns (pt1: Bytes, e: Encapsulation, a: Encapsulation, pt2: Bytes, ct: Bytes)
    requires LawfulHash(S) && Sized(c) && HandleMsg1(S, c, input, encE, encA, cap).rc == OK
    ensures |input| >= 2354
    ensures var m := HandleMsg1(S, c, input, encE, encA, cap);
            var d := m.ctx;
            && c.role == 0 && d.eph.pk == input[1120..2336] && Decaps(S, input[..1120], c.self.kemSk) == Some(d.ss.b)
            && d.th.th1 == S.sha256(input[1120..2336] + input[..1120]) && d.ks.prk1e == S.hmac(d.th.th1, d.ss.b)
            && Opens(S, d.ks.prk1e, d.th.th1, input[2336..], pt1) && |pt1| >= 2 && pt1[0] == 0x04 && d.cI == pt1[1]
            && Encaps(S, input[1120..2336], encE) == Some(e) && Encaps(S, c.peer.kemPk, encA) == Some(a)
            && d.th.th2 == S.sha256(S.sha256(input) + e.ct + [c.cR]) && d.ks.prk2e == S.hmac(d.th.th2, e.ss)
            && d.ks.prk3e2m == S.hmac(d.ks.prk2e, d.ss.b) && d.ss.a == a.ss
            && ShowsResponder(S, d.ks.prk3e2m, d.th.th2, c.self, a.ct, c.cR, pt2)
            && d.th.th3 == S.sha256(d.th.th2 + pt2) && Seals(S, d.ks.prk2e, d.th.th2, pt2, ct) && m.out == e.ct + ct
  {
    var ssB := Decaps(S, input[..1120], c.self.kemSk).value;
    var th1 := S.sha256(input[1120..2336] + input[..1120]);
    var prk1e := S.hmac(th1, ssB);
    OpenIs(S, prk1e, th1, input[2336..]);
    pt1 := Open(S, prk1e, th1, input[2336..]).value;
    var c2 := c.(eph := c.eph.(pk := input[1120..2336]), ss := c.ss.(b := ssB), th := c.th.(th1 := th1),
                 ks := c.ks.(prk1e := prk1e), cI := pt1[1]);
    e, a, pt2, ct := AnswerMeans(S, c2, S.sha256(input), encE, encA, cap);
    hide Encaps, Decaps, EmitMsg2, ShowsResponder, Seals, Open, Opens;
  }

  /** The context when PT2 is built. */
  function Answering(S: Suite, c: Ctx, hMsg1: Bytes, e: Encapsulation, a: Encapsulation): Ctx {
    var th2 := S.sha256(hMsg1 + e.ct + [c.cR]);
    var prk2e := S.hmac(th2, e.ss);
    c.(ss := c.ss.(e := e.ss, a := a.ss), th := c.th.(th2 := th2), ctA := a.ct,
       ks := c.ks.(prk2e := prk2e, prk3e2m := S.hmac(prk2e, c.ss.b)))
  }

  lemma AnswerParts(S: Suite, c: Ctx, hMsg1: Bytes, encE: Coins, encA: Coins, cap: nat)
    returns (e: Encapsulation, a: Encapsulation, pt2: Bytes, ct: Bytes)
    requires Sized(c) && EmitMsg2(S, c, hMsg1, encE, encA, cap).rc == OK
    ensures Encaps(S, c.eph.pk, encE) == Some(e) && Encaps(S, c.peer.kemPk, encA) == Some(a)
    ensures var d := Answering(S, c, hMsg1, e, a);
            && BuildPt2(S, d) == Some(pt2) && Seal(S, d.ks.prk2e, d.th.th2, pt2) == Some(ct)
            && EmitMsg2(S, c, hMsg1, encE, encA, cap)
               == Result(d.(th := d.th.(th3 := S.sha256(d.th.th2 + pt2))), e.ct + ct, OK)
  {
    hide Encaps, BuildPt2, Seal;
    e, a := Encaps(S, c.eph.pk, encE).value, Encaps(S, c.peer.kemPk, encA).value;
    var d := Answering(S, c, hMsg1, e, a);
    pt2 := BuildPt2(S, d).value;
    ct := Seal(S, d.ks.prk2e, d.th.th2, pt2).value;
  }

  lemma AnswerMeans(S: Suite, c: Ctx, hMsg1: Bytes, encE: Coins, encA: Coins, cap: nat)
    returns (e: Encapsulation, a: Encapsulation, pt2: Bytes, ct: Bytes)
    requires LawfulHash(S) && Sized(c) && EmitMsg2(S, c, hMsg1, encE, encA, cap).rc == OK
    ensures var m := EmitMsg2(S, c, hMsg1, encE, encA, cap);
            var d := m.ctx;
            && d.eph == c.eph && d.ss.b == c.ss.b && d.th.th1 == c.th.th1 && d.ks.prk1e == c.ks.prk1e && d.cI == c.cI
            && Encaps(S, c.eph.pk, encE) == Some(e) && Encaps(S, c.peer.kemPk, encA) == Some(a)
            && d.th.th2 == S.sha256(hMsg1 + e.ct + [c.cR]) && d.ks.prk2e == S.hmac(d.th.th2, e.ss)
            && d.ks.prk3e2m == S.hmac(d.ks.prk2e, c.ss.b) && d.ss.a == a.ss
            && ShowsResponder(S, d.ks.prk3e2m, d.th.th2, c.self, a.ct, c.cR, pt2)
            && d.th.th3 == S.sha256(d.th.th2 + pt2) && Seals(S, d.ks.prk2e, d.th.th2, pt2, ct) && m.out == e.ct + ct
  {
    e, a, pt2, ct := AnswerParts(S, c, hMsg1, encE, encA, cap);
    var d := Answering(S, c, hMsg1, e, a);
    BuildMeans(S, d);
    SealMeans(S, d.ks.prk2e, d.th.th2, pt2, ct);
    hide Encaps, BuildPt2, ShowsResponder, Seal, Seals, EmitMsg2;
  }

  // ------------------------------------------------------------------ message_3

  /** The check of PT2 succeeds exactly when it proves the responder, and the code says what is wrong. */
  lemma CheckPt2Exactly(S: Suite, c: Ctx, p: Bytes)
    requires |p| == 4864 && c.peer.idCred == p[1121..1124] && c.peer.sigVk == p[1124..2436]
    ensures CheckPt2(S, c, p[2436..2444], p[2444..])
         == if ProvesResponder(S, c.ks.prk3e2m, c.th.th2, p) then OK
            else if p[2436..2444] == Kdf(S, c.ks.prk3e2m, c.th.th2 + p[1121..1124], 8) then ERR_SIG else ERR_MAC
  {
    MacIsKdf(S);
    hide Mac, Kdf;
    assert c.th.th2 + c.peer.idCred + [] == c.th.th2 + p[1121..1124];
  }

  /** Message_2 opens, under the secret decapsulated from its first part, to PT2. */
  ghost predicate OpensMessage2(S: Suite, c: Ctx, input: Bytes, ssE: Bytes, th2: Bytes, prk2e: Bytes, pt2: Bytes)
    requires Sized(c)
  {
    && c.role == 1 && |input| >= 1136 && Decaps(S, input[..1120], c.eph.sk) == Some(ssE)
    && th2 == S.sha256(c.th.hMsg1 + input[..1120] + [0x20]) && prk2e == S.hmac(th2, ssE)
    && Opens(S, prk2e, th2, input[1120..], pt2)
  }

  /** An initiator that goes on has authenticated the responder, and message_3 is its own proof, encrypted; the keys are those
      of the transcript. */
  lemma Message3Means(S: Suite, c: Ctx, input: Bytes, key: Coins, cap: nat) returns (pt2: Bytes, pt3: Bytes)
    requires LawfulHash(S) && Sized(c) && HandleMsg2(S, c, input, key, cap).rc == OK
    ensures var m := HandleMsg2(S, c, input, key, cap);
            var d := m.ctx;
            && OpensMessage2(S, c, input, d.ss.e, d.th.th2, d.ks.prk2e, pt2)
            && d.ks.prk3e2m == S.hmac(d.ks.prk2e, c.ss.b) && ProvesResponder(S, d.ks.prk3e2m, d.th.th2, pt2)
            && d.peer.idCred == pt2[1121..1124] && d.peer.sigVk == pt2[1124..2436] && d.cR == pt2[1120]
            && d.th.th3 == S.sha256(d.th.th2 + pt2) && Decaps(S, pt2[..1120], c.self.kemSk) == Some(d.ss.a)
            && d.ks.prk4e3m == S.hmac(d.ks.prk3e2m, d.ss.a) && Keypair(S, key) == Some(d.next)
            && ShowsInitiator(S, d.ks.prk4e3m, d.th.th3, c.self, d.next.pk, pt3)
            && d.th.th4 == S.sha256(d.th.th3 + pt3) && Seals(S, d.ks.prk3e2m, d.th.th3, pt3, m.out) && Exported(S, d)
            && !d.done
  {
    var ssE := Decaps(S, input[..1120], c.eph.sk).value;
    var th2 := S.sha256(c.th.hMsg1 + input[..1120] + [0x20]);
    var prk2e := S.hmac(th2, ssE);
    OpenIs(S, prk2e, th2, input[1120..]);
    pt2 := Open(S, prk2e, th2, input[1120..]).value;
    var c2 := c.(ss := c.ss.(e := ssE), th := c.th.(th2 := th2), ctA := pt2[..1120], cR := pt2[1120],
                 peer := c.peer.(idCred := pt2[1121..1124], sigVk := pt2[1124..2436]),
                 ks := c.ks.(prk2e := prk2e, prk3e2m := S.hmac(prk2e, c.ss.b)));
    CheckPt2Exactly(S, c2, pt2);
    pt3 := EmissionMeans(S, c2, pt2, key, cap);
    hide Decaps, Keypair, CheckPt2, EmitMsg3, ProvesResponder, ShowsInitiator, Seals, Open, Opens, Exported;
  }

  /** The context when PT3 is built. */
  function Proving(S: Suite, c: Ctx, pt2: Bytes, ssA: Bytes, k: KemPair): Ctx {
    c.(th := c.th.(th3 := S.sha256(c.th.th2 + pt2)), ss := c.ss.(a := ssA), next := k,
       ks := c.ks.(prk4e3m := S.hmac(c.ks.prk3e2m, ssA)))
  }

  lemma EmissionParts(S: Suite, c: Ctx, pt2: Bytes, key: Coins, cap: nat) returns (d: Ctx, pt3: Bytes)
    requires Sized(c) && |c.ctA| == 1120 && EmitMsg3(S, c, pt2, key, cap).rc == OK
    ensures exists ssA, k ::
              Decaps(S, c.ctA, c.self.kemSk) == Some(ssA) && Keypair(S, key) == Some(k) && d == Proving(S, c, pt2, ssA, k)
    ensures var m := EmitMsg3(S, c, pt2, key, cap);
            && BuildPt3(S, d) == Some(pt3) && Seal(S, c.ks.prk3e2m, d.th.th3, pt3) == Some(m.out)
            && m.ctx == DeriveMsk(S, d.(th := d.th.(th4 := S.sha256(d.th.th3 + pt3)))).(done := false)
  {
    hide Decaps, Keypair, BuildPt3, Seal, DeriveMsk;
    d := Proving(S, c, pt2, Decaps(S, c.ctA, c.self.kemSk).value, Keypair(S, key).value);
    pt3 := BuildPt3(S, d).value;
  }

  lemma EmissionMeans(S: Suite, c: Ctx, pt2: Bytes, key: Coins, cap: nat) returns (pt3: Bytes)
    requires LawfulHash(S) && Sized(c) && |c.ctA| == 1120 && EmitMsg3(S, c, pt2, key, cap).rc == OK
    ensures var m := EmitMsg3(S, c, pt2, key, cap);
            var d := m.ctx;
            && d.th.th2 == c.th.th2 && d.ks.prk2e == c.ks.prk2e && d.ks.prk3e2m == c.ks.prk3e2m && d.ss.e == c.ss.e
            && d.peer == c.peer && d.cR == c.cR
            && d.th.th3 == S.sha256(c.th.th2 + pt2) && Decaps(S, c.ctA, c.self.kemSk) == Some(d.ss.a)
            && d.ks.prk4e3m == S.hmac(c.ks.prk3e2m, d.ss.a) && Keypair(S, key) == Some(d.next)
            && ShowsInitiator(S, d.ks.prk4e3m, d.th.th3, c.self, d.next.pk, pt3)
            && d.th.th4 == S.sha256(d.th.th3 + pt3) && Seals(S, c.ks.prk3e2m, d.th.th3, pt3, m.out) && Exported(S, d)
            && !d.done
  {
    var d, pt3' := EmissionParts(S, c, pt2, key, cap);
    pt3 := pt3';
    BuildMeans(S, d);
    SealMeans(S, c.ks.prk3e2m, d.th.th3, pt3, EmitMsg3(S, c, pt2, key, cap).out);
    DerivedIsExported(S, d.(th := d.th.(th4 := S.sha256(d.th.th3 + pt3))));
    hide Decaps, Keypair, BuildPt3, ShowsInitiator, Seal, Seals, PrkOut, Expand, Ascii, EmitMsg3, Kdf;
  }

  /** A message_2 whose plaintext does not prove the responder is refused, with the code of the MAC or of the signature, and
      nothing is exported or sent. */
  lemma RefusedMessage2(S: Suite, c: Ctx, input: Bytes, key: Coins, cap: nat, ssE: Bytes, th2: Bytes, prk2e: Bytes, pt2: Bytes)
    requires LawfulHash(S) && Sized(c) && OpensMessage2(S, c, input, ssE, th2, prk2e, pt2) && |pt2| == 4864
    requires !ProvesResponder(S, S.hmac(prk2e, c.ss.b), th2, pt2)
    ensures var m := HandleMsg2(S, c, input, key, cap);
            && m.rc == (if pt2[2436..2444] == Kdf(S, S.hmac(prk2e, c.ss.b), th2 + pt2[1121..1124], 8) then ERR_SIG else ERR_MAC)
            && SameKeys(c, m.ctx) && m.out == []
  {
    OpenIs(S, prk2e, th2, input[1120..]);
    Msg2Outcome(S, c, input, key, cap);
    var c2 := c.(ss := c.ss.(e := ssE), th := c.th.(th2 := th2), ctA := pt2[..1120], cR := pt2[1120],
                 peer := c.peer.(idCred := pt2[1121..1124], sigVk := pt2[1124..2436]),
                 ks := c.ks.(prk2e := prk2e, prk3e2m := S.hmac(prk2e, c.ss.b)));
    CheckPt2Exactly(S, c2, pt2);
    hide Decaps, Keypair, CheckPt2, EmitMsg3, ProvesResponder, Open, Opens, Kdf;
  }

  // ------------------------------------------------------------------ message_4

  lemma CheckPt3Exactly(S: Suite, c: Ctx, p: Bytes)
    requires |p| == 4959 && c.peer.idCred == p[..3] && c.peer.newPk == p[3..1219] && c.peer.sigVk == p[1227..2539]
    ensures CheckPt3(S, c, p[1219..1227], p[2539..])
         == if ProvesInitiator(S, c.ks.prk4e3m, c.th.th3, p) then OK
            else if p[1219..1227] == Kdf(S, c.ks.prk4e3m, c.th.th3 + p[..3] + p[3..1219], 8) then ERR_SIG else ERR_MAC
  {
    MacIsKdf(S);
    hide Mac, Kdf;
  }

  /** Message_3 opens to PT3. */
  ghost predicate OpensMessage3(S: Suite, c: Ctx, input: Bytes, prk4: Bytes, pt3: Bytes) {
    c.role == 0 && Opens(S, c.ks.prk3e2m, c.th.th3, input, pt3) && prk4 == S.hmac(c.ks.prk3e2m, c.ss.a)
  }

  /** A responder whose initiator proved itself exports the keys of the transcript and is done, whatever comes after; if it
      answers, message_4 is its next key, encrypted. */
  lemma Message4Means(S: Suite, c: Ctx, input: Bytes, key: Coins, cap: nat, prk4: Bytes, pt3: Bytes)
    requires LawfulHash(S) && OpensMessage3(S, c, input, prk4, pt3) && ProvesInitiator(S, prk4, c.th.th3, pt3)
    ensures var m := HandleMsg3(S, c, input, key, cap);
            var d := m.ctx;
            && d.done && d.ks.prk4e3m == prk4 && d.th.th4 == S.sha256(c.th.th3 + pt3) && Exported(S, d)
            && d.peer.idCred == pt3[..3] && d.peer.newPk == pt3[3..1219] && d.peer.sigVk == pt3[1227..2539]
            && (m.rc == OK ==> Keypair(S, key) == Some(d.next) && Seals(S, prk4, d.th.th4, d.next.pk, m.out))
  {
    OpenIs(S, c.ks.prk3e2m, c.th.th3, input);
    var c2 := c.(ks := c.ks.(prk4e3m := prk4),
                 peer := c.peer.(idCred := pt3[..3], newPk := pt3[3..1219], sigVk := pt3[1227..2539]));
    CheckPt3Exactly(S, c2, pt3);
    AnswerMessage3(S, c2, pt3, key, cap);
    hide Keypair, CheckPt3, EmitMsg4, ProvesInitiator, Seals, Open, Opens, Exported;
  }

  lemma AnswerMessage3(S: Suite, c: Ctx, pt3: Bytes, key: Coins, cap: nat)
    requires LawfulHash(S)
    ensures var m := EmitMsg4(S, c, pt3, key, cap);
            var d := m.ctx;
            && d.done && d.ks.prk4e3m == c.ks.prk4e3m && d.th.th4 == S.sha256(c.th.th3 + pt3) && Exported(S, d)
            && d.peer == c.peer
            && (m.rc == OK ==> Keypair(S, key) == Some(d.next) && Seals(S, c.ks.prk4e3m, d.th.th4, d.next.pk, m.out))
  {
    var th4 := S.sha256(c.th.th3 + pt3);
    DerivedIsExported(S, c.(th := c.th.(th4 := th4)));
    hide Keypair, Seal, Seals, PrkOut, Expand, Ascii, Kdf;
    var k := Keypair(S, key);
    if k.Some? {
      var s := Seal(S, c.ks.prk4e3m, th4, k.value.pk);
      if s.Some? { SealMeans(S, c.ks.prk4e3m, th4, k.value.pk, s.value); }
    }
  }

  /** Conversely, a responder that returns OK has opened a message_3 that proves its initiator. */
  lemma Message3Accepted(S: Suite, c: Ctx, input: Bytes, key: Coins, cap: nat) returns (pt3: Bytes)
    requires LawfulHash(S) && HandleMsg3(S, c, input, key, cap).rc == OK
    ensures var prk4 := S.hmac(c.ks.prk3e2m, c.ss.a);
            OpensMessage3(S, c, input, prk4, pt3) && ProvesInitiator(S, prk4, c.th.th3, pt3)
  {
    OpenIs(S, c.ks.prk3e2m, c.th.th3, input);
    pt3 := Open(S, c.ks.prk3e2m, c.th.th3, input).value;
    var c2 := c.(ks := c.ks.(prk4e3m := S.hmac(c.ks.prk3e2m, c.ss.a)),
                 peer := c.peer.(idCred := pt3[..3], newPk := pt3[3..1219], sigVk := pt3[1227..2539]));
    CheckPt3Exactly(S, c2, pt3);
    hide CheckPt3, EmitMsg4, ProvesInitiator, Open, Opens;
  }

  /** A message_3 of the right length whose MAC or signature is wrong gives that code; nothing is exported or sent. */
  lemma RefusedMessage3(S: Suite, c: Ctx, input: Bytes, key: Coins, cap: nat, prk4: Bytes, pt3: Bytes)
    requires LawfulHash(S) && OpensMessage3(S, c, input, prk4, pt3) && |pt3| == 4959
    requires !ProvesInitiator(S, prk4, c.th.th3, pt3)
    ensures var m := HandleMsg3(S, c, input, key, cap);
            && m.rc == (if pt3[1219..1227] == Kdf(S, prk4, c.th.th3 + pt3[..3] + pt3[3..1219], 8) then ERR_SIG else ERR_MAC)
            && SameKeys(c, m.ctx) && m.out == []
  {
    OpenIs(S, c.ks.prk3e2m, c.th.th3, input);
    var c2 := c.(ks := c.ks.(prk4e3m := prk4),
                 peer := c.peer.(idCred := pt3[..3], newPk := pt3[3..1219], sigVk := pt3[1227..2539]));
    CheckPt3Exactly(S, c2, pt3);
    hide CheckPt3, EmitMsg4, ProvesInitiator, Open, Opens, Kdf;
  }

  /** Message_4 is taken if and only if it opens, under PRK4e3m and TH4, to a key of 1216 octets, which is the responder's
      next one. */
  lemma Message4Accepted(S: Suite, c: Ctx, input: Bytes)
    requires LawfulHash(S)
    ensures var m := HandleMsg4(S, c, input);
            && (m.rc == OK <==> c.role == 1 && exists pk :: Opens(S, c.ks.prk4e3m, c.th.th4, input, pk) && |pk| == 1216)
            && (m.rc == OK ==> m.ctx.done && Opens(S, c.ks.prk4e3m, c.th.th4, input, m.ctx.peer.newPk))
  {
    OpenIs(S, c.ks.prk4e3m, c.th.th4, input);
    hide Open, Opens;
  }

  /** Fresh contexts: connection identifiers 0x10 and 0x20. */
  lemma FreshContexts(self: Creds, peerPk: Bytes)
    ensures var i, r := InitInitiator(self, peerPk), InitResponder(self, peerPk);
            && i.role == 1 && r.role == 0 && i.cI == 0x10 && r.cR == 0x20 && !i.done && !r.done
            && i.self == self == r.self && i.peer.kemPk == peerPk == r.peer.kemPk
  {
  }

  /** Authentic3 says just that. */
  lemma AuthenticExactly(S: Suite, c: Ctx, input: Bytes)
    requires LawfulHash(S)
    ensures Authentic3(S, c, input)
            <==> exists pt3 ::
                   Opens(S, c.ks.prk3e2m, c.th.th3, input, pt3) && ProvesInitiator(S, S.hmac(c.ks.prk3e2m, c.ss.a), c.th.th3, pt3)
  {
    OpenIs(S, c.ks.prk3e2m, c.th.th3, input);
    var o := Open(S, c.ks.prk3e2m, c.th.th3, input);
    if o.Some? && |o.value| == 4959 {
      var pt3 := o.value;
      CheckPt3Exactly(S, c.(ks := c.ks.(prk4e3m := S.hmac(c.ks.prk3e2m, c.ss.a)),
                            peer := c.peer.(idCred := pt3[..3], newPk := pt3[3..1219], sigVk := pt3[1227..2539])), pt3);
    }
    assert forall p | ProvesInitiator(S, S.hmac(c.ks.prk3e2m, c.ss.a), c.th.th3, p) :: |p| == 4959;
    hide CheckPt3, ProvesInitiator, Open, Opens;
  }

  // ------------------------------------------------------------------ what is refused before a plaintext is seen

  /** The codes of a handler that does not get as far as a plaintext: wrong role (-8), too short (-3), failed decapsulation
      (-4), nothing that opens (-5); and of one whose plaintext has the wrong length (-3). */
  lemma EarlyRefusals(S: Suite, c: Ctx, input: Bytes, x: Coins, y: Coins, cap: nat)
    requires LawfulHash(S) && Sized(c)
    ensures var rc := HandleMsg1(S, c, input, x, y, cap).rc;
            if c.role != 0 then rc == -8 else if |input| < 2354 then rc == -3
            else Decaps(S, input[..1120], c.self.kemSk).None? ==> rc == -4
    ensures var rc := HandleMsg2(S, c, input, x, cap).rc;
            if c.role != 1 then rc == -8 else if |input| < 1136 then rc == -3
            else Decaps(S, input[..1120], c.eph.sk).None? ==> rc == -4
    ensures var rc := HandleMsg3(S, c, input, x, cap).rc;
            c.role != 0 ==> rc == -8
    ensures var rc := HandleMsg4(S, c, input).rc;
            c.role != 1 ==> rc == -8
  {
    hide Decaps, EmitMsg2, EmitMsg3, EmitMsg4, CheckPt2, CheckPt3, Open, Th1, Th2, Extract;
  }

  lemma NothingOpens(S: Suite, c: Ctx, input: Bytes, x: Coins, cap: nat)
    requires LawfulHash(S)
    ensures c.role == 0 && (forall pt :: !Opens(S, c.ks.prk3e2m, c.th.th3, input, pt)) ==> HandleMsg3(S, c, input, x, cap).rc == -5
    ensures c.role == 1 && (forall pt :: !Opens(S, c.ks.prk4e3m, c.th.th4, input, pt)) ==> HandleMsg4(S, c, input).rc == -5
    ensures forall pt | c.role == 0 && Opens(S, c.ks.prk3e2m, c.th.th3, input, pt) && |pt| != 4959 ::
              HandleMsg3(S, c, input, x, cap).rc == -3
    ensures forall pt | c.role == 1 && Opens(S, c.ks.prk4e3m, c.th.th4, input, pt) && |pt| != 1216 ::
              HandleMsg4(S, c, input).rc == -3
  {
    hide EmitMsg4, CheckPt3, Open, Opens, Extract;
    OpenIs(S, c.ks.prk3e2m, c.th.th3, input);
    OpenIs(S, c.ks.prk4e3m, c.th.th4, input);
  }

  lemma NothingOpens2(S: Suite, c: Ctx, input: Bytes, x: Coins, cap: nat, ssE: Bytes)
    requires LawfulHash(S) && Sized(c) && c.role == 1 && |input| >= 1136 && Decaps(S, input[..1120], c.eph.sk) == Some(ssE)
    ensures var th2 := S.sha256(c.th.hMsg1 + input[..1120] + [0x20]);
            var prk2e := S.hmac(th2, ssE);
            var rc := HandleMsg2(S, c, input, x, cap).rc;
            && ((forall pt :: !Opens(S, prk2e, th2, input[1120..], pt)) ==> rc == -5)
            && forall pt | Opens(S, prk2e, th2, input[1120..], pt) && |pt| != 4864 :: rc == -3
  {
    hide Decaps, EmitMsg3, CheckPt2, Open, Opens;
    var th2 := S.sha256(c.th.hMsg1 + input[..1120] + [0x20]);
    OpenIs(S, S.hmac(th2, ssE), th2, input[1120..]);
  }

  // ------------------------------------------------------------------ output buffers

  /** What a smaller output buffer changes: the result is the same if the message fits, and -2 without output if not. */
  predicate CutBy(m: Result, cap: nat, less: Result) {
    if m.rc != OK then less.rc == m.rc || less.rc == -2
    else if |m.out| <= cap then less == m
    else less.rc == -2 && less.out == []
  }

  lemma BufferLimits1(S: Suite, c: Ctx, x: Coins, y: Coins, cap: nat, more: nat)
    requires Lawful(S) && Sized(c) && |x.x| == X_LEN && cap <= more
    ensures CutBy(MakeMsg1(S, c, x, y, more), cap, MakeMsg1(S, c, x, y, cap))
  {
    hide Seal, Th1, Extract, Lawful, Keypair, Encaps;
    var k, b := Keypair(S, x), Encaps(S, c.peer.kemPk, y);
    if k.Some? { KeypairSized(S, c, x); }
    if b.Some? { EncapsLengths(S, c.peer.kemPk, y); }
  }

  lemma BufferLimits2(S: Suite, c: Ctx, input: Bytes, x: Coins, y: Coins, cap: nat, more: nat)
    requires Lawful(S) && Sized(c) && cap <= more
    ensures CutBy(HandleMsg1(S, c, input, x, y, more), cap, HandleMsg1(S, c, input, x, y, cap))
  {
    hide EmitMsg2, Open, Th1, Extract, Lawful, Decaps;
    forall d: Ctx, h | Sized(d) ensures CutBy(EmitMsg2(S, d, h, x, y, more), cap, EmitMsg2(S, d, h, x, y, cap)) {
      AnswerLimit(S, d, h, x, y, cap, more);
    }
  }

  lemma AnswerLimit(S: Suite, c: Ctx, hMsg1: Bytes, x: Coins, y: Coins, cap: nat, more: nat)
    requires Lawful(S) && Sized(c) && cap <= more
    ensures CutBy(EmitMsg2(S, c, hMsg1, x, y, more), cap, EmitMsg2(S, c, hMsg1, x, y, cap))
  {
    hide Seal, Th2, ThNext, Extract, BuildPt2, Lawful, Encaps;
    if Encaps(S, c.eph.pk, x).Some? { EncapsLengths(S, c.eph.pk, x); }
  }

  lemma BufferLimits3(S: Suite, c: Ctx, input: Bytes, x: Coins, cap: nat, more: nat)
    requires Sized(c) && cap <= more
    ensures CutBy(HandleMsg2(S, c, input, x, more), cap, HandleMsg2(S, c, input, x, cap))
  {
    hide EmitMsg3, Open, Th2, Extract, CheckPt2, Decaps;
    forall d: Ctx, p | Sized(d) && |d.ctA| == XCT ensures CutBy(EmitMsg3(S, d, p, x, more), cap, EmitMsg3(S, d, p, x, cap)) {
      EmissionLimit(S, d, p, x, cap, more);
    }
  }

  lemma EmissionLimit(S: Suite, c: Ctx, pt2: Bytes, x: Coins, cap: nat, more: nat)
    requires Sized(c) && |c.ctA| == XCT && cap <= more
    ensures CutBy(EmitMsg3(S, c, pt2, x, more), cap, EmitMsg3(S, c, pt2, x, cap))
  {
    hide Seal, ThNext, BuildPt3, DeriveMsk, Keypair, Decaps, Extract;
  }

  lemma BufferLimits4(S: Suite, c: Ctx, input: Bytes, x: Coins, cap: nat, more: nat)
    requires cap <= more
    ensures var m, less := HandleMsg3(S, c, input, x, more), HandleMsg3(S, c, input, x, cap);
            less.ctx == m.ctx && CutBy(m, cap, less)
  {
    hide Open, Extract, CheckPt3, Seal, ThNext, DeriveMsk, Keypair;
  }
}
