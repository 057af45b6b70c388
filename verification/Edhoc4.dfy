/** The EAP-EDHOC core of method 4 (SIGMA, XWING): handlers as functions on context values.
    Edhoc4Context.dfy proves the imperative handlers against them; Edhoc4Runs.dfy proves agreement. */
module Edhoc4 {
  import opened Primitives
  import opened Hkdf
  import opened XWing

  const OK := 0
  const ERR_BUF := -2
  const ERR_PARSE := -3
  const ERR_KEM := -4
  const ERR_AEAD := -5
  const ERR_MAC := -6
  const ERR_SIG := -7
  const ERR_STATE := -8

  const ID_LEN: nat := 3
  const MAC_LEN: nat := 8
  const KEY_LEN: nat := 32
  const NONCE_LEN: nat := 12
  const MSG1_MIN: nat := 2354
  const PT2_LEN: nat := 4864
  const PT3_LEN: nat := 4959

  datatype Creds = Creds(kemSk: Bytes, kemPk: Bytes, sigSk: Bytes, sigVk: Bytes, idCred: Bytes)

  datatype Secrets = Secrets(b: Bytes, e: Bytes, a: Bytes)

  datatype Hashes = Hashes(th1: Bytes, th2: Bytes, th3: Bytes, th4: Bytes, hMsg1: Bytes)

  datatype Keys = Keys(prk1e: Bytes, prk2e: Bytes, prk3e2m: Bytes, prk4e3m: Bytes, prkOut: Bytes, msk: Bytes, emsk: Bytes)

  datatype Peer = Peer(kemPk: Bytes, sigVk: Bytes, idCred: Bytes, newPk: Bytes)

  /** The C struct, with its fields grouped: `eph` and `next` are key pairs, `ctA` is saved for message_3. */
  datatype Ctx = Ctx(role: int, self: Creds, peer: Peer, cI: byte, cR: byte, eph: KemPair, ss: Secrets, th: Hashes,
                     ks: Keys, next: KemPair, ctA: Bytes, done: bool)

  datatype Result = Result(ctx: Ctx, out: Bytes, rc: int)

  ghost predicate WellFormed(S: Suite, c: Creds) {
    && IsPair(S, c.kemPk, c.kemSk) && |c.kemPk| == XPK && |c.kemSk| == XSK
    && |c.sigVk| == MLDSA_PK && |c.idCred| == ID_LEN && PqPair(S, c.sigVk, c.sigSk)
  }

  // ------------------------------------------------------------------ key schedule and layouts

  function KeyInfo(th: Bytes): Bytes { th + Ascii("E4KEY") }

  function AeadKey(S: Suite, prk: Bytes, th: Bytes): Bytes {
    Take(Expand(S, prk, KeyInfo(th), KEY_LEN + NONCE_LEN), KEY_LEN)
  }

  function AeadNonce(S: Suite, prk: Bytes, th: Bytes): Bytes {
    var okm := Expand(S, prk, KeyInfo(th), KEY_LEN + NONCE_LEN);
    if KEY_LEN <= |okm| then okm[KEY_LEN..] else []
  }

  function Seal(S: Suite, prk: Bytes, th: Bytes, pt: Bytes): Option<Bytes> {
    S.seal(AeadKey(S, prk, th), AeadNonce(S, prk, th), th, pt)
  }

  function Open(S: Suite, prk: Bytes, th: Bytes, ct: Bytes): Option<Bytes> {
    S.open(AeadKey(S, prk, th), AeadNonce(S, prk, th), th, ct)
  }

  function MacInfo(th: Bytes, id: Bytes, ead: Bytes): Bytes { th + id + ead }

  function Mac(S: Suite, prk: Bytes, th: Bytes, id: Bytes, ead: Bytes): Bytes {
    Expand(S, prk, MacInfo(th, id, ead), MAC_LEN)
  }

  function SigMessage(th: Bytes, id: Bytes, mac: Bytes): Bytes { th + id + mac }

  function Th1(S: Suite, pkX: Bytes, ctB: Bytes): Bytes { S.sha256(pkX + ctB) }

  function Th2(S: Suite, hMsg1: Bytes, cte: Bytes, cR: byte): Bytes { S.sha256(hMsg1 + cte + [cR]) }

  function ThNext(S: Suite, th: Bytes, pt: Bytes): Bytes { S.sha256(th + pt) }

  function PrkOut(S: Suite, c: Ctx): Bytes { Expand(S, c.ks.prk4e3m, c.th.th4, 32) }

  function DeriveMsk(S: Suite, c: Ctx): Ctx {
    c.(ks := c.ks.(prkOut := PrkOut(S, c),
                   msk := Expand(S, PrkOut(S, c), Ascii("EDHOC-EAP-MSK"), 64),
                   emsk := Expand(S, PrkOut(S, c), Ascii("EDHOC-EAP-EMSK"), 64)),
       done := true)
  }

  function Pt2(ctA: Bytes, cR: byte, id: Bytes, vk: Bytes, mac: Bytes, sig: Bytes): Bytes {
    ctA + [cR] + id + vk + mac + sig
  }

  function Pt3(id: Bytes, newPk: Bytes, mac: Bytes, vk: Bytes, sig: Bytes): Bytes {
    id + newPk + mac + vk + sig
  }

  lemma {:induction false} Pt2Layout(ctA: Bytes, cR: byte, id: Bytes, vk: Bytes, mac: Bytes, sig: Bytes)
    requires |ctA| == XCT && |id| == ID_LEN && |vk| == MLDSA_PK && |mac| == MAC_LEN && |sig| == MLDSA_SIG
    ensures var pt := Pt2(ctA, cR, id, vk, mac, sig);
            && |pt| == PT2_LEN && pt[..1120] == ctA && pt[1120] == cR && pt[1121..1124] == id
            && pt[1124..2436] == vk && pt[2436..2444] == mac && pt[2444..] == sig
  {
  }

  lemma {:induction false} Pt3Layout(id: Bytes, newPk: Bytes, mac: Bytes, vk: Bytes, sig: Bytes)
    requires |newPk| == XPK && |id| == ID_LEN && |vk| == MLDSA_PK && |mac| == MAC_LEN && |sig| == MLDSA_SIG
    ensures var pt := Pt3(id, newPk, mac, vk, sig);
            && |pt| == PT3_LEN && pt[..3] == id && pt[3..1219] == newPk && pt[1219..1227] == mac
            && pt[1227..2539] == vk && pt[2539..] == sig
  {
  }

  // ------------------------------------------------------------------ contexts and handlers

  function Blank(role: int, self: Creds, peerPk: Bytes, cI: byte, cR: byte): Ctx {
    Ctx(role, self, Peer(peerPk, Zeros(1312), Zeros(3), Zeros(1216)), cI, cR, KemPair(Zeros(1216), Zeros(2432)),
        Secrets(Zeros(32), Zeros(32), Zeros(32)), Hashes(Zeros(32), Zeros(32), Zeros(32), Zeros(32), Zeros(32)),
        Keys(Zeros(32), Zeros(32), Zeros(32), Zeros(32), Zeros(32), Zeros(64), Zeros(64)),
        KemPair(Zeros(1216), Zeros(2432)), Zeros(1120), false)
  }

  function InitInitiator(self: Creds, peerPk: Bytes): Ctx { Blank(1, self, peerPk, 0x10, 0) }

  function InitResponder(self: Creds, peerPk: Bytes): Ctx { Blank(0, self, peerPk, 0, 0x20) }

  /** The fixed-size arrays of the struct that the handlers slice. */
  predicate Sized(c: Ctx) {
    |c.self.kemSk| == XSK && |c.peer.kemPk| == XPK && |c.eph.sk| == XSK && |c.eph.pk| == XPK
  }

  function MakeMsg1(S: Suite, c: Ctx, key: Coins, enc: Coins, cap: nat): Result
    requires Sized(c)
  {
    if c.role != 1 then Result(c, [], ERR_STATE)
    else match Keypair(S, key)
    case None => Result(c, [], ERR_KEM)
    case Some(eph) =>
      var c1 := c.(eph := eph);
      match Encaps(S, c.peer.kemPk, enc)
      case None => Result(c1, [], ERR_KEM)
      case Some(b) =>
        var th1 := Th1(S, eph.pk, b.ct);
        var prk1e := Extract(S, th1, b.ss);
        var c2 := c1.(ss := c.ss.(b := b.ss), th := c.th.(th1 := th1), ks := c.ks.(prk1e := prk1e));
        match Seal(S, prk1e, th1, [0x04, c.cI])
        case None => Result(c2, [], ERR_AEAD)
        case Some(ct1) =>
          if XCT + XPK + |ct1| > cap then Result(c2, [], ERR_BUF)
          else
            var out := b.ct + eph.pk + ct1;
            Result(c2.(th := c2.th.(hMsg1 := S.sha256(out))), out, OK)
  }

  /** PT2 with its MAC and signature, as the responder builds it. */
  function BuildPt2(S: Suite, c: Ctx): Option<Bytes> {
    var mac := Mac(S, c.ks.prk3e2m, c.th.th2, c.self.idCred, []);
    match S.pqSign(c.self.sigSk, SigMessage(c.th.th2, c.self.idCred, mac))
    case None => None
    case Some(sig) =>
      if |sig| != MLDSA_SIG then None else Some(Pt2(c.ctA, c.cR, c.self.idCred, c.self.sigVk, mac, sig))
  }

  /** The second half of message_1 handling: both encapsulations, TH2, the PRKs, PT2 and message_2. */
  function EmitMsg2(S: Suite, c: Ctx, hMsg1: Bytes, encE: Coins, encA: Coins, cap: nat): Result
    requires Sized(c)
  {
    match Encaps(S, c.eph.pk, encE)
    case None => Result(c, [], ERR_KEM)
    case Some(e) =>
      var th2 := Th2(S, hMsg1, e.ct, c.cR);
      var prk2e := Extract(S, th2, e.ss);
      var c1 := c.(ss := c.ss.(e := e.ss), th := c.th.(th2 := th2), ks := c.ks.(prk2e := prk2e));
      match Encaps(S, c.peer.kemPk, encA)
      case None => Result(c1, [], ERR_KEM)
      case Some(a) =>
        var c2 := c1.(ss := c1.ss.(a := a.ss), ctA := a.ct,
                      ks := c1.ks.(prk3e2m := Extract(S, prk2e, c.ss.b)));
        match BuildPt2(S, c2)
        case None => Result(c2, [], ERR_SIG)
        case Some(pt2) =>
          var c3 := c2.(th := c2.th.(th3 := ThNext(S, th2, pt2)));
          match Seal(S, prk2e, th2, pt2)
          case None => Result(c3, [], ERR_AEAD)
          case Some(ct) => if XCT + |ct| > cap then Result(c3, [], ERR_BUF) else Result(c3, e.ct + ct, OK)
  }

  function HandleMsg1(S: Suite, c: Ctx, input: Bytes, encE: Coins, encA: Coins, cap: nat): Result
    requires Sized(c)
  {
    if c.role != 0 then Result(c, [], ERR_STATE)
    else if |input| < MSG1_MIN then Result(c, [], ERR_PARSE)
    else
      var ctB, pkX, ct1 := input[..1120], input[1120..2336], input[2336..];
      var c1 := c.(eph := c.eph.(pk := pkX));
      match Decaps(S, ctB, c.self.kemSk)
      case None => Result(c1, [], ERR_KEM)
      case Some(ssB) =>
        var th1 := Th1(S, pkX, ctB);
        var prk1e := Extract(S, th1, ssB);
        var c2 := c1.(ss := c.ss.(b := ssB), th := c.th.(th1 := th1), ks := c.ks.(prk1e := prk1e));
        match Open(S, prk1e, th1, ct1)
        case None => Result(c2, [], ERR_AEAD)
        case Some(pt1) =>
          if |pt1| < 2 || pt1[0] != 0x04 then Result(c2, [], ERR_PARSE)
          else EmitMsg2(S, c2.(cI := pt1[1]), S.sha256(input), encE, encA, cap)
  }

  /** The check of PT2, in the source's order: MAC, then signature. */
  function CheckPt2(S: Suite, c: Ctx, mac: Bytes, sig: Bytes): int {
    var mac' := Mac(S, c.ks.prk3e2m, c.th.th2, c.peer.idCred, []);
    if mac' != mac then ERR_MAC
    else if S.pqVerify(c.peer.sigVk, SigMessage(c.th.th2, c.peer.idCred, mac'), sig) then OK else ERR_SIG
  }

  function BuildPt3(S: Suite, c: Ctx): Option<Bytes> {
    var mac := Mac(S, c.ks.prk4e3m, c.th.th3, c.self.idCred, c.next.pk);
    match S.pqSign(c.self.sigSk, SigMessage(c.th.th3, c.self.idCred, mac))
    case None => None
    case Some(sig) =>
      if |sig| != MLDSA_SIG then None else Some(Pt3(c.self.idCred, c.next.pk, mac, c.self.sigVk, sig))
  }

  /** The second half of message_2 handling: TH3, PRK4e3m, the next static key pair, PT3, TH4, message_3, the keys. */
  function EmitMsg3(S: Suite, c: Ctx, pt2: Bytes, key: Coins, cap: nat): Result
    requires Sized(c) && |c.ctA| == XCT
  {
    var c1 := c.(th := c.th.(th3 := ThNext(S, c.th.th2, pt2)));
    match Decaps(S, c.ctA, c.self.kemSk)
    case None => Result(c1, [], ERR_KEM)
    case Some(ssA) =>
      var c2 := c1.(ss := c.ss.(a := ssA), ks := c.ks.(prk4e3m := Extract(S, c.ks.prk3e2m, ssA)));
      match Keypair(S, key)
      case None => Result(c2, [], ERR_KEM)
      case Some(k) =>
        var c3 := c2.(next := k);
        match BuildPt3(S, c3)
        case None => Result(c3, [], ERR_SIG)
        case Some(pt3) =>
          var c4 := c3.(th := c3.th.(th4 := ThNext(S, c3.th.th3, pt3)));
          match Seal(S, c.ks.prk3e2m, c1.th.th3, pt3)
          case None => Result(c4, [], ERR_AEAD)
          case Some(ct) =>
            if |ct| > cap then Result(c4, [], ERR_BUF) else Result(DeriveMsk(S, c4).(done := false), ct, OK)
  }

  function HandleMsg2(S: Suite, c: Ctx, input: Bytes, key: Coins, cap: nat): Result
    requires Sized(c)
  {
    if c.role != 1 then Result(c, [], ERR_STATE)
    else if |input| < XCT + TAG_LEN then Result(c, [], ERR_PARSE)
    else
      var cte := input[..1120];
      match Decaps(S, cte, c.eph.sk)
      case None => Result(c, [], ERR_KEM)
      case Some(ssE) =>
        var th2 := Th2(S, c.th.hMsg1, cte, 0x20);
        var prk2e := Extract(S, th2, ssE);
        var c1 := c.(cR := 0x20, ss := c.ss.(e := ssE), th := c.th.(th2 := th2), ks := c.ks.(prk2e := prk2e));
        match Open(S, prk2e, th2, input[1120..])
        case None => Result(c1, [], ERR_AEAD)
        case Some(pt2) =>
          if |pt2| != PT2_LEN then Result(c1, [], ERR_PARSE)
          else
            var c2 := c1.(ctA := pt2[..1120], cR := pt2[1120],
                          peer := c.peer.(idCred := pt2[1121..1124], sigVk := pt2[1124..2436]),
                          ks := c1.ks.(prk3e2m := Extract(S, prk2e, c.ss.b)));
            var code := CheckPt2(S, c2, pt2[2436..2444], pt2[2444..]);
            if code != OK then Result(c2, [], code) else EmitMsg3(S, c2, pt2, key, cap)
  }

  function CheckPt3(S: Suite, c: Ctx, mac: Bytes, sig: Bytes): int {
    var mac' := Mac(S, c.ks.prk4e3m, c.th.th3, c.peer.idCred, c.peer.newPk);
    if mac' != mac then ERR_MAC
    else if S.pqVerify(c.peer.sigVk, SigMessage(c.th.th3, c.peer.idCred, mac'), sig) then OK else ERR_SIG
  }

  /** The second half of message_3 handling.  The keys are exported, and `done` set, before message_4 is built. */
  function EmitMsg4(S: Suite, c: Ctx, pt3: Bytes, key: Coins, cap: nat): Result {
    var c1 := DeriveMsk(S, c.(th := c.th.(th4 := ThNext(S, c.th.th3, pt3))));
    match Keypair(S, key)
    case None => Result(c1, [], ERR_KEM)
    case Some(k) =>
      var c2 := c1.(next := k);
      match Seal(S, c.ks.prk4e3m, c1.th.th4, k.pk)
      case None => Result(c2, [], ERR_AEAD)
      case Some(ct) => if |ct| > cap then Result(c2, [], ERR_BUF) else Result(c2, ct, OK)
  }

  function HandleMsg3(S: Suite, c: Ctx, input: Bytes, key: Coins, cap: nat): Result {
    if c.role != 0 then Result(c, [], ERR_STATE)
    else
      var c1 := c.(ks := c.ks.(prk4e3m := Extract(S, c.ks.prk3e2m, c.ss.a)));
      match Open(S, c.ks.prk3e2m, c.th.th3, input)
      case None => Result(c1, [], ERR_AEAD)
      case Some(pt3) =>
        if |pt3| != PT3_LEN then Result(c1, [], ERR_PARSE)
        else
          var c2 := c1.(peer := c.peer.(idCred := pt3[..3], newPk := pt3[3..1219], sigVk := pt3[1227..2539]));
          var code := CheckPt3(S, c2, pt3[1219..1227], pt3[2539..]);
          if code != OK then Result(c2, [], code) else EmitMsg4(S, c2, pt3, key, cap)
  }

  function HandleMsg4(S: Suite, c: Ctx, input: Bytes): Result {
    if c.role != 1 then Result(c, [], ERR_STATE)
    else
      match Open(S, c.ks.prk4e3m, c.th.th4, input)
      case None => Result(c, [], ERR_AEAD)
      case Some(pt4) =>
        if |pt4| != XPK then Result(c, [], ERR_PARSE)
        else Result(c.(peer := c.peer.(newPk := pt4), done := true), [], OK)
  }

  // ------------------------------------------------------------------ the local plaintext buffers

  /** The sizes of pt1 to pt4.  A handler decrypts into its buffer before it looks at the length. */
  const PT1_CAP: nat := 64
  const PT2_CAP: nat := 4880
  const PT3_CAP: nat := 4975
  const PT4_CAP: nat := 1232

  /** How many bytes each handler decrypts; none when it fails before. */
  function Msg1Fill(S: Suite, c: Ctx, input: Bytes): nat
    requires Sized(c)
  {
    if c.role != 0 || |input| < MSG1_MIN || Decaps(S, input[..1120], c.self.kemSk).None? then 0 else Decrypted(input[2336..])
  }

  function Msg2Fill(S: Suite, c: Ctx, input: Bytes): nat
    requires Sized(c)
  {
    if c.role != 1 || |input| < XCT + TAG_LEN || Decaps(S, input[..1120], c.eph.sk).None? then 0 else Decrypted(input[1120..])
  }

  function Msg3Fill(c: Ctx, input: Bytes): nat { if c.role != 0 then 0 else Decrypted(input) }

  function Msg4Fill(c: Ctx, input: Bytes): nat { if c.role != 1 then 0 else Decrypted(input) }

  /** A message that reaches the decryption stays within the buffer exactly up to these lengths. */
  lemma {:induction false} FitsExactly(S: Suite, c: Ctx, input: Bytes)
    requires Sized(c)
    ensures c.role == 0 && |input| >= MSG1_MIN && Decaps(S, input[..1120], c.self.kemSk).Some? ==>
              (Msg1Fill(S, c, input) <= PT1_CAP <==> |input| <= 2416)
    ensures c.role == 1 && |input| >= XCT + TAG_LEN && Decaps(S, input[..1120], c.eph.sk).Some? ==>
              (Msg2Fill(S, c, input) <= PT2_CAP <==> |input| <= 6016)
    ensures |input| <= 2416 ==> Msg1Fill(S, c, input) <= PT1_CAP
    ensures |input| <= 6016 ==> Msg2Fill(S, c, input) <= PT2_CAP
  {
    hide Decaps;
  }

  lemma {:induction false} LaterFitsExactly(c: Ctx, input: Bytes)
    ensures c.role == 0 ==> (Msg3Fill(c, input) <= PT3_CAP <==> |input| <= 4991)
    ensures c.role == 1 ==> (Msg4Fill(c, input) <= PT4_CAP <==> |input| <= 1248)
    ensures |input| <= 4991 ==> Msg3Fill(c, input) <= PT3_CAP
    ensures |input| <= 1248 ==> Msg4Fill(c, input) <= PT4_CAP
  {
  }

  /** What is opened is what was written. */
  lemma OpenedLength(S: Suite, prk: Bytes, th: Bytes, ct: Bytes)
    requires LawfulAead(S) && Open(S, prk, th, ct).Some?
    ensures |Open(S, prk, th, ct).value| == Decrypted(ct)
  {
    hide AeadKey, AeadNonce;
  }

  // ------------------------------------------------------------------ what a call leaves untouched

  /** No handler changes who a context belongs to. */
  predicate SameParty(c: Ctx, d: Ctx) { c.role == d.role && c.self == d.self && c.peer.kemPk == d.peer.kemPk }

  /** The exported keys, and whether there are any. */
  predicate SameKeys(c: Ctx, d: Ctx) {
    c.ks.prkOut == d.ks.prkOut && c.ks.msk == d.ks.msk && c.ks.emsk == d.ks.emsk && c.done == d.done
  }

  /** A call that fails emits nothing; `keeps` says that it leaves the exported keys alone. */
  predicate Outcome(c: Ctx, m: Result, keeps: bool) {
    SameParty(c, m.ctx) && (m.rc != OK ==> m.out == []) && (keeps ==> SameKeys(c, m.ctx))
  }

  lemma {:induction false} MakeMsg1Outcome(S: Suite, c: Ctx, key: Coins, enc: Coins, cap: nat)
    requires Sized(c)
    ensures Outcome(c, MakeMsg1(S, c, key, enc, cap), true)
  {
    hide Keypair, Encaps, Seal, Th1, Extract, Sized;
  }

  lemma {:induction false} Msg2EmissionOutcome(S: Suite, c: Ctx, hMsg1: Bytes, encE: Coins, encA: Coins, cap: nat)
    requires Sized(c)
    ensures Outcome(c, EmitMsg2(S, c, hMsg1, encE, encA, cap), true)
  {
    hide Encaps, Seal, Th2, ThNext, Extract, BuildPt2;
  }

  lemma {:induction false} Msg1Outcome(S: Suite, c: Ctx, input: Bytes, encE: Coins, encA: Coins, cap: nat)
    requires Sized(c)
    ensures Outcome(c, HandleMsg1(S, c, input, encE, encA, cap), true)
  {
    hide Decaps, Open, Th1, Extract, EmitMsg2;
    forall d, h | Sized(d) { Msg2EmissionOutcome(S, d, h, encE, encA, cap); }
  }

  lemma {:induction false} Msg3EmissionOutcome(S: Suite, c: Ctx, pt2: Bytes, key: Coins, cap: nat)
    requires Sized(c) && |c.ctA| == XCT
    ensures var m := EmitMsg3(S, c, pt2, key, cap); Outcome(c, m, m.rc != OK) && (m.rc == OK ==> !m.ctx.done)
  {
    hide Decaps, Keypair, Seal, ThNext, Extract, BuildPt3, PrkOut, Expand, Ascii;
  }

  /** Message_2 handling exports the keys only when it succeeds, and never makes the initiator done. */
  lemma {:induction false} Msg2Outcome(S: Suite, c: Ctx, input: Bytes, key: Coins, cap: nat)
    requires Sized(c)
    ensures var m := HandleMsg2(S, c, input, key, cap); Outcome(c, m, m.rc != OK) && (m.rc == OK ==> !m.ctx.done)
  {
    hide Decaps, Open, Th2, Extract, CheckPt2, EmitMsg3;
    forall d, pt2 | Sized(d) && |d.ctA| == XCT { Msg3EmissionOutcome(S, d, pt2, key, cap); }
  }

  /** The peer's message_3 is authentic. */
  predicate Authentic3(S: Suite, c: Ctx, input: Bytes) {
    var pt3 := Open(S, c.ks.prk3e2m, c.th.th3, input);
    && pt3.Some? && |pt3.value| == PT3_LEN
    && CheckPt3(S, c.(ks := c.ks.(prk4e3m := Extract(S, c.ks.prk3e2m, c.ss.a)),
                      peer := c.peer.(idCred := pt3.value[..3], newPk := pt3.value[3..1219], sigVk := pt3.value[1227..2539])),
                pt3.value[1219..1227], pt3.value[2539..]) == OK
  }

  lemma {:induction false} Msg4EmissionOutcome(S: Suite, c: Ctx, pt3: Bytes, key: Coins, cap: nat)
    ensures Outcome(c, EmitMsg4(S, c, pt3, key, cap), false) && EmitMsg4(S, c, pt3, key, cap).ctx.done
  {
    hide Keypair, Seal, ThNext, PrkOut, Expand, Ascii;
  }

  /** Message_3 handling exports the keys before it builds message_4: exactly when the message is authentic the responder
      is done afterwards, also if the call then fails; otherwise the keys stay as they were. */
  lemma {:induction false} Msg3Outcome(S: Suite, c: Ctx, input: Bytes, key: Coins, cap: nat)
    ensures var m := HandleMsg3(S, c, input, key, cap);
            var exports := c.role == 0 && Authentic3(S, c, input);
            && Outcome(c, m, !exports) && (exports ==> m.ctx.done) && (m.rc == OK ==> exports)
  {
    hide Open, Extract, CheckPt3, EmitMsg4;
    forall d, pt3 { Msg4EmissionOutcome(S, d, pt3, key, cap); }
  }

  /** Message_4 handling changes nothing unless it succeeds. */
  lemma {:induction false} Msg4Outcome(S: Suite, c: Ctx, input: Bytes)
    ensures var m := HandleMsg4(S, c, input);
            SameParty(c, m.ctx) && m.ctx.ks == c.ks && if m.rc == OK then m.ctx.done else m.ctx == c
  {
    hide Open;
  }

  /** Domain separation: the AEAD, MAC_2, MAC_3, PRK_out, MSK and EMSK derivations never share an HKDF info string. */
  lemma {:induction false} InfosDiffer(th: Bytes, th': Bytes, th'': Bytes, id: Bytes, id': Bytes, newPk: Bytes)
    requires |th| == |th'| == |th''| == HASH_LEN && |id| == |id'| == ID_LEN && |newPk| == XPK
    ensures KeyInfo(th) != MacInfo(th', id, []) && KeyInfo(th) != MacInfo(th', id, newPk) && KeyInfo(th) != th''
    ensures MacInfo(th, id, []) != MacInfo(th', id', newPk) && MacInfo(th, id, []) != th'' && MacInfo(th, id, newPk) != th''
    ensures forall tag | tag in [Ascii("EDHOC-EAP-MSK"), Ascii("EDHOC-EAP-EMSK")] ::
              tag != KeyInfo(th) && tag != MacInfo(th', id, []) && tag != MacInfo(th', id, newPk) && tag != th''
    ensures Ascii("EDHOC-EAP-MSK") != Ascii("EDHOC-EAP-EMSK")
  {
    assert |KeyInfo(th)| == 37 && |MacInfo(th', id, [])| == 35 && |MacInfo(th', id, newPk)| == 1251;
    assert |MacInfo(th, id, [])| == 35 && |MacInfo(th, id, newPk)| == 1251 && |MacInfo(th', id', newPk)| == 1251;
    assert |Ascii("EDHOC-EAP-MSK")| == 13 && |Ascii("EDHOC-EAP-EMSK")| == 14;
  }

  /** Every handler keeps the fixed sizes of the struct. */
  lemma {:induction false} KeypairSized(S: Suite, c: Ctx, r: Coins)
    requires Lawful(S) && Sized(c) && |r.x| == X_LEN && Keypair(S, r).Some?
    ensures Sized(c.(eph := Keypair(S, r).value)) && |Keypair(S, r).value.pk| == XPK
  {
  }
}
