/** The undisturbed exchange of method 4: with mutually pinned credentials every handler succeeds and both ends agree. */
module Edhoc4Honest {
  import opened Primitives
  import opened Hkdf
  import opened XWing
  import opened Edhoc4
  import opened Edhoc4Runs

  /** The randomness of one exchange, in the order it is drawn. */
  datatype Draws = Draws(eph: Coins, encB: Coins, encE: Coins, encA: Coins, nextI: Coins, nextR: Coins)

  /** What every undisturbed exchange starts from: lawful primitives, well-formed credentials that each end pinned, X25519
      secrets of their fixed width and a buffer for the largest message. */
  ghost predicate Setting(S: Suite, ini: Creds, res: Creds, d: Draws, cap: nat) {
    && Lawful(S) && WellFormed(S, ini) && WellFormed(S, res) && cap >= 8192
    && |d.eph.x| == X_LEN && |d.nextI.x| == X_LEN && |d.nextR.x| == X_LEN
  }

  /** The initiator's context after message_1, in closed form. */
  function I1(S: Suite, ini: Creds, res: Creds, k: KemPair, b: Encapsulation, hMsg1: Bytes): Ctx {
    var c := InitInitiator(ini, res.kemPk);
    c.(eph := k, ss := c.ss.(b := b.ss), th := c.th.(th1 := Th1(S, k.pk, b.ct), hMsg1 := hMsg1),
       ks := c.ks.(prk1e := Extract(S, Th1(S, k.pk, b.ct), b.ss)))
  }

  lemma {:induction false} StartSucceeds(S: Suite, ini: Creds, res: Creds, d: Draws, cap: nat)
    requires Setting(S, ini, res, d, cap) && Sized(InitInitiator(ini, res.kemPk))
    requires MakeMsg1(S, InitInitiator(ini, res.kemPk), d.eph, d.encB, cap).rc == OK
    ensures Keypair(S, d.eph).Some? && Encaps(S, res.kemPk, d.encB).Some? && |Keypair(S, d.eph).value.pk| == XPK
    ensures var k, b := Keypair(S, d.eph).value, Encaps(S, res.kemPk, d.encB).value;
            var m := MakeMsg1(S, InitInitiator(ini, res.kemPk), d.eph, d.encB, cap);
            && m.rc == OK && m.ctx == I1(S, ini, res, k, b, S.sha256(m.out)) && Sized(m.ctx) && |m.out| == 2354
            && m.out[..1120] == b.ct && m.out[1120..2336] == k.pk
            && Seal(S, m.ctx.ks.prk1e, m.ctx.th.th1, [0x04, 0x10]) == Some(m.out[2336..])
  {
    var c := InitInitiator(ini, res.kemPk);
    assert Keypair(S, d.eph).Some? && Encaps(S, res.kemPk, d.encB).Some?;
    KeypairSized(S, c, d.eph);
    EncapsLengths(S, res.kemPk, d.encB);
    hide Keypair, Encaps, AeadKey, AeadNonce, WellFormed, Expand, LawfulDh, LawfulHash, LawfulKem, LawfulSig;
    var k, b := Keypair(S, d.eph).value, Encaps(S, res.kemPk, d.encB).value;
    var m := MakeMsg1(S, c, d.eph, d.encB, cap);
    var th1 := Th1(S, k.pk, b.ct);
    var ct := Seal(S, Extract(S, th1, b.ss), th1, [0x04, 0x10]).value;
    assert m.out == b.ct + k.pk + ct;
  }

  /** The responder's context once message_1 is decrypted, in closed form. */
  function R1(S: Suite, ini: Creds, res: Creds, k: KemPair, b: Encapsulation): Ctx {
    var c := InitResponder(res, ini.kemPk);
    c.(eph := c.eph.(pk := k.pk), ss := c.ss.(b := b.ss), th := c.th.(th1 := Th1(S, k.pk, b.ct)),
       ks := c.ks.(prk1e := Extract(S, Th1(S, k.pk, b.ct), b.ss)), cI := 0x10)
  }

  lemma {:induction false} Msg1Accepted(S: Suite, ini: Creds, res: Creds, d: Draws, out: Bytes, cap: nat)
    requires Lawful(S) && WellFormed(S, ini) && WellFormed(S, res)
    requires Keypair(S, d.eph).Some? && Encaps(S, res.kemPk, d.encB).Some? && |Keypair(S, d.eph).value.pk| == XPK
    requires var k, b := Keypair(S, d.eph).value, Encaps(S, res.kemPk, d.encB).value;
             var th1 := Th1(S, k.pk, b.ct);
             && |out| == 2354 && out[..1120] == b.ct && out[1120..2336] == k.pk
             && Seal(S, Extract(S, th1, b.ss), th1, [0x04, 0x10]) == Some(out[2336..])
    ensures Sized(InitResponder(res, ini.kemPk))
    ensures var r1 := R1(S, ini, res, Keypair(S, d.eph).value, Encaps(S, res.kemPk, d.encB).value);
            && Sized(r1)
            && HandleMsg1(S, InitResponder(res, ini.kemPk), out, d.encE, d.encA, cap)
               == EmitMsg2(S, r1, S.sha256(out), d.encE, d.encA, cap)
  {
    InitSized(S, res, ini.kemPk);
    var k, b := Keypair(S, d.eph).value, Encaps(S, res.kemPk, d.encB).value;
    DecapsUndoesEncaps(S, res.kemPk, res.kemSk, d.encB);
    var th1 := Th1(S, k.pk, b.ct);
    SealOpens(S, Extract(S, th1, b.ss), th1, [0x04, 0x10]);
    hide Decaps, Keypair, Encaps, Open, Seal, EmitMsg2, Lawful;
  }

  /** The responder's context after message_2, in closed form but for TH3. */
  function R2(S: Suite, r1: Ctx, hMsg1: Bytes, e: Encapsulation, a: Encapsulation): Ctx {
    var th2 := Th2(S, hMsg1, e.ct, r1.cR);
    var prk2e := Extract(S, th2, e.ss);
    r1.(ss := r1.ss.(e := e.ss, a := a.ss), th := r1.th.(th2 := th2), ctA := a.ct,
        ks := r1.ks.(prk2e := prk2e, prk3e2m := Extract(S, prk2e, r1.ss.b)))
  }

  lemma {:induction false} Msg2Succeeds(S: Suite, r1: Ctx, hMsg1: Bytes, encE: Coins, encA: Coins, cap: nat)
    requires Lawful(S) && Sized(r1) && WellFormed(S, r1.self) && cap >= 8192
    requires EmitMsg2(S, r1, hMsg1, encE, encA, cap).rc == OK
    ensures Encaps(S, r1.eph.pk, encE).Some? && Encaps(S, r1.peer.kemPk, encA).Some?
    ensures var m := EmitMsg2(S, r1, hMsg1, encE, encA, cap);
            var e := Encaps(S, r1.eph.pk, encE).value;
            var r2 := R2(S, r1, hMsg1, e, Encaps(S, r1.peer.kemPk, encA).value);
            && |m.out| == 6000 && m.out[..1120] == e.ct && |r2.ctA| == XCT
            && BuildPt2(S, r2).Some?
            && m.ctx == r2.(th := r2.th.(th3 := ThNext(S, r2.th.th2, BuildPt2(S, r2).value)))
            && Seal(S, r2.ks.prk2e, r2.th.th2, BuildPt2(S, r2).value) == Some(m.out[1120..])
  {
    assert Encaps(S, r1.eph.pk, encE).Some? && Encaps(S, r1.peer.kemPk, encA).Some?;
    EncapsLengths(S, r1.eph.pk, encE);
    EncapsLengths(S, r1.peer.kemPk, encA);
    var e, a := Encaps(S, r1.eph.pk, encE).value, Encaps(S, r1.peer.kemPk, encA).value;
    var r2 := R2(S, r1, hMsg1, e, a);
    assert BuildPt2(S, r2).Some? by { hide Expand, Ascii; }
    BuiltPt2Layout(S, r2);
    hide Encaps, AeadKey, AeadNonce, WellFormed, Expand, LawfulDh, LawfulHash, LawfulKem, LawfulSig, BuildPt2, Th2, Extract;
    var pt2 := BuildPt2(S, r2).value;
    var ct := Seal(S, r2.ks.prk2e, r2.th.th2, pt2).value;
    var m := EmitMsg2(S, r1, hMsg1, encE, encA, cap);
    SameBuild(S, r2, m.ctx);
    assert m.out == e.ct + ct;
  }

  /** The initiator's context once message_2 is authenticated, given the responder context that built it. */
  function I2(S: Suite, i1: Ctx, r2: Ctx): Ctx {
    i1.(cR := r2.cR, ss := i1.ss.(e := r2.ss.e), th := i1.th.(th2 := r2.th.th2), ctA := r2.ctA,
        peer := i1.peer.(idCred := r2.self.idCred, sigVk := r2.self.sigVk),
        ks := i1.ks.(prk2e := r2.ks.prk2e, prk3e2m := r2.ks.prk3e2m))
  }

  lemma {:induction false} Msg2Accepted(S: Suite, i1: Ctx, r2: Ctx, cte: Bytes, enc: Coins, msg: Bytes, key: Coins, cap: nat)
    requires Lawful(S) && Sized(i1) && WellFormed(S, r2.self) && i1.role == 1 && IsPair(S, i1.eph.pk, i1.eph.sk)
    requires Encaps(S, i1.eph.pk, enc) == Some(Encapsulation(cte, r2.ss.e)) && r2.cR == 0x20
    requires i1.ss.b == r2.ss.b && r2.th.th2 == Th2(S, i1.th.hMsg1, cte, 0x20)
    requires r2.ks.prk2e == Extract(S, r2.th.th2, r2.ss.e) && r2.ks.prk3e2m == Extract(S, r2.ks.prk2e, r2.ss.b)
    requires |r2.ctA| == XCT && BuildPt2(S, r2).Some?
    requires |msg| > 1136 && msg[..1120] == cte && Seal(S, r2.ks.prk2e, r2.th.th2, BuildPt2(S, r2).value) == Some(msg[1120..])
    ensures Sized(I2(S, i1, r2)) && |I2(S, i1, r2).ctA| == XCT
    ensures HandleMsg2(S, i1, msg, key, cap) == EmitMsg3(S, I2(S, i1, r2), BuildPt2(S, r2).value, key, cap)
  {
    EncapsLengths(S, i1.eph.pk, enc);
    DecapsUndoesEncaps(S, i1.eph.pk, i1.eph.sk, enc);
    BuiltPt2Layout(S, r2);
    var pt2 := BuildPt2(S, r2).value;
    SealOpens(S, r2.ks.prk2e, r2.th.th2, pt2);
    var i2 := I2(S, i1, r2);
    assert CheckPt2(S, i2, pt2[2436..2444], pt2[2444..]) == OK by {
      hide Expand, Lawful;
    }
    hide Decaps, Encaps, Open, Seal, EmitMsg3, Lawful, BuildPt2, CheckPt2, IsPair, WellFormed, Extract, Th2;
  }

  /** The initiator's context after message_3, in closed form. */
  function I3(S: Suite, i2: Ctx, pt2: Bytes, ssA: Bytes, k: KemPair): Ctx {
    i2.(ss := i2.ss.(a := ssA), next := k, th := i2.th.(th3 := ThNext(S, i2.th.th2, pt2)),
        ks := i2.ks.(prk4e3m := Extract(S, i2.ks.prk3e2m, ssA)))
  }

  function I4(S: Suite, i3: Ctx, pt3: Bytes): Ctx {
    DeriveMsk(S, i3.(th := i3.th.(th4 := ThNext(S, i3.th.th3, pt3)))).(done := false)
  }

  lemma {:induction false} Msg3Succeeds(S: Suite, i2: Ctx, pt2: Bytes, encA: Coins, key: Coins, cap: nat)
    requires Lawful(S) && Sized(i2) && WellFormed(S, i2.self) && |key.x| == X_LEN && cap >= 8192
    requires Encaps(S, i2.self.kemPk, encA).Some? && i2.ctA == Encaps(S, i2.self.kemPk, encA).value.ct && |i2.ctA| == XCT
    requires EmitMsg3(S, i2, pt2, key, cap).rc == OK
    ensures Keypair(S, key).Some?
    ensures var m := EmitMsg3(S, i2, pt2, key, cap);
            var i3 := I3(S, i2, pt2, Encaps(S, i2.self.kemPk, encA).value.ss, Keypair(S, key).value);
            && |m.out| == 4975 && |i3.next.pk| == XPK && BuildPt3(S, i3).Some?
            && m.ctx == I4(S, i3, BuildPt3(S, i3).value)
            && Seal(S, i3.ks.prk3e2m, i3.th.th3, BuildPt3(S, i3).value) == Some(m.out)
  {
    DecapsUndoesEncaps(S, i2.self.kemPk, i2.self.kemSk, encA);
    KeypairSized(S, i2, key);
    var i3 := I3(S, i2, pt2, Encaps(S, i2.self.kemPk, encA).value.ss, Keypair(S, key).value);
    assert BuildPt3(S, i3).Some? by { hide Expand, Ascii; }
    BuiltPt3Layout(S, i3);
    hide Encaps, Decaps, Keypair, AeadKey, AeadNonce, WellFormed, DeriveMsk, LawfulDh, LawfulHash, LawfulKem, LawfulSig,
         BuildPt3, Extract;
  }

  /** The responder's context once message_3 is authenticated, given the initiator context that built it. */
  function R3(S: Suite, r2: Ctx, i3: Ctx): Ctx {
    r2.(ks := r2.ks.(prk4e3m := Extract(S, r2.ks.prk3e2m, r2.ss.a)),
        peer := r2.peer.(idCred := i3.self.idCred, newPk := i3.next.pk, sigVk := i3.self.sigVk))
  }

  lemma {:induction false} Msg3Accepted(S: Suite, r2: Ctx, i3: Ctx, msg: Bytes, key: Coins, cap: nat)
    requires Lawful(S) && WellFormed(S, i3.self) && r2.role == 0 && |i3.next.pk| == XPK && BuildPt3(S, i3).Some?
    requires i3.ks.prk3e2m == r2.ks.prk3e2m && i3.th.th3 == r2.th.th3
    requires i3.ks.prk4e3m == Extract(S, r2.ks.prk3e2m, r2.ss.a)
    requires Seal(S, i3.ks.prk3e2m, i3.th.th3, BuildPt3(S, i3).value) == Some(msg)
    ensures HandleMsg3(S, r2, msg, key, cap) == EmitMsg4(S, R3(S, r2, i3), BuildPt3(S, i3).value, key, cap)
  {
    BuiltPt3Layout(S, i3);
    var pt3 := BuildPt3(S, i3).value;
    SealOpens(S, i3.ks.prk3e2m, i3.th.th3, pt3);
    var r3 := R3(S, r2, i3);
    assert CheckPt3(S, r3, pt3[1219..1227], pt3[2539..]) == OK by {
      hide Expand, Lawful;
    }
    hide Open, Seal, EmitMsg4, Lawful, BuildPt3, CheckPt3, WellFormed, Extract;
  }

  lemma {:induction false} Msg4Succeeds(S: Suite, r3: Ctx, pt3: Bytes, key: Coins, cap: nat)
    requires Lawful(S) && |key.x| == X_LEN && cap >= 8192 && EmitMsg4(S, r3, pt3, key, cap).rc == OK
    ensures Keypair(S, key).Some?
    ensures var m := EmitMsg4(S, r3, pt3, key, cap);
            var k := Keypair(S, key).value;
            && |m.out| == 1232 && |k.pk| == XPK
            && m.ctx == DeriveMsk(S, r3.(th := r3.th.(th4 := ThNext(S, r3.th.th3, pt3)))).(next := k)
            && Seal(S, r3.ks.prk4e3m, ThNext(S, r3.th.th3, pt3), k.pk) == Some(m.out)
  {
    hide Expand, Ascii, AeadKey, AeadNonce, LawfulSig;
  }

  /** The results of an undisturbed exchange. */
  datatype Exchange = Exchange(m1: Result, m2: Result, m3: Result, m4: Result, i: Result)

  function HonestExchange(S: Suite, ini: Creds, res: Creds, d: Draws, cap: nat): Option<Exchange> {
    var i0, r0 := InitInitiator(ini, res.kemPk), InitResponder(res, ini.kemPk);
    if !Sized(i0) || !Sized(r0) then None else
    var m1 := MakeMsg1(S, i0, d.eph, d.encB, cap);
    var m2 := HandleMsg1(S, r0, m1.out, d.encE, d.encA, cap);
    if !Sized(m1.ctx) then None else
    var m3 := HandleMsg2(S, m1.ctx, m2.out, d.nextI, cap);
    var m4 := HandleMsg3(S, m2.ctx, m3.out, d.nextR, cap);
    Some(Exchange(m1, m2, m3, m4, HandleMsg4(S, m3.ctx, m4.out)))
  }

  /** The exchange is defined whatever fails in it. */
  lemma {:induction false} ExchangeDefined(S: Suite, ini: Creds, res: Creds, d: Draws, cap: nat)
    requires Setting(S, ini, res, d, cap)
    ensures Sized(InitInitiator(ini, res.kemPk)) && Sized(InitResponder(res, ini.kemPk))
    ensures HonestExchange(S, ini, res, d, cap).Some?
    ensures Sized(HonestExchange(S, ini, res, d, cap).value.m1.ctx)
  {
    InitSized(S, ini, res.kemPk);
    InitSized(S, res, ini.kemPk);
    Msg1Kept(S, InitInitiator(ini, res.kemPk), d.eph, d.encB, cap);
    hide MakeMsg1, HandleMsg1, HandleMsg2, HandleMsg3, HandleMsg4, Lawful, WellFormed, Sized;
  }

  /** The exchange once message_1 was sent: what is left of its handling is to emit message_2. */
  lemma {:induction false} Stage1(S: Suite, ini: Creds, res: Creds, d: Draws, cap: nat, e: Exchange) returns (r1: Ctx)
    requires Setting(S, ini, res, d, cap) && HonestExchange(S, ini, res, d, cap) == Some(e) && e.m1.rc == OK
    ensures Keypair(S, d.eph).Some? && Encaps(S, res.kemPk, d.encB).Some?
    ensures var k, b := Keypair(S, d.eph).value, Encaps(S, res.kemPk, d.encB).value;
            && e.m1.ctx == I1(S, ini, res, k, b, S.sha256(e.m1.out)) && Sized(e.m1.ctx) && |e.m1.out| == 2354
            && r1 == R1(S, ini, res, k, b) && Sized(r1) && IsPair(S, k.pk, k.sk)
    ensures e.m2 == EmitMsg2(S, r1, S.sha256(e.m1.out), d.encE, d.encA, cap)
  {
    ExchangeDefined(S, ini, res, d, cap);
    StartSucceeds(S, ini, res, d, cap);
    Msg1Accepted(S, ini, res, d, e.m1.out, cap);
    var k, b := Keypair(S, d.eph).value, Encaps(S, res.kemPk, d.encB).value;
    assert IsPair(S, k.pk, k.sk);
    r1 := R1(S, ini, res, k, b);
    hide MakeMsg1, HandleMsg1, HandleMsg2, HandleMsg3, HandleMsg4, EmitMsg2, Keypair, Encaps, IsPair, Lawful, WellFormed, Seal,
         Th1, Extract;
  }

  /** The exchange once message_2 was sent: what is left of its handling is to emit message_3. */
  lemma {:induction false} Stage2(S: Suite, ini: Creds, res: Creds, d: Draws, cap: nat, e: Exchange) returns (r2: Ctx, pt2: Bytes)
    requires Setting(S, ini, res, d, cap) && HonestExchange(S, ini, res, d, cap) == Some(e)
    requires e.m1.rc == OK && e.m2.rc == OK
    ensures e.m1.ctx.self == ini && e.m1.ctx.th.hMsg1 == S.sha256(e.m1.out) && e.m1.ctx.cI == 0x10 == r2.cI
    ensures r2.self == res && r2.role == 0 && r2.cR == 0x20 && Encaps(S, ini.kemPk, d.encA).Some?
    ensures r2.ss.b == e.m1.ctx.ss.b && r2.ss.a == Encaps(S, ini.kemPk, d.encA).value.ss
    ensures r2.ctA == Encaps(S, ini.kemPk, d.encA).value.ct && |r2.ctA| == XCT
    ensures r2.eph.pk == e.m1.ctx.eph.pk && r2.th.th1 == e.m1.ctx.th.th1 && r2.ks.prk1e == e.m1.ctx.ks.prk1e
    ensures exists ct: Bytes :: r2.th.th2 == Th2(S, S.sha256(e.m1.out), ct, 0x20)
    ensures BuildPt2(S, r2) == Some(pt2) && e.m2.ctx == r2.(th := r2.th.(th3 := ThNext(S, r2.th.th2, pt2)))
    ensures |e.m2.out| == 6000 && Seal(S, r2.ks.prk2e, r2.th.th2, pt2) == Some(e.m2.out[1120..])
    ensures Sized(e.m1.ctx) && Sized(I2(S, e.m1.ctx, r2))
    ensures e.m3 == EmitMsg3(S, I2(S, e.m1.ctx, r2), pt2, d.nextI, cap)
  {
    var r1 := Stage1(S, ini, res, d, cap, e);
    var hMsg1 := S.sha256(e.m1.out);
    Msg2Succeeds(S, r1, hMsg1, d.encE, d.encA, cap);
    var ee, a := Encaps(S, r1.eph.pk, d.encE).value, Encaps(S, ini.kemPk, d.encA).value;
    r2 := R2(S, r1, hMsg1, ee, a);
    pt2 := BuildPt2(S, r2).value;
    hide Expand, MakeMsg1, HandleMsg1, HandleMsg2, HandleMsg3, HandleMsg4, EmitMsg2, EmitMsg3, Keypair, Encaps, BuildPt2,
         Th1, Th2, ThNext, Extract, IsPair, Ascii, Seal, Open, Lawful, WellFormed;
    Msg2Accepted(S, e.m1.ctx, r2, ee.ct, d.encE, e.m2.out, d.nextI, cap);
  }

  /** The exchange once message_3 was sent: what is left of its handling is to emit message_4. */
  lemma {:induction false} Stage3(S: Suite, ini: Creds, res: Creds, d: Draws, cap: nat, e: Exchange)
    returns (r2: Ctx, pt2: Bytes, i3: Ctx, pt3: Bytes)
    requires Setting(S, ini, res, d, cap) && HonestExchange(S, ini, res, d, cap) == Some(e)
    requires e.m1.rc == OK && e.m2.rc == OK && e.m3.rc == OK
    ensures e.m1.ctx.self == ini && e.m1.ctx.th.hMsg1 == S.sha256(e.m1.out) && e.m1.ctx.cI == 0x10 == r2.cI
    ensures r2.self == res && r2.cR == 0x20 && |r2.ctA| == XCT && r2.ss.b == e.m1.ctx.ss.b && r2.ss.a == i3.ss.a
    ensures r2.eph.pk == e.m1.ctx.eph.pk && r2.th.th1 == e.m1.ctx.th.th1 && r2.ks.prk1e == e.m1.ctx.ks.prk1e
    ensures exists ct: Bytes :: r2.th.th2 == Th2(S, S.sha256(e.m1.out), ct, 0x20)
    ensures BuildPt2(S, r2) == Some(pt2) && e.m2.ctx == r2.(th := r2.th.(th3 := ThNext(S, r2.th.th2, pt2)))
    ensures |e.m2.out| == 6000 && Seal(S, r2.ks.prk2e, r2.th.th2, pt2) == Some(e.m2.out[1120..])
    ensures exists ssA, k :: i3 == I3(S, I2(S, e.m1.ctx, r2), pt2, ssA, k)
    ensures |i3.next.pk| == XPK && BuildPt3(S, i3) == Some(pt3) && e.m3.ctx == I4(S, i3, pt3)
    ensures |e.m3.out| == 4975 && Seal(S, i3.ks.prk3e2m, i3.th.th3, pt3) == Some(e.m3.out)
    ensures e.m4 == EmitMsg4(S, R3(S, e.m2.ctx, i3), pt3, d.nextR, cap)
    ensures e.i == HandleMsg4(S, e.m3.ctx, e.m4.out) && R3(S, e.m2.ctx, i3).ks.prk4e3m == i3.ks.prk4e3m
  {
    r2, pt2 := Stage2(S, ini, res, d, cap, e);
    hide Expand, MakeMsg1, HandleMsg1, HandleMsg2, HandleMsg3, HandleMsg4, EmitMsg2, EmitMsg3, EmitMsg4, Keypair, Encaps,
         BuildPt2, BuildPt3, Th1, Th2, ThNext, Extract, IsPair, Ascii, Seal, Open, Lawful, WellFormed;
    var i2, a := I2(S, e.m1.ctx, r2), Encaps(S, ini.kemPk, d.encA).value;
    Msg3Succeeds(S, i2, pt2, d.encA, d.nextI, cap);
    i3 := I3(S, i2, pt2, a.ss, Keypair(S, d.nextI).value);
    pt3 := BuildPt3(S, i3).value;
    Msg3Accepted(S, e.m2.ctx, i3, e.m3.out, d.nextR, cap);
  }

  /** No primitive failed in the exchange. */
  predicate Succeeds(e: Exchange) { e.m1.rc == OK && e.m2.rc == OK && e.m3.rc == OK && e.m4.rc == OK }

  ghost predicate GoesThrough(S: Suite, ini: Creds, res: Creds, d: Draws, cap: nat) {
    && Setting(S, ini, res, d, cap) && HonestExchange(S, ini, res, d, cap).Some?
    && Succeeds(HonestExchange(S, ini, res, d, cap).value)
  }

  /** Honest-run agreement for method 4: an exchange in which no primitive failed ends with every handler returning OK,
      the fixed message sizes, every hash, secret and key shared, each end holding the other's next static key, and the
      initiator done only at the end. */
  lemma {:induction false} HonestRunAgrees(S: Suite, ini: Creds, res: Creds, d: Draws, cap: nat)
    requires GoesThrough(S, ini, res, d, cap)
    ensures var e := HonestExchange(S, ini, res, d, cap).value;
            && e.i.rc == OK
            && |e.m1.out| == 2354 && |e.m2.out| == 6000 && |e.m3.out| == 4975 && |e.m4.out| == 1232
            && !e.m3.ctx.done && e.i.ctx.done && e.m4.ctx.done
            && Agree(e.i.ctx, e.m4.ctx) && e.i.ctx.ss == e.m4.ctx.ss && e.i.ctx.ks == e.m4.ctx.ks
            && e.i.ctx.cI == e.m4.ctx.cI && e.i.ctx.peer.newPk == e.m4.ctx.next.pk
  {
    var e := HonestExchange(S, ini, res, d, cap).value;
    var r1 := Stage1(S, ini, res, d, cap, e);
    var r2, pt2, i3, pt3 := Stage3(S, ini, res, d, cap, e);
    var r3 := R3(S, e.m2.ctx, i3);
    Msg4Succeeds(S, r3, pt3, d.nextR, cap);
    SealOpens(S, r3.ks.prk4e3m, ThNext(S, r3.th.th3, pt3), Keypair(S, d.nextR).value.pk);
    hide Expand, MakeMsg1, HandleMsg1, HandleMsg2, HandleMsg3, EmitMsg2, EmitMsg3, EmitMsg4, Keypair, Encaps, BuildPt2, BuildPt3,
         Th1, Th2, ThNext, Extract, IsPair, Ascii, Seal, Open, Lawful, WellFormed, HonestExchange;
  }

  // ------------------------------------------------------------------ the outcome, primitives failing or not

  ghost predicate SignFails(S: Suite, sk: Bytes) { exists m :: S.pqSign(sk, m).None? }

  ghost predicate SealFails(S: Suite) { exists k, n, ad, p :: S.seal(k, n, ad, p).None? }

  /** The code is OK or that of a call that failed. */
  ghost predicate Excused(S: Suite, rc: int, kemFails: bool, signFails: bool) {
    rc == OK || (rc == ERR_KEM && kemFails) || (rc == ERR_SIG && signFails) || (rc == ERR_AEAD && SealFails(S))
  }

  lemma SealExcused(S: Suite, prk: Bytes, th: Bytes, pt: Bytes)
    ensures Seal(S, prk, th, pt).None? ==> SealFails(S)
  {
    hide AeadKey, AeadNonce;
  }

  lemma {:induction false} StartExcused(S: Suite, ini: Creds, res: Creds, d: Draws, cap: nat)
    requires Setting(S, ini, res, d, cap) && Sized(InitInitiator(ini, res.kemPk))
    ensures Excused(S, MakeMsg1(S, InitInitiator(ini, res.kemPk), d.eph, d.encB, cap).rc,
                    Keypair(S, d.eph).None? || Encaps(S, res.kemPk, d.encB).None?, false)
  {
    var c := InitInitiator(ini, res.kemPk);
    if Keypair(S, d.eph).Some? && Encaps(S, res.kemPk, d.encB).Some? {
      KeypairSized(S, c, d.eph);
      EncapsLengths(S, res.kemPk, d.encB);
      var k, b := Keypair(S, d.eph).value, Encaps(S, res.kemPk, d.encB).value;
      var th1 := Th1(S, k.pk, b.ct);
      SealExcused(S, Extract(S, th1, b.ss), th1, [0x04, 0x10]);
    }
    hide Keypair, Encaps, AeadKey, AeadNonce, WellFormed, SealFails, LawfulDh, LawfulHash, LawfulKem, LawfulSig, Th1, Extract;
  }

  lemma {:induction false} Msg2Excused(S: Suite, r1: Ctx, hMsg1: Bytes, encE: Coins, encA: Coins, cap: nat)
    requires Lawful(S) && Sized(r1) && WellFormed(S, r1.self) && cap >= 8192
    ensures Excused(S, EmitMsg2(S, r1, hMsg1, encE, encA, cap).rc,
                    Encaps(S, r1.eph.pk, encE).None? || Encaps(S, r1.peer.kemPk, encA).None?, SignFails(S, r1.self.sigSk))
  {
    if Encaps(S, r1.eph.pk, encE).Some? && Encaps(S, r1.peer.kemPk, encA).Some? {
      EncapsLengths(S, r1.eph.pk, encE);
      EncapsLengths(S, r1.peer.kemPk, encA);
      var r2 := R2(S, r1, hMsg1, Encaps(S, r1.eph.pk, encE).value, Encaps(S, r1.peer.kemPk, encA).value);
      Pt2Excused(S, r2);
      if BuildPt2(S, r2).Some? {
        BuiltPt2Layout(S, r2);
        SealExcused(S, r2.ks.prk2e, r2.th.th2, BuildPt2(S, r2).value);
      }
    }
    hide Encaps, AeadKey, AeadNonce, WellFormed, SealFails, SignFails, LawfulDh, LawfulHash, LawfulKem, LawfulSig, BuildPt2,
         Th2, ThNext, Extract;
  }

  lemma Pt2Excused(S: Suite, c: Ctx)
    requires LawfulSig(S)
    ensures BuildPt2(S, c).None? ==> SignFails(S, c.self.sigSk)
  {
    hide Mac, SigMessage;
  }

  lemma Pt3Excused(S: Suite, c: Ctx)
    requires LawfulSig(S)
    ensures BuildPt3(S, c).None? ==> SignFails(S, c.self.sigSk)
  {
    hide Mac, SigMessage;
  }

  lemma {:induction false} Msg3Excused(S: Suite, i2: Ctx, pt2: Bytes, encA: Coins, key: Coins, cap: nat)
    requires Lawful(S) && Sized(i2) && WellFormed(S, i2.self) && |key.x| == X_LEN && cap >= 8192
    requires Encaps(S, i2.self.kemPk, encA).Some? && i2.ctA == Encaps(S, i2.self.kemPk, encA).value.ct && |i2.ctA| == XCT
    ensures Excused(S, EmitMsg3(S, i2, pt2, key, cap).rc, Keypair(S, key).None?, SignFails(S, i2.self.sigSk))
  {
    DecapsUndoesEncaps(S, i2.self.kemPk, i2.self.kemSk, encA);
    if Keypair(S, key).Some? {
      KeypairSized(S, i2, key);
      var i3 := I3(S, i2, pt2, Encaps(S, i2.self.kemPk, encA).value.ss, Keypair(S, key).value);
      Pt3Excused(S, i3);
      if BuildPt3(S, i3).Some? {
        BuiltPt3Layout(S, i3);
        SealExcused(S, i3.ks.prk3e2m, i3.th.th3, BuildPt3(S, i3).value);
      }
    }
    hide Encaps, Decaps, Keypair, AeadKey, AeadNonce, WellFormed, SealFails, SignFails, DeriveMsk, LawfulDh, LawfulHash,
         LawfulKem, LawfulSig, BuildPt3, ThNext, Extract;
  }

  lemma {:induction false} Msg4Excused(S: Suite, r3: Ctx, pt3: Bytes, key: Coins, cap: nat)
    requires Lawful(S) && |key.x| == X_LEN && cap >= 8192
    ensures Excused(S, EmitMsg4(S, r3, pt3, key, cap).rc, Keypair(S, key).None?, false)
  {
    if Keypair(S, key).Some? {
      SealExcused(S, r3.ks.prk4e3m, ThNext(S, r3.th.th3, pt3), Keypair(S, key).value.pk);
    }
    hide Expand, Ascii, AeadKey, AeadNonce, SealFails, LawfulSig;
  }

  /** The outcome of every honest exchange: each handler, once the ones before it returned OK, returns OK or the code of a
      key generation, encapsulation, signature or sealing of its own that failed, never that of a decapsulation,
      decryption, MAC or verification; message_4 is then always accepted. */
  lemma {:induction false} HonestOutcome(S: Suite, ini: Creds, res: Creds, d: Draws, cap: nat) returns (e: Exchange)
    requires Setting(S, ini, res, d, cap)
    ensures HonestExchange(S, ini, res, d, cap) == Some(e)
    ensures Excused(S, e.m1.rc, Keypair(S, d.eph).None? || Encaps(S, res.kemPk, d.encB).None?, false)
    ensures e.m1.rc == OK ==>
              && Keypair(S, d.eph).Some? && |Keypair(S, d.eph).value.pk| == XPK
              && Excused(S, e.m2.rc, Encaps(S, Keypair(S, d.eph).value.pk, d.encE).None? || Encaps(S, ini.kemPk, d.encA).None?,
                         SignFails(S, res.sigSk))
    ensures e.m1.rc == OK && e.m2.rc == OK ==> Excused(S, e.m3.rc, Keypair(S, d.nextI).None?, SignFails(S, ini.sigSk))
    ensures e.m1.rc == OK && e.m2.rc == OK && e.m3.rc == OK ==> Excused(S, e.m4.rc, Keypair(S, d.nextR).None?, false)
    ensures Succeeds(e) ==> e.i.rc == OK
  {
    ExchangeDefined(S, ini, res, d, cap);
    e := HonestExchange(S, ini, res, d, cap).value;
    StartExcused(S, ini, res, d, cap);
    assert e.m1 == MakeMsg1(S, InitInitiator(ini, res.kemPk), d.eph, d.encB, cap) by {
      hide MakeMsg1, HandleMsg1, HandleMsg2, HandleMsg3, HandleMsg4, Sized;
    }
    hide Expand, HonestExchange, MakeMsg1, HandleMsg1, HandleMsg2, HandleMsg3, HandleMsg4, EmitMsg2, EmitMsg3, EmitMsg4,
         Keypair, Encaps, BuildPt2, BuildPt3, ThNext, Extract, IsPair, Ascii, Seal, Open, SignFails, SealFails, Lawful, Excused, Agree;
    if e.m1.rc == OK {
      var r1 := Stage1(S, ini, res, d, cap, e);
      Msg2Excused(S, r1, S.sha256(e.m1.out), d.encE, d.encA, cap);
      if e.m2.rc == OK {
        var r2, pt2 := Stage2(S, ini, res, d, cap, e);
        Msg3Excused(S, I2(S, e.m1.ctx, r2), pt2, d.encA, d.nextI, cap);
        if e.m3.rc == OK {
          var _, _, i3, pt3 := Stage3(S, ini, res, d, cap, e);
          Msg4Excused(S, R3(S, e.m2.ctx, i3), pt3, d.nextR, cap);
          if e.m4.rc == OK {
            HonestRunAgrees(S, ini, res, d, cap);
          }
        }
      }
    }
  }

  // ------------------------------------------------------------------ the local plaintext buffers

  /** The honest messages fit the buffers of the handlers they are meant for. */
  lemma {:induction false} HonestMessagesFit(S: Suite, ini: Creds, res: Creds, d: Draws, cap: nat, e: Exchange)
    requires Setting(S, ini, res, d, cap) && HonestExchange(S, ini, res, d, cap) == Some(e)
    ensures Sized(InitResponder(res, ini.kemPk)) && Sized(e.m1.ctx)
    ensures e.m1.rc == OK ==> Msg1Fill(S, InitResponder(res, ini.kemPk), e.m1.out) <= PT1_CAP
    ensures e.m1.rc == OK && e.m2.rc == OK ==> Msg2Fill(S, e.m1.ctx, e.m2.out) <= PT2_CAP
    ensures e.m1.rc == OK && e.m2.rc == OK && e.m3.rc == OK ==> Msg3Fill(e.m2.ctx, e.m3.out) <= PT3_CAP
    ensures Succeeds(e) ==> Msg4Fill(e.m3.ctx, e.m4.out) <= PT4_CAP
  {
    ExchangeDefined(S, ini, res, d, cap);
    hide HonestExchange, Msg1Fill, Msg2Fill, Msg3Fill, Msg4Fill, Lawful, WellFormed, Sized, Agree, I1, R1, I2, EmitMsg2, EmitMsg3,
         EmitMsg4, HandleMsg4, Th2, ThNext, Seal, BuildPt2, BuildPt3, InitResponder, IsPair, R3, I3, I4;
    if e.m1.rc == OK {
      var _ := Stage1(S, ini, res, d, cap, e);
      FitsExactly(S, InitResponder(res, ini.kemPk), e.m1.out);
      if e.m2.rc == OK {
        var _, _ := Stage2(S, ini, res, d, cap, e);
        FitsExactly(S, e.m1.ctx, e.m2.out);
        if e.m3.rc == OK {
          var _, _, _, _ := Stage3(S, ini, res, d, cap, e);
          LaterFitsExactly(e.m2.ctx, e.m3.out);
          if e.m4.rc == OK {
            HonestRunAgrees(S, ini, res, d, cap);
            LaterFitsExactly(e.m3.ctx, e.m4.out);
          }
        }
      }
    }
  }

  /** Cross-delivery leaves the buffers: the responder's own honest message_2, handed back to it as message_3, and the
      honest message_2 and message_3, handed to the initiator as message_4. */
  lemma {:induction false} CrossDeliveryOverruns(S: Suite, ini: Creds, res: Creds, d: Draws, cap: nat, e: Exchange)
    requires Setting(S, ini, res, d, cap) && HonestExchange(S, ini, res, d, cap) == Some(e)
    requires e.m1.rc == OK && e.m2.rc == OK && e.m3.rc == OK
    ensures Msg3Fill(e.m2.ctx, e.m2.out) == 5984 > PT3_CAP
    ensures Msg4Fill(e.m3.ctx, e.m2.out) == 5984 > PT4_CAP && Msg4Fill(e.m3.ctx, e.m3.out) == 4959 > PT4_CAP
  {
    var r2, _ := Stage2(S, ini, res, d, cap, e);
    var _, _, _, _ := Stage3(S, ini, res, d, cap, e);
    assert e.m1.ctx.role == 1 by { var _ := Stage1(S, ini, res, d, cap, e); hide Lawful, WellFormed; }
    hide HonestExchange, Lawful, WellFormed, EmitMsg2, EmitMsg3, EmitMsg4, Seal, BuildPt2, BuildPt3, Th2, ThNext, Expand, Extract;
  }

  lemma SameBuild(S: Suite, c: Ctx, d: Ctx)
    ensures c.ks.prk3e2m == d.ks.prk3e2m && c.th.th2 == d.th.th2 && c.self == d.self && c.ctA == d.ctA && c.cR == d.cR
            ==> BuildPt2(S, c) == BuildPt2(S, d)
  {
  }
}
