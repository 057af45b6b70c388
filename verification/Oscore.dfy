/** OSCORE security contexts and the protection of oscore_lite.py: context derivation in both languages, the nonce and the
    message round trip (RFC 8613, sections 3.2.1 and 5.2). */
module Oscore {
  import opened Primitives
  import opened Hkdf
  import opened KeySchedule

  // ------------------------------------------------------------------ context derivation

  datatype OscoreContext = OscoreContext(
    masterSecret: Bytes, masterSalt: Bytes, senderId: Bytes, recipientId: Bytes, idContext: Bytes,
    senderKey: Bytes, recipientKey: Bytes, commonIv: Bytes)

  function KeyInfo(id: Bytes, context: Bytes): Option<Bytes> { Info(id, context, AEAD_ALG, Ascii("Key"), KEY_LEN) }

  function IvInfo(context: Bytes): Option<Bytes> { Info([], context, AEAD_ALG, Ascii("IV"), IV_LEN) }

  /** derive_oscore_context: None when an identifier or the context is too long for the CBOR helpers. */
  function DeriveContext(S: Suite, ms: Bytes, salt: Bytes, sender: Bytes, recipient: Bytes, context: Bytes): Option<OscoreContext> {
    var prk := Extract(S, salt, ms);
    var s, r, i := KeyInfo(sender, context), KeyInfo(recipient, context), IvInfo(context);
    if s.Some? && r.Some? && i.Some? then
      Some(OscoreContext(ms, salt, sender, recipient, context, Expand(S, prk, s.value, KEY_LEN),
                         Expand(S, prk, r.value, KEY_LEN), Expand(S, prk, i.value, IV_LEN)))
    else None
  }

  function ContextFromDsrk(S: Suite, dsrk: Bytes, sender: Bytes, recipient: Bytes, context: Bytes): Option<OscoreContext> {
    DeriveContext(S, MasterSecret(S, dsrk), MasterSalt(S, dsrk), sender, recipient, context)
  }

  /** The two parties of a pair: what one sends with, the other receives with. */
  predicate Mirrored(a: OscoreContext, b: OscoreContext) {
    && a.senderId == b.recipientId && a.recipientId == b.senderId && a.senderKey == b.recipientKey
    && a.recipientKey == b.senderKey && a.commonIv == b.commonIv
  }

  /** Swapped identifiers swap the keys and keep the Common IV. */
  lemma SwapMirrors(S: Suite, dsrk: Bytes, x: Bytes, y: Bytes, context: Bytes)
    ensures var a, b := ContextFromDsrk(S, dsrk, x, y, context), ContextFromDsrk(S, dsrk, y, x, context);
            (a.Some? <==> b.Some?) && (a.Some? ==> Mirrored(a.value, b.value))
  {
    hide Info, Expand, Extract, MasterSecret, MasterSalt;
  }

  /** The three derivations of one context use different info arrays, for different identifiers. */
  lemma InfosDiffer(x: Bytes, y: Bytes, context: Bytes)
    requires KeyInfo(x, context).Some? && KeyInfo(y, context).Some? && IvInfo(context).Some?
    ensures KeyInfo(x, context) == KeyInfo(y, context) <==> x == y
    ensures KeyInfo(x, context) != IvInfo(context)
  {
    hide Info, Ascii;
    if KeyInfo(x, context) == KeyInfo(y, context) {
      InfoInjective(x, context, AEAD_ALG, Ascii("Key"), KEY_LEN, y, context, AEAD_ALG, Ascii("Key"), KEY_LEN);
    }
    if KeyInfo(x, context) == IvInfo(context) {
      InfoInjective(x, context, AEAD_ALG, Ascii("Key"), KEY_LEN, [], context, AEAD_ALG, Ascii("IV"), IV_LEN);
    }
  }

  /** bk_oscore_ctx, filled field by field; identifiers are one byte and the id context is empty. */
  class BkContext {
    var masterSecret: Bytes
    var masterSalt: Bytes
    var senderKey: Bytes
    var recipientKey: Bytes
    var commonIv: Bytes
    var senderId: byte
    var recipientId: byte

    ghost function View(): OscoreContext
      reads this
    {
      OscoreContext(masterSecret, masterSalt, [senderId], [recipientId], [], senderKey, recipientKey, commonIv)
    }

    /** bk_derive_oscore_context: the context Python derives from the same inputs. */
    method DeriveContextC(S: Suite, ms: Bytes, salt: Bytes, sender: byte, recipient: byte)
      requires LawfulHash(S)
      modifies this
      ensures DeriveContext(S, ms, salt, [sender], [recipient], []) == Some(View())
    {
      hide LawfulHash, Expand, Info, Ascii;
      var prk := Extract(S, salt, ms);
      var info := InfoC([sender], Ascii("Key"), KEY_LEN);
      senderKey := ExpandC(S, prk, info, KEY_LEN);
      info := InfoC([recipient], Ascii("Key"), KEY_LEN);
      recipientKey := ExpandC(S, prk, info, KEY_LEN);
      info := InfoC([], Ascii("IV"), IV_LEN);
      commonIv := ExpandC(S, prk, info, IV_LEN);
      masterSecret := ms;
      masterSalt := salt;
      senderId := sender;
      recipientId := recipient;
    }

    /** bk_oscore_ctx_from_dsrk: refuses a short root key, which Python does not; otherwise the same context. */
    method FromDsrkC(S: Suite, dsrk: Bytes, sender: byte, recipient: byte) returns (ok: bool)
      requires LawfulHash(S)
      modifies this
      ensures ok <==> |dsrk| >= 32
      ensures ok ==> ContextFromDsrk(S, dsrk, [sender], [recipient], []) == Some(View())
    {
      hide LawfulHash, Expand, Ascii;
      if |dsrk| < 32 {
        return false;
      }
      var ms := ExpandC(S, dsrk, Ascii("OSCORE Master Secret"), MS_LEN);
      var salt := ExpandC(S, dsrk, Ascii("OSCORE Master Salt"), SALT_LEN);
      DeriveContextC(S, ms, salt, sender, recipient);
      ok := true;
    }
  }

  // ------------------------------------------------------------------ nonce and associated data

  const PIV_LEN: nat := 5
  const PIV_LIMIT: nat := 0x100_0000_0000
  const ID_MAX: nat := 7

  function XorSeq(a: Bytes, b: Bytes): (c: Bytes)
    requires |a| == |b|
    ensures |c| == |a|
  {
    seq(|a|, i requires 0 <= i < |a| => a[i] ^ b[i])
  }

  /** The nonce before it is masked: identifier length, padded identifier, partial IV. */
  function Partial(id: Bytes, piv: nat): (p: Bytes)
    requires |id| <= ID_MAX
    ensures |p| == 13
  {
    [Octet(|id|)] + (Zeros(ID_MAX - |id|) + id) + Digits(piv, PIV_LEN)
  }

  /** None stands for the exceptions: the identifier is too long, or the partial IV does not fit five bytes. */
  function Nonce(iv: Bytes, id: Bytes, piv: nat): Option<Bytes> {
    if piv >= PIV_LIMIT || |id| > ID_MAX then None
    else Some(var n := if |iv| < 13 then |iv| else 13; XorSeq(Partial(id, piv)[..n], iv[..n]))
  }

  function Aad(kid: Bytes, piv: nat): Bytes {
    Ascii("oscore-lite|") + [Octet(AEAD_ALG)] + Ascii("|") + kid + Ascii("|") + Digits(piv, PIV_LEN)
  }

  lemma {:induction false} PartialInjective(id: Bytes, piv: nat, id': Bytes, piv': nat)
    requires |id| <= ID_MAX && |id'| <= ID_MAX && piv < PIV_LIMIT && piv' < PIV_LIMIT
    requires Partial(id, piv) == Partial(id', piv')
    ensures id == id' && piv == piv'
  {
    hide Octet, Digits;
    var a, b := Zeros(ID_MAX - |id|) + id, Zeros(ID_MAX - |id'|) + id';
    ConcatSplits([Octet(|id|)] + a, Digits(piv, PIV_LEN), [Octet(|id'|)] + b, Digits(piv', PIV_LEN));
    ConcatSplits([Octet(|id|)], a, [Octet(|id'|)], b);
    assert [Octet(|id|)][0] == [Octet(|id'|)][0];
    SameOctet(|id|, |id'|);
    ConcatSplits(Zeros(ID_MAX - |id|), id, Zeros(ID_MAX - |id'|), id');
    DigitsSame(piv, piv');
  }

  lemma DigitsSame(m: nat, n: nat)
    requires m < PIV_LIMIT && n < PIV_LIMIT && Digits(m, PIV_LEN) == Digits(n, PIV_LEN)
    ensures m == n
  {
    assert Pow256(PIV_LEN) == PIV_LIMIT by { Pow256Of5(); }
    DigitsRoundTrip(m, PIV_LEN);
    DigitsRoundTrip(n, PIV_LEN);
  }

  lemma Pow256Of5()
    ensures Pow256(5) == PIV_LIMIT
  {
  }

  lemma RawXorCancels(a: byte, b: byte, k: byte)
    ensures a ^ k == b ^ k <==> a == b
  {
  }

  lemma {:induction false} XorInjective(a: Bytes, b: Bytes, k: Bytes)
    requires |a| == |b| == |k| && XorSeq(a, k) == XorSeq(b, k)
    ensures a == b
  {
    forall i | 0 <= i < |a| ensures a[i] == b[i] {
      assert XorSeq(a, k)[i] == XorSeq(b, k)[i];
      RawXorCancels(a[i], b[i], k[i]);
    }
  }

  /** Under one Common IV, different identifiers or partial IVs give different nonces. */
  lemma {:induction false} NonceInjective(iv: Bytes, id: Bytes, piv: nat, id': Bytes, piv': nat)
    requires |iv| == IV_LEN && Nonce(iv, id, piv).Some? && Nonce(iv, id', piv').Some?
    ensures Nonce(iv, id, piv) == Nonce(iv, id', piv') <==> id == id' && piv == piv'
  {
    hide XorSeq, Partial;
    var a, b := Partial(id, piv), Partial(id', piv');
    assert a[..13] == a && b[..13] == b && iv[..13] == iv;
    if Nonce(iv, id, piv) == Nonce(iv, id', piv') {
      XorInjective(a, b, iv);
      PartialInjective(id, piv, id', piv');
    }
  }

  // ------------------------------------------------------------------ protect and unprotect

  /** AES-CCM with an eight-byte tag; None is a raised exception. */
  datatype Ccm = Ccm(
    encrypt: (Bytes, Bytes, Bytes, Bytes) -> Option<Bytes>,     // key, nonce, payload, associated data
    decrypt: (Bytes, Bytes, Bytes, Bytes) -> Option<Bytes>)     // key, nonce, ciphertext, associated data

  ghost predicate LawfulCcm(E: Ccm) {
    forall k, n, p, a :: E.encrypt(k, n, p, a).Some? ==> E.decrypt(k, n, E.encrypt(k, n, p, a).value, a) == Some(p)
  }

  function Protect(E: Ccm, c: OscoreContext, payload: Bytes, piv: nat): Option<Bytes> {
    var nonce := Nonce(c.commonIv, c.senderId, piv);
    if nonce.None? then None else
    var ct := E.encrypt(c.senderKey, nonce.value, payload, Aad(c.senderId, piv));
    if ct.None? then None else Some([Octet(|c.senderId|)] + c.senderId + Digits(piv, PIV_LEN) + ct.value)
  }

  /** A Python slice. */
  function Slice(b: Bytes, from: nat, to: nat): Bytes {
    if from >= |b| || to <= from then [] else if to > |b| then b[from..] else b[from..to]
  }

  function Unprotect(E: Ccm, c: OscoreContext, message: Bytes): Option<Bytes> {
    if |message| == 0 then None else
    var idLen := message[0] as int;
    var kid := Slice(message, 1, 1 + idLen);
    var piv := FromDigits(Slice(message, 1 + idLen, 1 + idLen + PIV_LEN));
    var ct := Slice(message, 1 + idLen + PIV_LEN, |message|);
    if kid != c.recipientId then None else
    var nonce := Nonce(c.commonIv, kid, piv);
    if nonce.None? then None else E.decrypt(c.recipientKey, nonce.value, ct, Aad(kid, piv))
  }

  lemma Pieces(h: Bytes, a: Bytes, b: Bytes, c: Bytes)
    ensures var m := h + a + b + c;
            && Slice(m, |h|, |h| + |a|) == a && Slice(m, |h| + |a|, |h| + |a| + |b|) == b
            && Slice(m, |h| + |a| + |b|, |m|) == c
  {
  }

  lemma {:induction false} HeaderParses(id: Bytes, piv: nat, ct: Bytes)
    requires |id| <= ID_MAX && piv < PIV_LIMIT
    ensures var m := [Octet(|id|)] + id + Digits(piv, PIV_LEN) + ct;
            && m[0] as int == |id| && Slice(m, 1, 1 + |id|) == id
            && FromDigits(Slice(m, 1 + |id|, 1 + |id| + PIV_LEN)) == piv
            && Slice(m, 1 + |id| + PIV_LEN, |m|) == ct
  {
    hide Octet, Digits, FromDigits, Slice;
    OctetValue(|id|);
    var d := Digits(piv, PIV_LEN);
    var m := [Octet(|id|)] + id + d + ct;
    assert m[0] == Octet(|id|);
    Pieces([Octet(|id|)], id, d, ct);
    Pow256Of5();
    DigitsRoundTrip(piv, PIV_LEN);
  }

  /** Unprotecting with the mirrored context undoes protecting. */
  lemma {:induction false} RoundTrip(E: Ccm, a: OscoreContext, b: OscoreContext, payload: Bytes, piv: nat)
    requires LawfulCcm(E) && Mirrored(a, b)
    requires Protect(E, a, payload, piv).Some?
    ensures Unprotect(E, b, Protect(E, a, payload, piv).value) == Some(payload)
  {
    hide Aad, Digits, FromDigits, Slice, Nonce, Octet;
    var nonce := Nonce(a.commonIv, a.senderId, piv);
    assert |a.senderId| <= ID_MAX && piv < PIV_LIMIT by { NonceBounds(a.commonIv, a.senderId, piv); }
    HeaderParses(a.senderId, piv, E.encrypt(a.senderKey, nonce.value, payload, Aad(a.senderId, piv)).value);
  }

  lemma NonceBounds(iv: Bytes, id: Bytes, piv: nat)
    ensures Nonce(iv, id, piv).Some? <==> |id| <= ID_MAX && piv < PIV_LIMIT
  {
  }

  /** Protecting succeeds exactly for identifiers of at most seven bytes, partial IVs below 2^40 and payloads the cipher
      takes. */
  lemma ProtectSucceeds(E: Ccm, c: OscoreContext, payload: Bytes, piv: nat)
    ensures Protect(E, c, payload, piv).Some?
            <==> |c.senderId| <= ID_MAX && piv < PIV_LIMIT
                 && E.encrypt(c.senderKey, Nonce(c.commonIv, c.senderId, piv).value, payload, Aad(c.senderId, piv)).Some?
  {
    hide Aad, Digits, Nonce, Octet;
    NonceBounds(c.commonIv, c.senderId, piv);
  }

  /** First contact: two parties with the same root key and swapped identifiers understand each other, both ways. */
  lemma {:induction false} FirstContact(S: Suite, E: Ccm, dsrk: Bytes, x: Bytes, y: Bytes, context: Bytes, payload: Bytes, piv: nat)
    requires LawfulCcm(E)
    requires ContextFromDsrk(S, dsrk, x, y, context).Some?
    requires Protect(E, ContextFromDsrk(S, dsrk, x, y, context).value, payload, piv).Some?
    ensures ContextFromDsrk(S, dsrk, y, x, context).Some?
    ensures Unprotect(E, ContextFromDsrk(S, dsrk, y, x, context).value,
                      Protect(E, ContextFromDsrk(S, dsrk, x, y, context).value, payload, piv).value) == Some(payload)
  {
    hide Protect, Unprotect, ContextFromDsrk, LawfulCcm;
    SwapMirrors(S, dsrk, x, y, context);
    RoundTrip(E, ContextFromDsrk(S, dsrk, x, y, context).value, ContextFromDsrk(S, dsrk, y, x, context).value, payload, piv);
  }

  // ------------------------------------------------------------------ contexts, nonces and associated data, spelled out

  /** "Key" and "IV" in ASCII. */
  lemma Kinds()
    ensures Ascii("Key") == [0x4B, 0x65, 0x79] && Ascii("IV") == [0x49, 0x56]
  {
    hide Ascii;
    AsciiIs("Key", [0x4B, 0x65, 0x79]);
    AsciiIs("IV", [0x49, 0x56]);
  }

  /** The info arrays for short fields: algorithm 10, sixteen octets of key, thirteen of IV and an empty identifier for it. */
  function KeyArray(id: Bytes, context: Bytes): Bytes {
    [0x85, HeadOctet(0x40, |id|)] + id + [HeadOctet(0x40, |context|)] + context + [Octet(10)]
    + [HeadOctet(0x60, 3)] + [0x4B, 0x65, 0x79] + [Octet(16)]
  }

  function IvArray(context: Bytes): Bytes {
    [0x85, HeadOctet(0x40, 0)] + [] + [HeadOctet(0x40, |context|)] + context + [Octet(10)]
    + [HeadOctet(0x60, 2)] + [0x49, 0x56] + [Octet(13)]
  }

  /** A context: the PRK is extracted from the master secret with the salt, the sender key is derived from the sender's
      identifier, the recipient key from the recipient's, and the Common IV from none. */
  lemma ContextMeans(S: Suite, ms: Bytes, salt: Bytes, sender: Bytes, recipient: Bytes, context: Bytes)
    requires |sender| < 24 && |recipient| < 24 && |context| < 24
    ensures DeriveContext(S, ms, salt, sender, recipient, context)
         == Some(OscoreContext(ms, salt, sender, recipient, context,
                               Take(S.hmac(S.hmac(salt, ms), KeyArray(sender, context) + [0x01]), 16),
                               Take(S.hmac(S.hmac(salt, ms), KeyArray(recipient, context) + [0x01]), 16),
                               Take(S.hmac(S.hmac(salt, ms), IvArray(context) + [0x01]), 13)))
  {
    Kinds();
    hide Octet, HeadOctet, Ascii, Info, Expand, Take;
    InfoOctets(sender, context, 10, [0x4B, 0x65, 0x79], 16);
    InfoOctets(recipient, context, 10, [0x4B, 0x65, 0x79], 16);
    InfoOctets([], context, 10, [0x49, 0x56], 13);
    var prk := S.hmac(salt, ms);
    KdfIsExpand(S, prk, KeyArray(sender, context), 16);
    KdfIsExpand(S, prk, KeyArray(recipient, context), 16);
    KdfIsExpand(S, prk, IvArray(context), 13);
  }

  lemma PartialMeans(id: Bytes, piv: nat)
    requires |id| <= 7 && piv < 0x100_0000_0000
    ensures var p := Partial(id, piv);
            && p[0] as int == |id| && p[8 - |id|..8] == id && FromDigits(p[8..]) == piv
            && forall k | 1 <= k < 8 - |id| :: p[k] == 0
  {
    hide Octet, Digits, FromDigits;
    OctetValue(|id|);
    Pow256Of5();
    DigitsRoundTrip(piv, 5);
    assert Partial(id, piv)[8..] == Digits(piv, 5);
  }

  lemma Masked(p: Bytes, iv: Bytes)
    requires |p| == 13 && |iv| == 13
    ensures XorSeq(p[..13], iv[..13]) == XorSeq(p, iv)
  {
    assert p[..13] == p && iv[..13] == iv;
  }

  /** The nonce: before it is masked, the identifier's length, the identifier after zeros in seven octets, and the partial IV
      in five, most significant first. */
  lemma NonceMeans(iv: Bytes, id: Bytes, piv: nat) returns (p: Bytes)
    requires |iv| == 13 && |id| <= 7 && piv < 0x100_0000_0000
    ensures |p| == 13 && p[0] as int == |id| && p[8 - |id|..8] == id && FromDigits(p[8..]) == piv
    ensures forall k | 1 <= k < 8 - |id| :: p[k] == 0
    ensures var n := Nonce(iv, id, piv); n.Some? && |n.value| == 13 && forall k | 0 <= k < 13 :: n.value[k] == p[k] ^ iv[k]
  {
    p := Partial(id, piv);
    PartialMeans(id, piv);
    Masked(p, iv);
    hide Partial, FromDigits;
  }

  /** The associated data: "oscore-lite|", the algorithm, and between bars the identifier and the partial IV. */
  lemma AadMeans(kid: Bytes, piv: nat)
    ensures Aad(kid, piv)
         == [0x6F, 0x73, 0x63, 0x6F, 0x72, 0x65, 0x2D, 0x6C, 0x69, 0x74, 0x65, 0x7C] + [Octet(10)] + [0x7C] + kid + [0x7C]
            + Digits(piv, 5)
  {
    hide Ascii, Octet, Digits;
    AsciiIs("oscore-lite|", [0x6F, 0x73, 0x63, 0x6F, 0x72, 0x65, 0x2D, 0x6C, 0x69, 0x74, 0x65, 0x7C]);
    AsciiIs("|", [0x7C]);
  }

  /** What is sent: the length of the identifier, the identifier, the partial IV, and the payload encrypted under the sender
      key. */
  lemma ProtectMeans(E: Ccm, c: OscoreContext, payload: Bytes, piv: nat)
    ensures var m := Protect(E, c, payload, piv);
            m.Some? ==>
              exists n, ct ::
                && Nonce(c.commonIv, c.senderId, piv) == Some(n)
                && E.encrypt(c.senderKey, n, payload, Aad(c.senderId, piv)) == Some(ct)
                && m.value == [Octet(|c.senderId|)] + c.senderId + Digits(piv, 5) + ct
  {
    hide Nonce, Aad, Octet, Digits;
  }

  /** Unprotecting gives a payload if and only if the message names the recipient, and its ciphertext decrypts to that payload
      under the recipient key and the nonce and associated data of the named identifier and partial IV. */
  lemma UnprotectMeans(E: Ccm, c: OscoreContext, m: Bytes, payload: Bytes)
    requires |m| >= 1 && |m| >= 6 + m[0] as int
    ensures var n := m[0] as int;
            var kid, piv, ct := m[1..1 + n], FromDigits(m[1 + n..6 + n]), m[6 + n..];
            Unprotect(E, c, m) == Some(payload)
            <==> kid == c.recipientId
                 && exists x :: Nonce(c.commonIv, kid, piv) == Some(x)
                                && E.decrypt(c.recipientKey, x, ct, Aad(kid, piv)) == Some(payload)
  {
    hide Nonce, Aad, FromDigits;
    var n := m[0] as int;
    SliceIs(m, 1, 1 + n);
    SliceIs(m, 1 + n, 6 + n);
    SliceIs(m, 6 + n, |m|);
    assert m[6 + n..|m|] == m[6 + n..];
    hide Slice;
  }

  lemma SliceIs(b: Bytes, from: nat, to: nat)
    requires from <= to <= |b|
    ensures Slice(b, from, to) == b[from..to]
  {
  }
}
