/** The XWING hybrid KEM of method 4: ML-KEM-768 and X25519 joined by a SHA-256 combiner. */
module XWing {
  import opened Primitives

  const XPK: nat := 1216
  const XSK: nat := 2432
  const XCT: nat := 1120

  /** Randomness of a key pair (ML-KEM coins and X25519 secret) or of an encapsulation (coins and ephemeral secret). */
  datatype Coins = Coins(kem: Bytes, x: Bytes)

  function Keypair(S: Suite, r: Coins): Option<KemPair> {
    match S.kemKeypair(r.kem)
    case None => None
    case Some(k) => Some(KemPair(k.pk + S.base(r.x), k.sk + r.x))
  }

  function Combine(S: Suite, ssM: Bytes, ssX: Bytes, ctX: Bytes, pkX: Bytes): Bytes {
    S.sha256(ssM + ssX + ctX + pkX + Ascii("XWING-combiner-v1"))
  }

  function Encaps(S: Suite, pk: Bytes, r: Coins): Option<Encapsulation>
    requires |pk| == XPK
  {
    match S.kemEnc(pk[..MLKEM_PK], r.kem)
    case None => None
    case Some(e) =>
      match S.dh(r.x, pk[MLKEM_PK..])
      case None => None
      case Some(ssX) =>
        Some(Encapsulation(e.ct + S.base(r.x), Combine(S, e.ss, ssX, S.base(r.x), pk[MLKEM_PK..])))
  }

  function Decaps(S: Suite, ct: Bytes, sk: Bytes): Option<Bytes>
    requires |ct| == XCT && |sk| == XSK
  {
    match S.kemDec(ct[..MLKEM_CT], sk[..MLKEM_SK])
    case None => None
    case Some(ssM) =>
      match S.dh(sk[MLKEM_SK..], ct[MLKEM_CT..])
      case None => None
      case Some(ssX) => Some(Combine(S, ssM, ssX, ct[MLKEM_CT..], S.base(sk[MLKEM_SK..])))
  }

  /** A key pair this KEM can have generated. */
  ghost predicate IsPair(S: Suite, pk: Bytes, sk: Bytes) {
    exists r: Coins :: |r.x| == X_LEN && Keypair(S, r) == Some(KemPair(pk, sk))
  }

  lemma {:induction false} PairLengths(S: Suite, pk: Bytes, sk: Bytes)
    requires Lawful(S) && IsPair(S, pk, sk)
    ensures |pk| == XPK && |sk| == XSK
  {
  }

  lemma {:induction false} EncapsLengths(S: Suite, pk: Bytes, r: Coins)
    requires Lawful(S) && |pk| == XPK && Encaps(S, pk, r).Some?
    ensures |Encaps(S, pk, r).value.ct| == XCT && |Encaps(S, pk, r).value.ss| == HASH_LEN
  {
  }

  /** Decapsulation undoes encapsulation: the holder of the secret key gets the sender's shared secret. */
  lemma {:induction false} DecapsUndoesEncaps(S: Suite, pk: Bytes, sk: Bytes, r: Coins)
    requires Lawful(S) && IsPair(S, pk, sk) && |pk| == XPK && |sk| == XSK && Encaps(S, pk, r).Some?
    ensures |Encaps(S, pk, r).value.ct| == XCT
    ensures Decaps(S, Encaps(S, pk, r).value.ct, sk) == Some(Encaps(S, pk, r).value.ss)
  {
    EncapsLengths(S, pk, r);
    var g: Coins :| |g.x| == X_LEN && Keypair(S, g) == Some(KemPair(pk, sk));
    var k, e := S.kemKeypair(g.kem).value, S.kemEnc(pk[..MLKEM_PK], r.kem).value;
    ConcatSplits(pk[..MLKEM_PK], pk[MLKEM_PK..], k.pk, S.base(g.x));
    ConcatSplits(sk[..MLKEM_SK], sk[MLKEM_SK..], k.sk, g.x);
    var ct := Encaps(S, pk, r).value.ct;
    ConcatSplits(ct[..MLKEM_CT], ct[MLKEM_CT..], e.ct, S.base(r.x));
    assert S.kemDec(ct[..MLKEM_CT], sk[..MLKEM_SK]) == Some(e.ss);
    assert S.dh(sk[MLKEM_SK..], ct[MLKEM_CT..]) == S.dh(r.x, pk[MLKEM_PK..]);
  }
}
