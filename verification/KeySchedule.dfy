/** The bootstrap key schedule, in C (bootstrap.c) and in Python (keyschedule.py): one HKDF and PRF+ chain, one encoding of
    the OSCORE info array, and where the two implementations agree. */
module KeySchedule {
  import opened Primitives
  import opened Hkdf

  // ------------------------------------------------------------------ the loops of the two languages

  /** The most octets Python can make: its counter must fit one byte. */
  const PY_MAX: nat := 8160

  /** hkdf_expand in Python: whole blocks are appended and the result is cut; counter 256 raises. */
  method ExpandPy(S: Suite, prk: Bytes, info: Bytes, len: nat) returns (okm: Option<Bytes>)
    requires LawfulHash(S)
    ensures okm == if len <= PY_MAX then Some(Expand(S, prk, info, len)) else None
  {
    hide Octet, LawfulHash, Take;
    var acc: Bytes, t: Bytes, counter := [], [], 1;
    while |acc| < len
      invariant 1 <= counter <= 256 && t == Block(S, prk, info, counter - 1)
      invariant acc == Blocks(S, prk, info, counter - 1) && |acc| == HASH_LEN * (counter - 1)
      invariant counter > 1 ==> HASH_LEN * (counter - 2) < len
      decreases len - |acc|
    {
      if counter >= 256 {
        return None;
      }
      t := S.hmac(prk, t + info + [Octet(counter)]);
      acc := acc + t;
      BlocksLength(S, prk, info, counter);
      counter := counter + 1;
    }
    assert BlockCount(len) == counter - 1;
    okm := Some(acc[..len]);
    CutIsTake(acc, len);
  }

  lemma CutIsTake(b: Bytes, n: nat)
    requires n <= |b|
    ensures Take(b, n) == b[..n]
  {
  }

  /** The input S of the RFC 5295 PRF+: label, a zero octet, optional data and the output length. */
  function PrfInput(tag: Bytes, opt: Bytes, len: nat): Bytes { tag + [0] + opt + Be16(len) }

  function PrfPlus(S: Suite, key: Bytes, tag: Bytes, opt: Bytes, len: nat): Bytes {
    Expand(S, key, PrfInput(tag, opt, len), len)
  }

  function ResultC(S: Suite, key: Bytes, tag: Bytes, len: nat): Option<Bytes> {
    if |CString(tag)| <= 253 && len <= 0xFFFF then Some(PrfPlus(S, key, CString(tag), [], len)) else None
  }

  function ResultPy(S: Suite, key: Bytes, tag: Bytes, opt: Bytes, len: nat): Option<Bytes> {
    if len <= PY_MAX then Some(PrfPlus(S, key, tag, opt, len)) else None
  }

  method PrfPlusPy(S: Suite, key: Bytes, tag: Bytes, opt: Bytes, len: nat) returns (out: Option<Bytes>)
    requires LawfulHash(S)
    ensures out == ResultPy(S, key, tag, opt, len)
  {
    hide LawfulHash, Expand, PrfInput;
    if len > 0xFFFF {
      return None;                                   // struct.pack
    }
    out := ExpandPy(S, key, PrfInput(tag, opt, len), len);
  }

  /** Inputs of different labels or lengths differ, as labels have no zero octet. */
  lemma {:induction false} PrfInputInjective(tag: Bytes, opt: Bytes, len: nat, tag': Bytes, opt': Bytes, len': nat)
    requires 0 !in tag && 0 !in tag' && len <= 0xFFFF && len' <= 0xFFFF
    ensures PrfInput(tag, opt, len) == PrfInput(tag', opt', len') <==> tag == tag' && opt == opt' && len == len'
  {
    hide Be16;
    if PrfInput(tag, opt, len) == PrfInput(tag', opt', len') {
      assert PrfInput(tag, opt, len) == tag + [0] + (opt + Be16(len));
      assert PrfInput(tag', opt', len') == tag' + [0] + (opt' + Be16(len'));
      FirstZero(tag, opt + Be16(len), tag', opt' + Be16(len'));
      ConcatSplits(opt, Be16(len), opt', Be16(len'));
      Be16Injective(len, len');
    }
  }

  lemma {:induction false} FirstZero(a: Bytes, x: Bytes, b: Bytes, y: Bytes)
    requires 0 !in a && 0 !in b
    requires a + [0] + x == b + [0] + y
    ensures a == b && x == y
  {
    var u, v := a + [0] + x, b + [0] + y;
    assert u[|a|] == 0 && v[|b|] == 0;
    ConcatSplits(a + [0], x, b + [0], y);
    ConcatSplits(a, [0], b, [0]);
  }

  lemma Be16Injective(m: nat, n: nat)
    requires m <= 0xFFFF && n <= 0xFFFF
    ensures Be16(m) == Be16(n) <==> m == n
  {
    hide Be16, FromBe16;
    Be16RoundTrip(m, []);
    Be16RoundTrip(n, []);
  }

  /** What strlen sees of a label. */
  function CString(tag: Bytes): (s: Bytes)
    ensures s <= tag && 0 !in s
  {
    if |tag| == 0 || tag[0] == 0 then [] else [tag[0]] + CString(tag[1..])
  }

  lemma {:induction false} CStringWhole(tag: Bytes)
    requires 0 !in tag
    ensures CString(tag) == tag
  {
    if |tag| > 0 {
      CStringWhole(tag[1..]);
    }
  }

  /** rfc5295_prf_plus: the label must leave room in a 256-byte buffer; the counter wraps instead of failing. */
  method PrfPlusC(S: Suite, key: Bytes, tag: Bytes, len: nat) returns (out: Option<Bytes>)
    requires LawfulHash(S)
    ensures out == ResultC(S, key, tag, len)
  {
    hide LawfulHash, Expand, Octet;
    var l := CString(tag);
    if |l| + 1 + 2 > 256 || len > 0xFFFF {
      return None;
    }
    var s := l + [0, Octet(len / 256 % 256), Octet(len % 256)];
    OctetWraps(len);
    OctetWraps(len / 256);
    assert s == PrfInput(l, [], len);
    var okm := ExpandC(S, key, s, len);
    out := Some(okm);
  }

  /** For labels without a zero octet the two agree, failures included, exactly when the label fits the C buffer for
      lengths Python can serve, and when the length is one both or neither can serve. */
  lemma PrfParity(S: Suite, key: Bytes, tag: Bytes, len: nat)
    requires 0 !in tag
    ensures ResultC(S, key, tag, len) == ResultPy(S, key, tag, [], len)
            <==> (len <= PY_MAX && |tag| <= 253) || (PY_MAX < len <= 0xFFFF && |tag| > 253) || len > 0xFFFF
  {
    hide PrfPlus;
    CStringWhole(tag);
  }

  // ------------------------------------------------------------------ OSCORE master secret and salt

  const MS_LEN: nat := 16
  const SALT_LEN: nat := 8
  const KEY_LEN: nat := 16
  const IV_LEN: nat := 13
  const AEAD_ALG: nat := 10

  function MasterSecret(S: Suite, dsrk: Bytes): Bytes { Expand(S, dsrk, Ascii("OSCORE Master Secret"), MS_LEN) }

  function MasterSalt(S: Suite, dsrk: Bytes): Bytes { Expand(S, dsrk, Ascii("OSCORE Master Salt"), SALT_LEN) }

  // ------------------------------------------------------------------ the info array

  /** A CBOR initial byte: major type and a value below 24. */
  function Head(major: byte, n: nat): byte { major | Octet(n) }

  function CborBstr(b: Bytes): Option<Bytes> {
    if |b| < 24 then Some([Head(0x40, |b|)] + b) else if |b| < 256 then Some([0x58, Octet(|b|)] + b) else None
  }

  function CborTstr(b: Bytes): Option<Bytes> {
    if |b| < 24 then Some([Head(0x60, |b|)] + b) else None
  }

  function CborUint(n: nat): Option<Bytes> {
    if n < 24 then Some([Octet(n)]) else if n < 256 then Some([0x18, Octet(n)]) else None
  }

  /** _oscore_info: None is a raised ValueError. */
  function Info(id: Bytes, context: Bytes, alg: nat, kind: Bytes, len: nat): Option<Bytes> {
    var i, c, a, t, l := CborBstr(id), CborBstr(context), CborUint(alg), CborTstr(kind), CborUint(len);
    if i.Some? && c.Some? && a.Some? && t.Some? && l.Some?
    then Some([0x85] + i.value + c.value + a.value + t.value + l.value) else None
  }

  lemma RawHeads(x: byte, y: byte, major: byte)
    requires x < 24 && y < 24 && (major == 0x40 || major == 0x60)
    ensures (major | x == major | y <==> x == y) && major | x != 0x58 && x != 0x18
  {
  }

  lemma SmallOctet(n: nat)
    requires n < 24
    ensures Octet(n) < 24
  {
    OctetValue(n);
  }

  lemma SameOctet(m: nat, n: nat)
    requires m < 256 && n < 256
    ensures Octet(m) == Octet(n) <==> m == n
  {
    OctetValue(m);
    OctetValue(n);
  }

  lemma HeadInjective(major: byte, m: nat, n: nat)
    requires m < 24 && n < 24 && (major == 0x40 || major == 0x60)
    ensures Head(major, m) == Head(major, n) <==> m == n
    ensures Head(major, m) != 0x58 && Octet(m) != 0x18
  {
    hide Octet;
    SmallOctet(m);
    SmallOctet(n);
    SameOctet(m, n);
    RawHeads(Octet(m), Octet(n), major);
  }

  /** A byte string can be told from what follows it. */
  lemma {:induction false} BstrDecodes(a: Bytes, b: Bytes, x: Bytes, y: Bytes)
    requires |a| < 256 && |b| < 256 && CborBstr(a).value + x == CborBstr(b).value + y
    ensures a == b && x == y
  {
    hide Octet, Head;
    var u, v := CborBstr(a).value, CborBstr(b).value;
    assert (u + x)[0] == u[0] && (v + y)[0] == v[0];
    var m, n := if |a| < 24 then |a| else 0, if |b| < 24 then |b| else 0;
    HeadInjective(0x40, m, n);
    HeadInjective(0x40, n, m);
    if |a| >= 24 && |b| >= 24 {
      assert (u + x)[1] == Octet(|a|) && (v + y)[1] == Octet(|b|);
      SameOctet(|a|, |b|);
    }
    assert |a| == |b|;
    ConcatSplits(u, x, v, y);
    var k := if |a| < 24 then 1 else 2;
    assert u[k..] == a && v[k..] == b;
  }

  lemma {:induction false} TstrDecodes(a: Bytes, b: Bytes, x: Bytes, y: Bytes)
    requires |a| < 24 && |b| < 24 && CborTstr(a).value + x == CborTstr(b).value + y
    ensures a == b && x == y
  {
    hide Octet, Head;
    var u, v := CborTstr(a).value, CborTstr(b).value;
    assert (u + x)[0] == u[0] && (v + y)[0] == v[0];
    HeadInjective(0x60, |a|, |b|);
    ConcatSplits(u, x, v, y);
    assert u[1..] == a && v[1..] == b;
  }

  lemma {:induction false} UintDecodes(m: nat, n: nat, x: Bytes, y: Bytes)
    requires m < 256 && n < 256 && CborUint(m).value + x == CborUint(n).value + y
    ensures m == n && x == y
  {
    hide Octet;
    var u, v := CborUint(m).value, CborUint(n).value;
    assert (u + x)[0] == u[0] && (v + y)[0] == v[0];
    var p, q := if m < 24 then m else 0, if n < 24 then n else 0;
    HeadInjective(0x40, p, q);
    HeadInjective(0x40, q, p);
    SameOctet(m, n);
    if m >= 24 && n >= 24 {
      assert (u + x)[1] == Octet(m) && (v + y)[1] == Octet(n);
    }
    assert m == n;
    ConcatSplits(u, x, v, y);
  }

  /** The info array is injective in all five fields. */
  lemma {:induction false} InfoInjective(id: Bytes, c: Bytes, alg: nat, kind: Bytes, len: nat,
                                         id': Bytes, c': Bytes, alg': nat, kind': Bytes, len': nat)
    requires Info(id, c, alg, kind, len).Some? && Info(id, c, alg, kind, len) == Info(id', c', alg', kind', len')
    ensures id == id' && c == c' && alg == alg' && kind == kind' && len == len'
  {
    var i, x, a, t, l := CborBstr(id).value, CborBstr(c).value, CborUint(alg).value, CborTstr(kind).value, CborUint(len).value;
    var i', x', a', t', l' :=
      CborBstr(id').value, CborBstr(c').value, CborUint(alg').value, CborTstr(kind').value, CborUint(len').value;
    Regroup(i, x, a, t, l);
    Regroup(i', x', a', t', l');
    SomeSizes(id, c, alg, kind, len);
    SomeSizes(id', c', alg', kind', len');
    hide Info;
    hide CborBstr, CborUint, CborTstr;
    ConcatSplits([0x85], i + (x + (a + (t + (l + [])))), [0x85], i' + (x' + (a' + (t' + (l' + [])))));
    BstrDecodes(id, id', x + (a + (t + (l + []))), x' + (a' + (t' + (l' + []))));
    BstrDecodes(c, c', a + (t + (l + [])), a' + (t' + (l' + [])));
    UintDecodes(alg, alg', t + (l + []), t' + (l' + []));
    TstrDecodes(kind, kind', l + [], l' + []);
    UintDecodes(len, len', [], []);
  }

  lemma Regroup(i: Bytes, x: Bytes, a: Bytes, t: Bytes, l: Bytes)
    ensures [0x85] + i + x + a + t + l == [0x85] + (i + (x + (a + (t + (l + [])))))
  {
  }

  lemma SomeSizes(id: Bytes, c: Bytes, alg: nat, kind: Bytes, len: nat)
    requires Info(id, c, alg, kind, len).Some?
    ensures |id| < 256 && |c| < 256 && alg < 256 && |kind| < 24 && len < 256
  {
  }

  /** oscore_info of the C: one-byte heads, no checks.  It meets the CBOR encoding exactly on short fields. */
  method InfoC(id: Bytes, kind: Bytes, length: nat) returns (buf: Bytes)
    ensures Some(buf) == Info(id, [], AEAD_ALG, kind, length) <==> |id| < 24 && |kind| < 24 && length < 24
  {
    hide Octet, Head;
    buf := [0x85];
    buf := buf + [Head(0x40, |id|)];
    buf := buf + id;
    buf := buf + [0x40];
    buf := buf + [Octet(AEAD_ALG)];
    buf := buf + [Head(0x60, |kind|)];
    buf := buf + kind;
    buf := buf + [Octet(length)];
    assert [Head(0x40, 0)] + [] == [0x40] by { EmptyHead(); }
    assert buf == [0x85] + ([Head(0x40, |id|)] + id) + [0x40] + [Octet(AEAD_ALG)] + ([Head(0x60, |kind|)] + kind) + [Octet(length)];
    InfoLength(id, kind, length);
  }

  /** A longer field costs one more byte of head. */
  lemma InfoLength(id: Bytes, kind: Bytes, length: nat)
    ensures var i := Info(id, [], AEAD_ALG, kind, length);
            i.Some? ==> |i.value| == 6 + |id| + |kind| + (if |id| < 24 then 0 else 1) + (if length < 24 then 0 else 1)
    ensures var i := Info(id, [], AEAD_ALG, kind, length);
            i.Some? ==> |kind| < 24
  {
    hide Octet, Head;
  }

  lemma EmptyHead()
    ensures Head(0x40, 0) == 0x40
  {
  }

  // ------------------------------------------------------------------ the octets of the inputs

  /** The PRF input: the label, a zero, the optional data and the length, most significant octet first. */
  lemma PrfInputOctets(tag: Bytes, opt: Bytes, len: nat)
    requires len <= 0xFFFF
    ensures var x := PrfInput(tag, opt, len);
            var n := |tag| + 1 + |opt|;
            |x| == n + 2 && x[..|tag|] == tag && x[|tag|] == 0 && x[|tag| + 1..n] == opt && 256 * (x[n] as int) + x[n + 1] as int == len
  {
    hide Be16, FromBe16;
    Be16RoundTrip(len, []);
    var x := PrfInput(tag, opt, len);
    assert x[|tag| + 1 + |opt|..] == Be16(len) + [];
    FromBe16Value(x[|tag| + 1 + |opt|..]);
  }

  /** "OSCORE Master Secret", "OSCORE Master Salt", "Key" and "IV" in ASCII. */
  const SECRET_LABEL: Bytes :=
    [0x4F, 0x53, 0x43, 0x4F, 0x52, 0x45, 0x20, 0x4D, 0x61, 0x73, 0x74, 0x65, 0x72, 0x20, 0x53, 0x65, 0x63, 0x72, 0x65, 0x74]
  const SALT_LABEL: Bytes :=
    [0x4F, 0x53, 0x43, 0x4F, 0x52, 0x45, 0x20, 0x4D, 0x61, 0x73, 0x74, 0x65, 0x72, 0x20, 0x53, 0x61, 0x6C, 0x74]

  lemma SecretLabel()
    ensures Ascii("OSCORE Master Secret") == SECRET_LABEL
  {
    hide Ascii;
    AsciiIs("OSCORE Master Secret", SECRET_LABEL);
  }

  lemma SaltLabel()
    ensures Ascii("OSCORE Master Salt") == SALT_LABEL
  {
    hide Ascii;
    AsciiIs("OSCORE Master Salt", SALT_LABEL);
  }

  /** Sixteen octets of master secret and eight of salt, each from one HMAC. */
  lemma MastersMean(S: Suite, dsrk: Bytes)
    ensures MasterSecret(S, dsrk) == Take(S.hmac(dsrk, SECRET_LABEL + [0x01]), 16)
    ensures MasterSalt(S, dsrk) == Take(S.hmac(dsrk, SALT_LABEL + [0x01]), 8)
  {
    SecretLabel();
    SaltLabel();
    hide Ascii, Expand, Take, SECRET_LABEL, SALT_LABEL;
    KdfIsExpand(S, dsrk, SECRET_LABEL, 16);
    KdfIsExpand(S, dsrk, SALT_LABEL, 8);
  }

  /** One octet whose value is base + n. */
  function HeadOctet(base: nat, n: nat): byte { Octet(base + n) }

  lemma RawHead(n: byte)
    requires n < 24
    ensures (0x40 | n) as int == 0x40 + n as int && (0x60 | n) as int == 0x60 + n as int
  {
  }

  lemma HeadValue(n: nat)
    requires n < 24
    ensures Head(0x40, n) as int == 0x40 + Octet(n) as int && Head(0x60, n) as int == 0x60 + Octet(n) as int
  {
    hide Octet;
    SmallOctet(n);
    RawHead(Octet(n));
  }

  lemma OctetIs(h: byte, v: nat)
    requires v < 256 && h as int == v
    ensures h == Octet(v)
  {
    hide Octet;
    NoWrap(v);
    OctetValue(v);
    SameByte(h, Octet(v));
  }

  lemma HeadMeans(n: nat)
    requires n < 24
    ensures Head(0x40, n) == HeadOctet(0x40, n) && Head(0x60, n) == HeadOctet(0x60, n)
  {
    HeadValue(n);
    hide Octet, Head;
    OctetValue(n);
    NoWrap(n);
    OctetIs(Head(0x40, n), 0x40 + n);
    OctetIs(Head(0x60, n), 0x60 + n);
  }

  /** The info array in CBOR: an array of five, the identifier and the context as byte strings, the algorithm as a number, the
      kind as a text string and the length as a number; fields below 24 have heads of one octet. */
  lemma InfoOctets(id: Bytes, context: Bytes, alg: nat, kind: Bytes, len: nat)
    requires |id| < 24 && |context| < 24 && alg < 24 && |kind| < 24 && len < 24
    ensures Info(id, context, alg, kind, len)
         == Some([0x85, HeadOctet(0x40, |id|)] + id + [HeadOctet(0x40, |context|)] + context + [Octet(alg)]
                 + [HeadOctet(0x60, |kind|)] + kind + [Octet(len)])
  {
    hide Octet, Head, HeadOctet;
    HeadMeans(|id|);
    HeadMeans(|context|);
    HeadMeans(|kind|);
    var i, c, a, t, l := CborBstr(id).value, CborBstr(context).value, CborUint(alg).value, CborTstr(kind).value, CborUint(len).value;
    assert i == [HeadOctet(0x40, |id|)] + id && c == [HeadOctet(0x40, |context|)] + context;
    assert t == [HeadOctet(0x60, |kind|)] + kind && a == [Octet(alg)] && l == [Octet(len)];
    assert [0x85] + i + c + a + t + l
        == [0x85, HeadOctet(0x40, |id|)] + id + [HeadOctet(0x40, |context|)] + context + [Octet(alg)]
           + [HeadOctet(0x60, |kind|)] + kind + [Octet(len)];
  }

  /** Longer fields: a byte string up to 255 octets and a number up to 255 have heads of two octets; text strings of 24 octets
      and anything beyond is refused. */
  lemma LongFields(b: Bytes, n: nat)
    ensures 24 <= |b| < 256 ==> CborBstr(b) == Some([0x58, Octet(|b|)] + b)
    ensures 24 <= n < 256 ==> CborUint(n) == Some([0x18, Octet(n)])
    ensures (CborBstr(b).None? <==> |b| >= 256) && (CborTstr(b).None? <==> |b| >= 24) && (CborUint(n).None? <==> n >= 256)
  {
    hide Octet, Head;
  }
}
