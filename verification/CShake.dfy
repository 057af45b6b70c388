/** cSHAKE prefixing (NIST SP 800-185): left_encode, the name and customization prefix, and the position jump that
    stands for its zero padding. */
module CShake {
  import opened Arith
  import opened Primitives
  import opened Sponge
  import opened SpongeContext

  // ------------------------------------------------------------------ left_encode

  /** The least number of bytes, at least one, that hold v. */
  function ByteLen(v: nat): (n: nat)
    ensures n >= 1
  {
    if v < 256 then 1 else 1 + ByteLen(v / 256)
  }

  function LeftEncode(v: nat): Bytes { [Octet(ByteLen(v))] + Digits(v, ByteLen(v)) }

  /** The encoding is minimal: one byte fewer would not hold the value. */
  lemma {:induction false} ByteLenIsMinimal(v: nat)
    ensures v < Pow256(ByteLen(v)) && (ByteLen(v) == 1 || Pow256(ByteLen(v) - 1) <= v)
  {
    if v >= 256 {
      ByteLenIsMinimal(v / 256);
    }
  }

  lemma {:induction false} ByteLenFits(v: nat, k: nat)
    requires v < Pow256(k) && k >= 1
    ensures ByteLen(v) <= k
  {
    if v >= 256 {
      assert v / 256 < Pow256(k - 1);
      ByteLenFits(v / 256, k - 1);
    }
  }

  /** The byte the C loop stores at index i is the i-th big-endian digit. */
  lemma {:induction false} DigitAt(v: nat, n: nat, i: nat)
    requires i < n
    ensures Digits(v, n)[i] == Octet(v / Pow256(n - 1 - i))
  {
    if i < n - 1 {
      DigitAt(v / 256, n - 1, i);
      DivDiv(v, Pow256(n - 2 - i));
    }
  }

  /** The C function: count the significant bytes of a 64-bit value, then store them most significant first. */
  method LeftEncodeC(value: nat) returns (enc: Bytes)
    requires value < WORD
    ensures enc == LeftEncode(value)
  {
    hide Octet;
    var v, n := value, 0;
    ghost var len := ByteLen(value);
    Pow256Of8();
    ByteLenFits(value, 8);
    while v != 0 && n < 8
      invariant 0 <= n <= len <= 8
      invariant if value == 0 then v == 0 && n == 0 else if v == 0 then n == len else n + ByteLen(v) == len
      decreases 8 - n
    {
      v := v / 256;
      n := n + 1;
    }
    if n == 0 {
      n := 1;
    }
    assert n == len;
    enc := [Octet(n)];
    for i := 1 to n + 1
      invariant |enc| == i && enc[0] == Octet(n) && forall j | 1 <= j < i :: enc[j] == Digits(value, n)[j - 1]
    {
      DigitAt(value, n, i - 1);
      enc := enc + [Octet(value / Pow256(n - i))];
    }
    assert enc[1..] == Digits(value, n);
  }

  /** left_encode is prefix-free and injective: what follows it can be told apart from it. */
  lemma {:induction false} LeftEncodeDecodes(v: nat, w: nat, x: Bytes, y: Bytes)
    requires v < WORD && w < WORD && LeftEncode(v) + x == LeftEncode(w) + y
    ensures v == w && x == y
  {
    hide Digits, FromDigits, ByteLen, Octet, Pow256;
    var m, n := ByteLen(v), ByteLen(w);
    Pow256Of8();
    ByteLenFits(v, 8);
    ByteLenFits(w, 8);
    OctetValue(m);
    OctetValue(n);
    assert (LeftEncode(v) + x)[0] == Octet(m) && (LeftEncode(w) + y)[0] == Octet(n);
    ConcatSplits(LeftEncode(v), x, LeftEncode(w), y);
    assert LeftEncode(v)[1..] == Digits(v, m) && LeftEncode(w)[1..] == Digits(w, n);
    ByteLenIsMinimal(v);
    ByteLenIsMinimal(w);
    DigitsRoundTrip(v, m);
    DigitsRoundTrip(w, n);
  }

  // ------------------------------------------------------------------ the prefix

  function EncodeString(s: Bytes): Bytes { LeftEncode(8 * |s|) + s }

  function Prefix(r: nat, name: Bytes, cstm: Bytes): Bytes {
    LeftEncode(r) + EncodeString(name) + EncodeString(cstm)
  }

  function BytePad(x: Bytes, r: nat): Bytes
    requires r > 0
  {
    x + Zeros((r - |x| % r) % r)
  }

  lemma {:induction false} EncodeStringDecodes(s: Bytes, t: Bytes, x: Bytes, y: Bytes)
    requires 8 * |s| < WORD && 8 * |t| < WORD && EncodeString(s) + x == EncodeString(t) + y
    ensures s == t && x == y
  {
    var a, b := LeftEncode(8 * |s|), LeftEncode(8 * |t|);
    assert EncodeString(s) + x == a + (s + x) && EncodeString(t) + y == b + (t + y);
    LeftEncodeDecodes(8 * |s|, 8 * |t|, s + x, t + y);
    ConcatSplits(s, x, t, y);
  }

  /** Name and customization string can be read back from the padded prefix, whatever follows it. */
  lemma {:induction false} PrefixIsInjective(r: nat, name: Bytes, cstm: Bytes, name': Bytes, cstm': Bytes, x: Bytes, y: Bytes)
    requires 0 < r < WORD && 8 * |name| < WORD && 8 * |cstm| < WORD && 8 * |name'| < WORD && 8 * |cstm'| < WORD
    requires BytePad(Prefix(r, name, cstm), r) + x == BytePad(Prefix(r, name', cstm'), r) + y
    ensures name == name' && cstm == cstm' && x == y
  {
    hide LeftEncode, EncodeString;
    var e := LeftEncode(r);
    var z, z' := Zeros((r - |Prefix(r, name, cstm)| % r) % r), Zeros((r - |Prefix(r, name', cstm')| % r) % r);
    var c, c' := EncodeString(cstm), EncodeString(cstm');
    assert BytePad(Prefix(r, name, cstm), r) + x == e + (EncodeString(name) + (c + (z + x)));
    assert BytePad(Prefix(r, name', cstm'), r) + y == e + (EncodeString(name') + (c' + (z' + y)));
    ConcatSplits(e, EncodeString(name) + (c + (z + x)), e, EncodeString(name') + (c' + (z' + y)));
    EncodeStringDecodes(name, name', c + (z + x), c' + (z' + y));
    EncodeStringDecodes(cstm, cstm', z + x, z' + y);
    ConcatSplits(z, x, z', y);
  }

  /** The bit length is computed in 64 bits; the encoding is right exactly for strings below 2^61 bytes. */
  lemma BitLengthWraps(n: nat)
    ensures LeftEncode(8 * n % WORD) == LeftEncode(8 * n) <==> n < 0x2000_0000_0000_0000
  {
    hide LeftEncode;
    var v := 8 * n;
    if v < WORD {
      assert v % WORD == v;
    } else {
      assert v % WORD < WORD;
      LongEncoding(v % WORD, v);
    }
  }

  lemma LongEncoding(v: nat, w: nat)
    requires v < WORD <= w
    ensures |LeftEncode(v)| < |LeftEncode(w)|
  {
    hide Digits;
    Pow256Of8();
    ByteLenFits(v, 8);
    ByteLenIsMinimal(w);
    if ByteLen(w) <= 8 {
      PowMonotone(ByteLen(w), 8);
    }
  }

  lemma {:induction false} PowMonotone(a: nat, b: nat)
    requires a <= b
    ensures Pow256(a) <= Pow256(b)
  {
    if a < b {
      PowMonotone(a, b - 1);
    }
  }

  // ------------------------------------------------------------------ the zero padding as a jump

  /** From inside a block, jumping to its last byte and absorbing one zero is absorbing zeros up to the end of it. */
  lemma {:induction false} JumpIsZeroPadding(f: Permutation, r: nat, st: Inc)
    requires KeepsSize(f) && Rate(r) && Ready(r, st)
    ensures Absorb(f, r, Inc(st.s, r - 1), [0]) == Absorb(f, r, st, Zeros(r - st.pos))
  {
    hide XorByte;
    AbsorbWithinBlock(f, r, Inc(st.s, r - 1), [0]);
    AbsorbWithinBlock(f, r, st, Zeros(r - st.pos));
    OneByte(st.s, r - 1, 0);
    XorZeroByte(st.s, r - 1);
    XorZeros(st.s, st.pos, r - st.pos);
  }

  /** The five absorbs: the whole unpadded prefix. */
  method AbsorbPrefix(c: Context, name: Bytes, cstm: Bytes)
    requires c.Valid() && c.r < 256 && c.s[..] == Zero && c.slot == 0
    requires 8 * |name| < WORD && 8 * |cstm| < WORD
    modifies c, c.s
    ensures c.Valid() && c.slot < c.r
    ensures Inc(c.s[..], c.slot) == Absorb(c.f, c.r, Inc(Zero, 0), Prefix(c.r, name, cstm))
  {
    hide Absorb, LeftEncode;
    ghost var f, r, st := c.f, c.r, Inc(Zero, 0);
    var enc := LeftEncodeC(c.r);
    c.IncAbsorb(enc);
    ghost var a := enc;
    enc := LeftEncodeC(8 * |name|);
    c.IncAbsorb(enc);
    AbsorbConcat(f, r, st, a, enc);
    ghost var b := a + enc;
    c.IncAbsorb(name);
    AbsorbConcat(f, r, st, b, name);
    ghost var d := b + name;
    enc := LeftEncodeC(8 * |cstm|);
    c.IncAbsorb(enc);
    AbsorbConcat(f, r, st, d, enc);
    ghost var e := d + enc;
    c.IncAbsorb(cstm);
    AbsorbConcat(f, r, st, e, cstm);
    assert e + cstm == Prefix(r, name, cstm);
  }

  /** The context after the five absorbs and the jump is the context after absorbing the padded prefix. */
  method CshakeInit(c: Context, name: Bytes, cstm: Bytes)
    requires c.Valid() && c.r < 256 && c.s[..] == Zero && c.slot == 0
    requires 8 * |name| < WORD && 8 * |cstm| < WORD
    modifies c, c.s
    ensures c.Valid() && c.slot == 0
    ensures Inc(c.s[..], 0) == Absorb(c.f, c.r, Inc(Zero, 0), BytePad(Prefix(c.r, name, cstm), c.r))
  {
    hide Absorb, Prefix, BytePad, XorBytes;
    AbsorbPrefix(c, name, cstm);
    ghost var st := Inc(c.s[..], c.slot);
    PaddedPrefix(c.f, c.r, st, Prefix(c.r, name, cstm));
    if c.slot != 0 {
      c.slot := c.r - 1;
      c.IncAbsorb([0]);
    }
  }

  /** Where absorbing x stopped inside a block, the jump completes bytepad(x); at a block boundary nothing is missing. */
  lemma PaddedPrefix(f: Permutation, r: nat, st: Inc, x: Bytes)
    requires KeepsSize(f) && Rate(r) && Ready(r, st) && st == Absorb(f, r, Inc(Zero, 0), x)
    ensures var t := if st.pos == 0 then st else Absorb(f, r, Inc(st.s, r - 1), [0]);
            t.pos == 0 && t == Absorb(f, r, Inc(Zero, 0), BytePad(x, r))
  {
    hide Absorb, BytePad, XorBytes;
    AbsorbPosition(f, r, Inc(Zero, 0), x);
    BytePadFrom(x, r, st.pos);
    if st.pos != 0 {
      AbsorbConcat(f, r, Inc(Zero, 0), x, Zeros(r - st.pos));
      JumpIsZeroPadding(f, r, st);
      AbsorbWithinBlock(f, r, st, Zeros(r - st.pos));
    }
  }

  lemma BytePadFrom(x: Bytes, r: nat, pos: nat)
    requires 0 < r && pos == |x| % r
    ensures BytePad(x, r) == if pos == 0 then x else x + Zeros(r - pos)
  {
    if pos != 0 {
      PadLength(|x|, r);
    } else {
      assert x + Zeros(0) == x;
    }
  }

  lemma PadLength(n: nat, r: nat)
    requires 0 < r && n % r != 0
    ensures (r - n % r) % r == r - n % r
  {
  }

  /** The domain byte and the bytes absorbed before it. */
  datatype SpongeInput = SpongeInput(domain: byte, bytes: Bytes)

  /** What the code absorbs: the prefix always. */
  function CodeInput(r: nat, name: Bytes, cstm: Bytes, input: Bytes): SpongeInput
    requires r > 0
  {
    SpongeInput(0x04, BytePad(Prefix(r, name, cstm), r) + input)
  }

  /** What section 3.3 of SP 800-185 absorbs: with neither a name nor a customization, cSHAKE is SHAKE. */
  function StandardInput(r: nat, name: Bytes, cstm: Bytes, input: Bytes): SpongeInput
    requires r > 0
  {
    if name == [] && cstm == [] then SpongeInput(0x1F, input)
    else SpongeInput(0x04, BytePad(Prefix(r, name, cstm), r) + input)
  }

  /** The cSHAKE of the standard. */
  ghost function StandardCshake(f: Permutation, r: nat, name: Bytes, cstm: Bytes, input: Bytes, n: nat): (out: Bytes)
    requires KeepsSize(f) && Rate(r)
    ensures |out| == n
  {
    var s := StandardInput(r, name, cstm, input);
    Xof(f, r, s.domain, s.bytes, n)
  }

  /** The code runs the sponge as the standard does if and only if the two strings are not both empty; when they are,
      both the domain byte and the absorbed bytes are others. */
  lemma {:induction false} StandardExactly(r: nat, name: Bytes, cstm: Bytes, input: Bytes)
    requires r > 0
    ensures CodeInput(r, name, cstm, input) == StandardInput(r, name, cstm, input) <==> name != [] || cstm != []
    ensures name == [] && cstm == [] ==>
              CodeInput(r, name, cstm, input).domain != StandardInput(r, name, cstm, input).domain
              && |CodeInput(r, name, cstm, input).bytes| > |StandardInput(r, name, cstm, input).bytes|
  {
    assert |Prefix(r, name, cstm)| > 0;
  }

  /** The one-shot cSHAKE: the extendable output, with domain byte 0x04, of the padded prefix and the input.  It is the
      standard's unless name and customization are both empty. */
  method Cshake(f: Permutation, r: nat, name: Bytes, cstm: Bytes, input: Bytes, outlen: nat) returns (out: Bytes)
    requires KeepsSize(f) && Rate(r) && 8 * |name| < WORD && 8 * |cstm| < WORD
    ensures out == Xof(f, r, 0x04, BytePad(Prefix(r, name, cstm), r) + input, outlen)
    ensures name != [] || cstm != [] ==> out == StandardCshake(f, r, name, cstm, input, outlen)
  {
    hide Absorb, Squeeze, Finalize, Prefix;
    var c := new Context(f, r);
    CshakeInit(c, name, cstm);
    c.IncAbsorb(input);
    AbsorbConcat(f, r, Inc(Zero, 0), BytePad(Prefix(r, name, cstm), r), input);
    c.IncFinalize(0x04);
    out := c.IncSqueeze(outlen);
  }

  // ------------------------------------------------------------------ the octets of the prefix

  /** left_encode of a 64-bit value: how many octets follow, and the value in them, most significant first, without a leading
      zero unless it is the only one. */
  lemma LeftEncodeMeans(v: nat)
    requires v < WORD
    ensures var e := LeftEncode(v);
            2 <= |e| <= 9 && e[0] as int == |e| - 1 && FromDigits(e[1..]) == v && (|e| == 2 || Pow256(|e| - 2) <= v)
  {
    hide Digits, FromDigits, Octet, Pow256, ByteLen;
    Pow256Of8();
    ByteLenFits(v, 8);
    ByteLenIsMinimal(v);
    OctetValue(ByteLen(v));
    DigitsRoundTrip(v, ByteLen(v));
    assert LeftEncode(v)[1..] == Digits(v, ByteLen(v));
  }

  /** The rate, the bit length of the name and the name, the bit length of the customization and the customization, zeros up to
      the next multiple of the rate. */
  lemma PaddedPrefixMeans(r: nat, name: Bytes, cstm: Bytes)
    requires r > 0
    ensures var x := LeftEncode(r) + LeftEncode(8 * |name|) + name + LeftEncode(8 * |cstm|) + cstm;
            var p := BytePad(Prefix(r, name, cstm), r);
            |x| <= |p| < |x| + r && |p| % r == 0 && p[..|x|] == x && forall i | |x| <= i < |p| :: p[i] == 0
  {
    hide LeftEncode;
    var x := LeftEncode(r) + LeftEncode(8 * |name|) + name + LeftEncode(8 * |cstm|) + cstm;
    assert x == Prefix(r, name, cstm);
    FillUp(|x|, r);
  }
}
