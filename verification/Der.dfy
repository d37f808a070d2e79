/** DER encodings and what the parsers of asn1parse.c make of them (X.690). */
module Der {
  import opened Arith
  import opened Limbs
  import opened Bytes

  const ERR_OUT_OF_DATA: int := -0x0060
  const ERR_UNEXPECTED_TAG: int := -0x0062
  const ERR_INVALID_LENGTH: int := -0x0064
  const ERR_LENGTH_MISMATCH: int := -0x0066
  const ERR_BUF_TOO_SMALL: int := -0x006C

  const INTEGER: Byte := 0x02
  const BIT_STRING: Byte := 0x03
  const NULL: Byte := 0x05
  const OID: Byte := 0x06
  const SEQUENCE: Byte := 0x30

  // ---------------------------------------------------------------- encodings

  /** The number of length bytes after the first one. */
  function LenBytes(n: nat): nat {
    if n < 0x80 then 0 else if n <= 0xFF then 1 else if n <= 0xFFFF then 2 else if n <= 0xFF_FFFF then 3 else 4
  }

  /** Section 8.1.3 and 10.1 of X.690: the shortest definite form. */
  function EncLen(n: nat): (e: seq<Byte>)
    ensures |e| == LenBytes(n) + 1
  {
    if n < 0x80 then [n] else [0x80 + LenBytes(n)] + ToBe(n, LenBytes(n))
  }

  function Tlv(tag: Byte, content: seq<Byte>): (e: seq<Byte>)
    ensures |e| == 1 + |EncLen(|content|)| + |content|
  {
    [tag] + EncLen(|content|) + content
  }

  /** A number in as few bytes as possible, but at least one. */
  function BeBytes(v: nat): (s: seq<Byte>)
    ensures s != []
    decreases v
  {
    if v < 256 then [v] else BeBytes(v / 256) + [v % 256]
  }

  lemma {:induction false} BeBytesVal(v: nat)
    ensures BeVal(BeBytes(v)) == v
    decreases v
  {
    hide BeVal;
    if v < 256 {
      BeSingle(v);
    } else {
      BeBytesVal(v / 256);
      BeSnoc(BeBytes(v / 256), v % 256);
    }
  }

  lemma BeSingle(b: Byte)
    ensures BeVal([b]) == b
  {
    assert [b][1..] == [] && Pow(256, 0) == 1;
  }

  /** A zero byte in front where the first bit would read as a sign (section 8.3 of X.690). */
  function Unsigned(c: seq<Byte>): seq<Byte>
    requires c != []
  {
    if c[0] >= 0x80 then [0] + c else c
  }

  lemma UnsignedVal(c: seq<Byte>)
    requires c != []
    ensures Unsigned(c) != [] && Unsigned(c)[0] < 0x80 && BeVal(Unsigned(c)) == BeVal(c)
  {
    if c[0] >= 0x80 {
      assert ([0] + c)[1..] == c;
    }
  }

  /** What asn1_write_tagged_int writes for a C int: one byte for every negative number. */
  function IntContent(v: int): seq<Byte> {
    Unsigned(if v < 0 then [v % 256] else BeBytes(v))
  }

  /** What asn1_write_mpi writes for a number with sign s and magnitude m. Zero has no bytes; whether it gets a
      zero byte then hangs on next, the byte behind it. */
  function MpiContent(s: int, m: nat, next: Byte): seq<Byte> {
    if m == 0 then (if s == 1 && next >= 0x80 then [0] else [])
    else if s == 1 then Unsigned(BeBytes(m))
    else BeBytes(m)
  }

  /** An algorithm identifier with parameters that are an element of their own. */
  function EncAlg(oid: seq<Byte>, params: seq<Byte>): seq<Byte> {
    Tlv(SEQUENCE, Tlv(OID, oid) + params)
  }

  // ---------------------------------------------------------------- length and tag

  /** n bytes of content start after used bytes. */
  datatype Step = Ok(n: nat, used: nat) | Err(code: int)

  /** A length of n bytes that takes used bytes of s, if that much is there. */
  function Fits(s: seq<Byte>, n: nat, used: nat): Step {
    if n + used > |s| then Err(ERR_OUT_OF_DATA) else Ok(n, used)
  }

  /** What get_len makes of the bytes up to the end. */
  function SpecLen(s: seq<Byte>): (r: Step)
    ensures r.Ok? ==> 0 < r.used && r.used + r.n <= |s|
  {
    if |s| < 1 then Err(ERR_OUT_OF_DATA)
    else if s[0] < 0x80 then Fits(s, s[0], 1)
    else
      var k: nat := s[0] - 0x80;
      if k < 1 || 4 < k then Err(ERR_INVALID_LENGTH)
      else if |s| < k + 1 then Err(ERR_OUT_OF_DATA)
      else Fits(s, BeVal(s[1..k + 1]), k + 1)
  }

  function SpecTag(s: seq<Byte>, tag: Byte): (r: Step)
    ensures r.Ok? ==> 0 < r.used && r.used + r.n <= |s|
  {
    if |s| < 1 then Err(ERR_OUT_OF_DATA)
    else if s[0] != tag then Err(ERR_UNEXPECTED_TAG)
    else
      var r := SpecLen(s[1..]);
      if r.Ok? then Ok(r.n, r.used + 1) else r
  }

  lemma LenBytesEnough(n: nat)
    requires 0x80 <= n < 0x1_0000_0000
    ensures 1 <= LenBytes(n) <= 4 && n < Pow(256, LenBytes(n))
  {
    assert Pow(256, 0) == 1;
    assert Pow(256, 1) == 256;
    assert Pow(256, 2) == 0x1_0000;
    assert Pow(256, 3) == 0x100_0000;
  }

  /** The parser reads back every length the writer can write, and only its bytes. */
  lemma LenRoundTrip(n: nat, rest: seq<Byte>)
    requires n < 0x1_0000_0000 && n <= |rest|
    ensures SpecLen(EncLen(n) + rest) == Ok(n, |EncLen(n)|)
  {
    hide BeVal, ToBe, Pow;
    var e := EncLen(n);
    var s := e + rest;
    if n >= 0x80 {
      LenBytesEnough(n);
      var k := LenBytes(n);
      assert s[0] == 0x80 + k;
      assert s[1..k + 1] == ToBe(n, k);
      BeOfToBe(n, k);
    }
  }

  lemma TlvRoundTrip(tag: Byte, c: seq<Byte>, rest: seq<Byte>)
    requires |c| < 0x1_0000_0000
    ensures var s := Tlv(tag, c) + rest; var u := 1 + |EncLen(|c|)|;
            SpecTag(s, tag) == Ok(|c|, u) && s[u..u + |c|] == c
  {
    hide EncLen;
    var s := Tlv(tag, c) + rest;
    assert s[1..] == EncLen(|c|) + (c + rest);
    LenRoundTrip(|c|, c + rest);
  }

  // ---------------------------------------------------------------- integers

  /** A parsed value and the bytes it took. */
  datatype Parsed<T> = Got(value: T, used: nat) | Bad(code: int)

  /** What asn1_get_tagged_int makes of s: the number, if it is not negative and fits an int of 32 bits. */
  function SpecInt(s: seq<Byte>, tag: Byte): Parsed<nat> {
    var r := SpecTag(s, tag);
    if r.Err? then Bad(r.code)
    else
      var c := s[r.used..r.used + r.n];
      if c == [] || c[0] >= 0x80 || BeVal(c) >= 0x8000_0000 then Bad(ERR_INVALID_LENGTH)
      else Got(BeVal(c), r.used + r.n)
  }

  function SpecMpi(s: seq<Byte>): Parsed<nat> {
    var r := SpecTag(s, INTEGER);
    if r.Err? then Bad(r.code) else Got(BeVal(s[r.used..r.used + r.n]), r.used + r.n)
  }

  lemma {:induction false} BeBytesLength(v: nat, k: nat)
    requires v < Pow(256, k) && 0 < k
    ensures |BeBytes(v)| <= k
    decreases k
  {
    PowOne();
    if v >= 256 {
      assert k > 1;
      assert v / 256 < Pow(256, k - 1);
      BeBytesLength(v / 256, k - 1);
    }
  }

  lemma PowOne()
    ensures Pow(256, 1) == 256
  {
  }

  lemma IntContentSize(v: int)
    requires v < 0x8000_0000
    ensures 0 < |IntContent(v)| <= 5
  {
    if v >= 0 {
      assert Pow(256, 2) == 0x1_0000;
      PowAdd(256, 2, 2);
      BeBytesLength(v, 4);
    }
  }

  lemma IntContentVal(v: int)
    ensures var c := IntContent(v); c != [] && c[0] < 0x80 && BeVal(c) == if v < 0 then v % 256 else v
  {
    hide BeVal, BeBytes;
    if v < 0 {
      BeSingle(v % 256);
      UnsignedVal([v % 256]);
    } else {
      BeBytesVal(v);
      UnsignedVal(BeBytes(v));
    }
  }

  /** The content of a non-negative int is the shortest two's complement form of it (section 8.3.2 of X.690). */
  lemma IntContentIsDer(v: nat)
    ensures var c := IntContent(v); c != [] && BeVal(c) == v && c[0] < 0x80 && (|c| > 1 && c[0] == 0 ==> c[1] >= 0x80)
  {
    hide BeVal;
    IntContentVal(v);
    if v != 0 { BeBytesLead(v); }
  }

  /** An element is its tag, the length of its content in the shortest form, and the content. */
  lemma TlvIs(tag: Byte, c: seq<Byte>)
    ensures var e, u := Tlv(tag, c), 1 + |EncLen(|c|)|;
            u <= |e| && e[0] == tag && e[1..u] == EncLen(|c|) && e[u..] == c
  {
    hide EncLen;
  }

  /** An int comes back exactly if it is not negative; a negative one comes back as its low byte. */
  lemma IntRoundTrip(v: int, tag: Byte, rest: seq<Byte>)
    requires -0x8000_0000 <= v < 0x8000_0000
    ensures var e := Tlv(tag, IntContent(v));
            SpecInt(e + rest, tag) == Got(if v < 0 then v % 256 else v, |e|)
    ensures SpecInt(Tlv(tag, IntContent(v)) + rest, tag).value == v <==> v >= 0
  {
    hide BeVal, IntContent, EncLen;
    IntContentSize(v);
    IntContentVal(v);
    TlvRoundTrip(tag, IntContent(v), rest);
  }

  /** A number comes back as its magnitude, zero from either of its encodings. */
  lemma MpiRoundTrip(s: int, m: nat, next: Byte, rest: seq<Byte>)
    requires |MpiContent(s, m, next)| < 0x1_0000_0000
    ensures var e := Tlv(INTEGER, MpiContent(s, m, next)); SpecMpi(e + rest) == Got(m, |e|)
  {
    hide BeVal, BeBytes, EncLen;
    BeBytesVal(m);
    UnsignedVal(BeBytes(m));
    BeSingle(0);
    BeNothing();
    TlvRoundTrip(INTEGER, MpiContent(s, m, next), rest);
  }

  /** The content is a DER integer, at least one byte and no byte too many, exactly if m is not 0 or the byte behind
      has its first bit set and the sign is not negative. */
  lemma MpiContentIsDer(s: int, m: nat, next: Byte)
    ensures MpiContent(s, m, next) != [] <==> m != 0 || (s == 1 && next >= 0x80)
    ensures s == 1 ==> var c := MpiContent(s, m, next); |c| > 1 && c[0] == 0 ==> c[1] >= 0x80
  {
    if m != 0 { BeBytesLead(m); }
  }

  lemma {:induction false} BeBytesLead(m: nat)
    requires m != 0
    ensures BeBytes(m)[0] != 0
    decreases m
  {
    if m >= 256 { BeBytesLead(m / 256); }
  }

  // ---------------------------------------------------------------- algorithm identifiers

  datatype Alg = Alg(oid: seq<Byte>, paramsTag: Byte, params: seq<Byte>)

  /** What get_alg makes of s. */
  function SpecAlg(s: seq<Byte>): Parsed<Alg> {
    var r := SpecTag(s, SEQUENCE);
    if r.Err? then Bad(r.code)
    else if |s| - r.used < 1 then Bad(ERR_OUT_OF_DATA)
    else
      var body := SpecAlgBody(s[r.used..r.used + r.n]);
      if body.Bad? then body else Got(body.value, r.used + r.n)
  }

  /** Object identifier and parameters. An absent parameter field reads as tag 0 and no bytes. */
  function SpecAlgBody(c: seq<Byte>): (r: Parsed<Alg>)
    ensures r.Got? ==> r.used == |c|
  {
    var o := SpecTag(c, OID);
    if o.Err? then Bad(o.code)
    else
      var oid := c[o.used..o.used + o.n];
      var t := c[o.used + o.n..];
      if t == [] then Got(Alg(oid, 0, []), |c|)
      else
        var l := SpecParams(t);
        if l.Bad? then Bad(l.code) else Got(Alg(oid, t[0], l.value), |c|)
  }

  /** One element that fills t. */
  function SpecParams(t: seq<Byte>): Parsed<seq<Byte>>
    requires t != []
  {
    var l := SpecLen(t[1..]);
    if l.Err? then Bad(l.code)
    else if 1 + l.used + l.n != |t| then Bad(ERR_LENGTH_MISMATCH)
    else Got(t[1 + l.used..], |t|)
  }

  lemma NullIs()
    ensures Tlv(NULL, []) == [5, 0]
  {
    assert EncLen(0) == [0];
  }

  lemma AlgContent(oid: seq<Byte>, params: seq<Byte>)
    requires |oid| < 0x1_0000_0000
    ensures var c := Tlv(OID, oid) + params; var u := 1 + |EncLen(|oid|)|;
            SpecTag(c, OID) == Ok(|oid|, u) && c[u..u + |oid|] == oid && c[u + |oid|..] == params
  {
    hide EncLen, SpecTag;
    TlvRoundTrip(OID, oid, params);
  }

  lemma ParamsRoundTrip(tag: Byte, ps: seq<Byte>)
    requires |ps| < 0x1_0000_0000
    ensures var t := Tlv(tag, ps); SpecParams(t) == Got(ps, |t|) && t[0] == tag
  {
    hide EncLen;
    var t := Tlv(tag, ps);
    assert t[1..] == EncLen(|ps|) + ps;
    LenRoundTrip(|ps|, ps);
    assert t[1 + |EncLen(|ps|)|..] == ps;
  }

  /** An object identifier with any parameters, NULL among them, comes back. */
  lemma AlgRoundTrip(oid: seq<Byte>, tag: Byte, ps: seq<Byte>, rest: seq<Byte>)
    requires |Tlv(OID, oid)| + |Tlv(tag, ps)| < 0x1_0000_0000
    ensures var e := EncAlg(oid, Tlv(tag, ps)); SpecAlg(e + rest) == Got(Alg(oid, tag, ps), |e|)
  {
    hide EncLen, SpecTag, SpecParams;
    var c := Tlv(OID, oid) + Tlv(tag, ps);
    TlvRoundTrip(SEQUENCE, c, rest);
    AlgContent(oid, Tlv(tag, ps));
    ParamsRoundTrip(tag, ps);
  }

  // ---------------------------------------------------------------- SEQUENCE OF

  datatype Items = Items(items: seq<seq<Byte>>) | NoItems(code: int)

  /** Items in front of what was found in the rest. */
  function After(items: seq<seq<Byte>>, r: Items): Items {
    if r.NoItems? then r else Items(items + r.items)
  }

  /** The contents of elements with one tag that fill s. */
  function SpecItems(s: seq<Byte>, tag: Byte): Items
    decreases |s|
  {
    if s == [] then Items([])
    else
      var r := SpecTag(s, tag);
      if r.Err? then NoItems(r.code)
      else After([s[r.used..r.used + r.n]], SpecItems(s[r.used + r.n..], tag))
  }

  /** What get_sequence_of makes of s: a sequence that reaches to the end, and its elements. */
  function SpecSequenceOf(s: seq<Byte>, tag: Byte): Parsed<seq<seq<Byte>>> {
    var r := SpecTag(s, SEQUENCE);
    if r.Err? then Bad(r.code)
    else if r.used + r.n != |s| then Bad(ERR_LENGTH_MISMATCH)
    else
      var items := SpecItems(s[r.used..], tag);
      if items.NoItems? then Bad(items.code) else Got(items.items, |s|)
  }

  function EncItems(tag: Byte, cs: seq<seq<Byte>>): seq<Byte> {
    if cs == [] then [] else Tlv(tag, cs[0]) + EncItems(tag, cs[1..])
  }

  lemma {:induction false} ItemsRoundTrip(tag: Byte, cs: seq<seq<Byte>>)
    requires forall i :: 0 <= i < |cs| ==> |cs[i]| < 0x1_0000_0000
    ensures SpecItems(EncItems(tag, cs), tag) == Items(cs)
  {
    hide Tlv, EncLen, SpecTag;
    if cs != [] {
      var e, rest := Tlv(tag, cs[0]), EncItems(tag, cs[1..]);
      TlvRoundTrip(tag, cs[0], rest);
      ItemsRoundTrip(tag, cs[1..]);
      assert (e + rest)[|e|..] == rest;
      assert cs == [cs[0]] + cs[1..];
    }
  }

  /** Every element of a written sequence is found, in order. */
  lemma SequenceOfRoundTrip(tag: Byte, cs: seq<seq<Byte>>)
    requires forall i :: 0 <= i < |cs| ==> |cs[i]| < 0x1_0000_0000
    requires |EncItems(tag, cs)| < 0x1_0000_0000
    ensures var e := Tlv(SEQUENCE, EncItems(tag, cs)); SpecSequenceOf(e, tag) == Got(cs, |e|)
  {
    hide Tlv, EncLen, SpecTag, SpecItems, EncItems;
    var c := EncItems(tag, cs);
    var e := Tlv(SEQUENCE, c);
    assert e + [] == e;
    TlvRoundTrip(SEQUENCE, c, []);
    ItemsRoundTrip(tag, cs);
    var u := 1 + |EncLen(|c|)|;
    assert e[u..] == c;
  }

  // ---------------------------------------------------------------- bit strings

  /** Bit i, the first bit being the most significant of the first byte. */
  function BitAt(buf: seq<Byte>, i: nat): nat
    requires i < 8 * |buf|
  {
    buf[i / 8] / Pow2(7 - i % 8) % 2
  }

  function BitsOf(buf: seq<Byte>, n: nat): (r: seq<nat>)
    requires n <= 8 * |buf|
    ensures |r| == n
  {
    seq(n, i requires 0 <= i < n => BitAt(buf, i))
  }

  function ByteLen(bits: nat): nat {
    (bits + 7) / 8
  }

  /** b with its u low bits cleared: b & ~((1 << u) - 1). */
  function ClearLow(b: Byte, u: nat): (r: Byte)
  {
    Floored(b, Pow2(u));
    b / Pow2(u) * Pow2(u)
  }

  lemma Floored(b: nat, p: nat)
    requires 0 < p
    ensures 0 <= b / p * p <= b
  {
    assert b == p * (b / p) + b % p;
  }

  /** Section 8.6 of X.690: the number of unused bits, then the bits, the unused ones cleared. */
  function BitContent(buf: seq<Byte>, bits: nat): (c: seq<Byte>)
    requires bits <= 8 * |buf|
    ensures |c| == ByteLen(bits) + 1
  {
    var n := ByteLen(bits);
    var unused: Byte := 8 * n - bits;
    [unused] + if n == 0 then [] else buf[..n - 1] + [ClearLow(buf[n - 1], unused)]
  }

  /** Bits above the cleared ones stay. */
  lemma ClearLowBit(b: Byte, u: nat, k: nat)
    requires u <= k
    ensures ClearLow(b, u) / Pow2(k) % 2 == b / Pow2(k) % 2
  {
    hide Pow2;
    var p, q := Pow2(u), Pow2(k - u);
    Pow2Add(u, k - u);
    var x := b / p;
    DivDiv(b, p, q);
    DivDiv(x * p, p, q);
    DivModUnique(x * p, p, x, 0);
  }

  /** The content holds the first bits of the buffer. */
  lemma ContentBits(buf: seq<Byte>, bits: nat)
    requires bits <= 8 * |buf|
    ensures var c := BitContent(buf, bits);
            c[0] <= 7 && 8 * (|c| - 1) - c[0] == bits && BitsOf(c[1..], bits) == BitsOf(buf, bits)
  {
    hide Pow2, ClearLow;
    var c := BitContent(buf, bits);
    var n := ByteLen(bits);
    var d := c[1..];
    forall i: nat | i < bits
      ensures BitAt(d, i) == BitAt(buf, i)
    {
      assert i / 8 < n;
      if i / 8 == n - 1 {
        ClearLowBit(buf[n - 1], c[0], 7 - i % 8);
      } else {
        assert d[i / 8] == buf[i / 8];
      }
    }
  }

  datatype BitString = BitString(unused: nat, bytes: seq<Byte>)

  /** What get_bitstring makes of s: one bit string and nothing after it. */
  function SpecBitstring(s: seq<Byte>): Parsed<BitString> {
    var r := SpecTag(s, BIT_STRING);
    if r.Err? then Bad(r.code)
    else if r.n < 1 then Bad(ERR_OUT_OF_DATA)
    else if s[r.used] > 7 then Bad(ERR_INVALID_LENGTH)
    else if r.used + r.n != |s| then Bad(ERR_LENGTH_MISMATCH)
    else Got(BitString(s[r.used], s[r.used + 1..]), |s|)
  }

  /** A bit string comes back: the number of bits and every one of them. */
  lemma BitstringRoundTrip(buf: seq<Byte>, bits: nat)
    requires bits <= 8 * |buf| && ByteLen(bits) + 1 < 0x1_0000_0000
    ensures var e := Tlv(BIT_STRING, BitContent(buf, bits)); var r := SpecBitstring(e);
            && r.Got? && r.used == |e| && r.value.unused <= 7
            && 8 * |r.value.bytes| - r.value.unused == bits && BitsOf(r.value.bytes, bits) == BitsOf(buf, bits)
  {
    hide EncLen, SpecTag, BitsOf, BitContent, Tlv;
    var c := BitContent(buf, bits);
    var e := Tlv(BIT_STRING, c);
    TlvRoundTrip(BIT_STRING, c, []);
    assert e + [] == e;
    ContentBits(buf, bits);
    var u := 1 + |EncLen(|c|)|;
    assert e[u..] == c;
    assert e[u + 1..] == c[1..];
  }

  /** The number of bits left when trailing zeros are taken off (section 11.2.2 of X.690). */
  function Significant(buf: seq<Byte>, bits: nat): (n: nat)
    requires bits <= 8 * |buf|
    ensures n <= bits
  {
    if bits == 0 then 0 else if BitAt(buf, bits - 1) != 0 then bits else Significant(buf, bits - 1)
  }

  /** A named bit string loses exactly its trailing zeros. */
  lemma {:induction false} SignificantBits(buf: seq<Byte>, bits: nat)
    requires bits <= 8 * |buf|
    ensures var n := Significant(buf, bits);
            && (n > 0 ==> BitAt(buf, n - 1) == 1)
            && BitsOf(buf, bits) == BitsOf(buf, n) + seq(bits - n, i => 0)
  {
    hide Pow2;
    if bits > 0 {
      if BitAt(buf, bits - 1) == 0 {
        SignificantBits(buf, bits - 1);
        assert BitsOf(buf, bits) == BitsOf(buf, bits - 1) + [0];
      }
    }
  }
}
