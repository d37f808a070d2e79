/** The parsers of mbedtls/library/asn1parse.c: a cursor that moves up towards end. */
module DerParse {
  import opened Arith
  import opened Limbs
  import opened Bytes
  import opened Der

  /** (a << 8) | b and so on: bytes put together most significant first. */
  function Or2(a: Byte, b: Byte): nat {
    BitOr(a * 0x100, b)
  }

  function Or3(a: Byte, b: Byte, c: Byte): nat {
    BitOr(BitOr(a * 0x1_0000, b * 0x100), c)
  }

  function Or4(a: Byte, b: Byte, c: Byte, d: Byte): nat {
    BitOr(BitOr(BitOr(a * 0x100_0000, b * 0x1_0000), c * 0x100), d)
  }

  lemma Or2Is(a: Byte, b: Byte)
    ensures Or2(a, b) == 256 * a + b
  {
    hide BitOr;
    assert Pow2(8) == 256;
    BitOrDisjoint(a * 0x100, b, 8);
  }

  lemma Or3Is(a: Byte, b: Byte, c: Byte)
    ensures Or3(a, b, c) == 256 * (256 * a + b) + c
  {
    hide BitOr, Pow2;
    PowersOf2();
    BitOrDisjoint(a * 0x1_0000, b * 0x100, 16);
    BitOrDisjoint(a * 0x1_0000 + b * 0x100, c, 8);
  }

  lemma Or4Is(a: Byte, b: Byte, c: Byte, d: Byte)
    ensures Or4(a, b, c, d) == 256 * (256 * (256 * a + b) + c) + d
  {
    hide BitOr, Pow2;
    PowersOf2();
    BitOrDisjoint(a * 0x100_0000, b * 0x1_0000, 24);
    BitOrDisjoint(a * 0x100_0000 + b * 0x1_0000, c * 0x100, 16);
    BitOrDisjoint(a * 0x100_0000 + b * 0x1_0000 + c * 0x100, d, 8);
  }

  lemma PowersOf2()
    ensures Pow2(8) == 0x100 && Pow2(16) == 0x1_0000 && Pow2(24) == 0x100_0000
  {
    Pow2Add(8, 8);
    Pow2Add(8, 16);
  }

  lemma BeVal1(a: Byte)
    ensures BeVal([a]) == a
  {
    BeSingle(a);
  }

  lemma BeVal2(a: Byte, b: Byte)
    ensures BeVal([a, b]) == 256 * a + b
  {
    hide BeVal;
    BeVal1(a);
    BeSnoc([a], b);
    assert [a] + [b] == [a, b];
  }

  lemma BeVal3(a: Byte, b: Byte, c: Byte)
    ensures BeVal([a, b, c]) == 256 * (256 * a + b) + c
  {
    hide BeVal;
    BeVal2(a, b);
    BeSnoc([a, b], c);
    assert [a, b] + [c] == [a, b, c];
  }

  lemma BeVal4(a: Byte, b: Byte, c: Byte, d: Byte)
    ensures BeVal([a, b, c, d]) == 256 * (256 * (256 * a + b) + c) + d
  {
    hide BeVal;
    BeVal3(a, b, c);
    BeSnoc([a, b, c], d);
    assert [a, b, c] + [d] == [a, b, c, d];
  }

  /** The number in the k bytes after s[0], as get_len puts it together. */
  method LenValue(s: seq<Byte>, k: nat) returns (n: nat)
    requires 1 <= k <= 4 && k + 1 <= |s|
    ensures n == BeVal(s[1..k + 1])
  {
    hide BeVal, BitOr, Or2, Or3, Or4;
    if k == 1 {
      n := s[1];
      BeVal1(s[1]);
      assert s[1..2] == [s[1]];
    } else if k == 2 {
      n := Or2(s[1], s[2]);
      Or2Is(s[1], s[2]);
      BeVal2(s[1], s[2]);
      assert s[1..3] == [s[1], s[2]];
    } else if k == 3 {
      n := Or3(s[1], s[2], s[3]);
      Or3Is(s[1], s[2], s[3]);
      BeVal3(s[1], s[2], s[3]);
      assert s[1..4] == [s[1], s[2], s[3]];
    } else {
      n := Or4(s[1], s[2], s[3], s[4]);
      Or4Is(s[1], s[2], s[3], s[4]);
      BeVal4(s[1], s[2], s[3], s[4]);
      assert s[1..5] == [s[1], s[2], s[3], s[4]];
    }
  }

  class Parser {
    const data: seq<Byte>
    var p: nat

    ghost predicate Valid(end: nat)
      reads this
    {
      p <= end <= |data|
    }

    /** The bytes between cursor and end. */
    ghost function Rest(end: nat): seq<Byte>
      requires Valid(end)
      reads this
    {
      data[p..end]
    }

    constructor (bytes: seq<Byte>)
      ensures data == bytes && p == 0 && Valid(|bytes|)
    {
      data, p := bytes, 0;
    }

    /** mbedtls_asn1_get_len. */
    method GetLen(end: nat) returns (ret: int, len: nat)
      requires Valid(end)
      modifies this
      ensures Valid(end) && old(p) <= p
      ensures var r := SpecLen(old(Rest(end))); if r.Ok? then ret == 0 && len == r.n && p == old(p) + r.used else ret == r.code && ret < 0
    {
      hide BeVal;
      len := 0;
      ghost var s := data[p..end];
      if end - p < 1 { return ERR_OUT_OF_DATA, 0; }
      if data[p] < 0x80 {
        len := data[p];
        p := p + 1;
      } else {
        var k: nat := data[p] - 0x80;
        if k < 1 || 4 < k { return ERR_INVALID_LENGTH, 0; }
        if end - p < k + 1 { return ERR_OUT_OF_DATA, 0; }
        len := LenValue(data[p..end], k);
        p := p + k + 1;
      }
      if len > end - p { return ERR_OUT_OF_DATA, len; }
      ret := 0;
    }

    /** mbedtls_asn1_get_tag. */
    method GetTag(end: nat, tag: Byte) returns (ret: int, len: nat)
      requires Valid(end)
      modifies this
      ensures Valid(end) && old(p) <= p
      ensures var r := SpecTag(old(Rest(end)), tag); if r.Ok? then ret == 0 && len == r.n && p == old(p) + r.used else ret == r.code && ret < 0
    {
      hide SpecLen;
      if end - p < 1 { return ERR_OUT_OF_DATA, 0; }
      if data[p] != tag { return ERR_UNEXPECTED_TAG, 0; }
      assert data[p..end][1..] == data[p + 1..end];
      p := p + 1;
      ret, len := GetLen(end);
    }

    /** asn1_get_tagged_int: get_int and get_enum. */
    method GetInt(end: nat, tag: Byte) returns (ret: int, val: nat)
      requires Valid(end)
      modifies this
      ensures Valid(end) && old(p) <= p
      ensures match SpecInt(old(Rest(end)), tag)
        case Got(v, used) => ret == 0 && val == v && p == old(p) + used
        case Bad(code) => ret == code && ret < 0
    {
      hide SpecTag, BeVal, BitOr;
      val := 0;
      var len;
      ghost var s := data[p..end];
      ret, len := GetTag(end, tag);
      if ret != 0 { return; }
      ghost var c := data[p..p + len];
      assert c == s[SpecTag(s, tag).used..SpecTag(s, tag).used + len];
      if len == 0 { return ERR_INVALID_LENGTH, 0; }
      if data[p] >= 0x80 { return ERR_INVALID_LENGTH, 0; }
      ghost var stop := p + len;
      while len > 0 && data[p] == 0
        invariant p + len == stop <= end && old(p) <= p && BeVal(data[p..stop]) == BeVal(c)
        decreases len
      {
        SkipZero(data, p, stop);
        p := p + 1;
        len := len - 1;
      }
      Int32Fits(data, p, stop);
      if len > 4 { return ERR_INVALID_LENGTH, 0; }
      if len == 4 && data[p] >= 0x80 { return ERR_INVALID_LENGTH, 0; }
      val := ReadBytes(len);
      ret := 0;
    }

    /** The loop that shifts the bytes in, as many as fit an int. */
    method ReadBytes(len0: nat) returns (val: nat)
      requires p + len0 <= |data|
      modifies this
      ensures p == old(p) + len0 && val == BeVal(data[old(p)..p])
    {
      hide BeVal, BitOr, Pow2;
      val := 0;
      var len := len0;
      BeNothing();
      assert data[p..p] == [];
      while len > 0
        invariant p + len == old(p) + len0 && old(p) <= p
        invariant val == BeVal(data[old(p)..p])
        decreases len
      {
        len := len - 1;
        ShiftIn(val, data[p]);
        BeSnoc(data[old(p)..p], data[p]);
        assert data[old(p)..p + 1] == data[old(p)..p] + [data[p]];
        val := BitOr(val * 256, data[p]);
        p := p + 1;
      }
    }

    /** mbedtls_asn1_get_mpi: the content read as a big-endian number. */
    method GetMpi(end: nat) returns (ret: int, val: nat)
      requires Valid(end)
      modifies this
      ensures Valid(end) && old(p) <= p
      ensures match SpecMpi(old(Rest(end)))
        case Got(v, used) => ret == 0 && val == v && p == old(p) + used
        case Bad(code) => ret == code && ret < 0
    {
      hide SpecTag, BeVal;
      val := 0;
      var len;
      ghost var s := data[p..end];
      ret, len := GetTag(end, INTEGER);
      if ret != 0 { return; }
      assert data[p..p + len] == s[SpecTag(s, INTEGER).used..SpecTag(s, INTEGER).used + len];
      val := ReadBytes(len);
    }

    /** mbedtls_asn1_get_bitstring. */
    method GetBitstring(end: nat) returns (ret: int, bs: BitString)
      requires Valid(end)
      modifies this
      ensures Valid(end) && old(p) <= p
      ensures match SpecBitstring(old(Rest(end)))
        case Got(v, used) => ret == 0 && bs == v && p == old(p) + used
        case Bad(code) => ret == code && ret < 0
    {
      hide SpecTag;
      bs := BitString(0, []);
      var len;
      ghost var s := data[p..end];
      ret, len := GetTag(end, BIT_STRING);
      if ret != 0 { return; }
      if len < 1 { return ERR_OUT_OF_DATA, bs; }
      len := len - 1;
      var unused := data[p];
      if unused > 7 { return ERR_INVALID_LENGTH, bs; }
      p := p + 1;
      bs := BitString(unused, data[p..p + len]);
      p := p + len;
      if p != end { return ERR_LENGTH_MISMATCH, bs; }
      ret := 0;
    }

    /** mbedtls_asn1_get_sequence_of by mbedtls_asn1_traverse_sequence_of: the callback keeps every element. */
    method GetSequenceOf(end: nat, tag: Byte) returns (ret: int, items: seq<seq<Byte>>)
      requires Valid(end)
      modifies this
      ensures Valid(end) && old(p) <= p
      ensures match SpecSequenceOf(old(Rest(end)), tag)
        case Got(v, used) => ret == 0 && items == v && p == end
        case Bad(code) => ret == code && ret < 0
    {
      hide SpecTag, SpecItems;
      items := [];
      var len;
      ret, len := GetTag(end, SEQUENCE);
      if ret != 0 { return; }
      if p + len != end { return ERR_LENGTH_MISMATCH, []; }
      Suffix(data, old(p), end, p - old(p));
      ret, items := Traverse(end, tag);
    }

    /** The loop over the elements. */
    method Traverse(end: nat, tag: Byte) returns (ret: int, items: seq<seq<Byte>>)
      requires Valid(end)
      modifies this
      ensures Valid(end) && old(p) <= p
      ensures match SpecItems(old(Rest(end)), tag)
        case Items(v) => ret == 0 && items == v && p == end
        case NoItems(code) => ret == code && ret < 0
    {
      hide SpecTag, SpecItems, SpecLen;
      items := [];
      ghost var goal := SpecItems(data[p..end], tag);
      AfterMore([], [], goal);
      while p < end
        invariant Valid(end) && old(p) <= p
        invariant goal == After(items, SpecItems(data[p..end], tag))
        decreases end - p
      {
        ghost var q := p;
        var len;
        ItemsStep(data[p..end], tag);
        ret, len := GetTag(end, tag);
        if ret != 0 { return ret, items; }
        Slice(data, q, end, p - q, len);
        Suffix(data, q, end, p + len - q);
        AfterMore(items, data[p..p + len], SpecItems(data[p + len..end], tag));
        items := items + [data[p..p + len]];
        p := p + len;
      }
      assert data[p..end] == [];
      ItemsStep([], tag);
      assert items + [] == items;
      ret := 0;
    }

    /** mbedtls_asn1_get_alg. */
    method GetAlg(end0: nat) returns (ret: int, alg: Alg)
      requires Valid(end0)
      modifies this
      ensures Valid(end0) && old(p) <= p
      ensures match SpecAlg(old(Rest(end0)))
        case Got(v, used) => ret == 0 && alg == v && p == old(p) + used
        case Bad(code) => ret == code && ret < 0
    {
      hide SpecTag, SpecAlgBody;
      alg := Alg([], 0, []);
      var len;
      ret, len := GetTag(end0, SEQUENCE);
      if ret != 0 { return; }
      if end0 - p < 1 { return ERR_OUT_OF_DATA, alg; }
      Slice(data, old(p), end0, p - old(p), len);
      ret, alg := GetAlgBody(p + len);
    }

    method GetAlgBody(end: nat) returns (ret: int, alg: Alg)
      requires Valid(end)
      modifies this
      ensures Valid(end) && old(p) <= p
      ensures match SpecAlgBody(old(Rest(end)))
        case Got(v, used) => ret == 0 && alg == v && p == end
        case Bad(code) => ret == code && ret < 0
    {
      hide SpecTag, SpecParams;
      alg := Alg([], 0, []);
      var len;
      ret, len := GetTag(end, OID);
      if ret != 0 { return; }
      Slice(data, old(p), end, p - old(p), len);
      Suffix(data, old(p), end, p + len - old(p));
      alg := alg.(oid := data[p..p + len]);
      p := p + len;
      if p == end { return 0, alg; }
      var tag, params;
      ret, tag, params := GetParams(end);
      alg := alg.(paramsTag := tag, params := params);
    }

    /** Tag and content of the last element before end. */
    method GetParams(end: nat) returns (ret: int, tag: Byte, params: seq<Byte>)
      requires Valid(end) && p < end
      modifies this
      ensures Valid(end) && old(p) <= p && tag == old(Rest(end))[0]
      ensures match SpecParams(old(Rest(end)))
        case Got(v, used) => ret == 0 && params == v && p == end
        case Bad(code) => ret == code && ret < 0
    {
      hide SpecLen;
      params := [];
      Suffix(data, p, end, 1);
      tag := data[p];
      p := p + 1;
      var len;
      ret, len := GetLen(end);
      if ret != 0 { return; }
      Suffix(data, old(p), end, p - old(p));
      params := data[p..p + len];
      p := p + len;
      if p != end { return ERR_LENGTH_MISMATCH, tag, params; }
      ret := 0;
    }
  }

  lemma ItemsStep(s: seq<Byte>, tag: Byte)
    ensures SpecItems([], tag) == Items([])
    ensures s != [] ==>
      var r := SpecTag(s, tag);
      SpecItems(s, tag) == if r.Err? then NoItems(r.code)
                           else After([s[r.used..r.used + r.n]], SpecItems(s[r.used + r.n..], tag))
  {
    hide SpecTag;
  }

  lemma AfterMore(items: seq<seq<Byte>>, c: seq<Byte>, r: Items)
    ensures After(items, After([c], r)) == After(items + [c], r) && After([], r) == r
  {
    if r.Items? { assert items + ([c] + r.items) == items + [c] + r.items; }
  }

  lemma Slice(d: seq<Byte>, p: nat, end: nat, u: nat, n: nat)
    requires p + u + n <= end <= |d|
    ensures d[p..end][u..u + n] == d[p + u..p + u + n]
  {
    var a, b := d[p..end][u..u + n], d[p + u..p + u + n];
    assert |a| == |b|;
    assert forall i :: 0 <= i < n ==> a[i] == b[i];
  }

  lemma Suffix(d: seq<Byte>, p: nat, end: nat, u: nat)
    requires p + u <= end <= |d|
    ensures d[p..end][u..] == d[p + u..end]
  {
  }

  lemma SkipZero(d: seq<Byte>, p: nat, stop: nat)
    requires p < stop <= |d| && d[p] == 0
    ensures BeVal(d[p..stop]) == BeVal(d[p + 1..stop])
  {
    assert d[p..stop][1..] == d[p + 1..stop];
  }

  lemma ShiftIn(val: nat, b: Byte)
    ensures BitOr(val * 256, b) == 256 * val + b
  {
    hide BitOr;
    assert Pow2(8) == 256;
    BitOrDisjoint(val * 256, b, 8);
  }

  /** Without leading zeros a number is below 2^31 exactly if it has fewer than four bytes, or four and a clear first bit. */
  lemma Int32Fits(d: seq<Byte>, p: nat, stop: nat)
    requires p <= stop <= |d| && (p < stop ==> d[p] != 0)
    ensures BeVal(d[p..stop]) < 0x8000_0000 <==> stop - p < 4 || (stop - p == 4 && d[p] < 0x80)
  {
    hide BeVal, Pow;
    var c := d[p..stop];
    PowersOf256();
    BeBound(c);
    if c != [] {
      BeHead(c, 0);
      assert c[0..] == c;
      BeBound(c[1..]);
      if |c| > 4 {
        PowMono(256, 4, |c| - 1);
        MulMono(1, c[0], Pow(256, |c| - 1));
      } else if |c| < 4 {
        PowMono(256, |c|, 3);
      }
    }
  }

  lemma PowersOf256()
    ensures Pow(256, 3) == 0x100_0000 && Pow(256, 4) == 0x1_0000_0000 && Pow(256, 0) == 1
  {
    assert Pow(256, 2) == 0x1_0000;
    PowAdd(256, 2, 2);
    PowAdd(256, 2, 1);
  }
}
