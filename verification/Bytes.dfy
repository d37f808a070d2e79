/** Bytes, exclusive or, and the block cipher every mode of operation is built on. */
module Bytes {
  import opened Arith
  import opened Limbs

  type Byte = x: nat | x < 256

  // ---------------------------------------------------------------- exclusive or

  function BitXor(x: nat, y: nat): nat
    decreases x + y
  {
    if x == 0 && y == 0 then 0
    else 2 * BitXor(x / 2, y / 2) + (if x % 2 != y % 2 then 1 else 0)
  }

  lemma {:induction false} XorCancel(x: nat, y: nat)
    ensures BitXor(BitXor(x, y), y) == x
    decreases x + y
  {
    if x != 0 || y != 0 {
      XorCancel(x / 2, y / 2);
      var z := BitXor(x, y);
      assert z / 2 == BitXor(x / 2, y / 2);
      if z == 0 && y == 0 { XorZero(x); }
    }
  }

  lemma {:induction false} XorComm(x: nat, y: nat)
    ensures BitXor(x, y) == BitXor(y, x)
    decreases x + y
  {
    if x != 0 || y != 0 { XorComm(x / 2, y / 2); }
  }

  lemma {:induction false} XorZero(x: nat)
    ensures BitXor(x, 0) == x && BitXor(0, x) == x && BitXor(x, x) == 0
    decreases x
  {
    if x != 0 { XorZero(x / 2); }
  }

  lemma {:induction false} XorBound(x: nat, y: nat, k: nat)
    requires x < Pow2(k) && y < Pow2(k)
    ensures BitXor(x, y) < Pow2(k)
    decreases k
  {
    if k > 0 && (x != 0 || y != 0) {
      Pow2Succ(k - 1);
      XorBound(x / 2, y / 2, k - 1);
    }
  }

  lemma XorDistinct(x: nat, y: nat)
    ensures BitXor(x, y) == 0 <==> x == y
  {
    XorZero(x);
    XorCancel(x, y);
    XorZero(y);
  }

  /** Exclusive or acts on high and low parts separately. */
  lemma {:induction false} XorSplit(h: nat, l: nat, h': nat, l': nat, k: nat)
    requires l < Pow2(k) && l' < Pow2(k)
    ensures BitXor(h * Pow2(k) + l, h' * Pow2(k) + l') == BitXor(h, h') * Pow2(k) + BitXor(l, l')
    decreases k
  {
    hide BitXor, Pow2;
    if k == 0 {
      Pow2Succ(0);
      XorZero(0);
    } else {
      Pow2Succ(k - 1);
      XorSplit(h, l / 2, h', l' / 2, k - 1);
      XorSplitStep(h, l, h', l', Pow2(k - 1));
    }
  }

  lemma XorSplitStep(h: nat, l: nat, h': nat, l': nat, p: nat)
    requires BitXor(h * p + l / 2, h' * p + l' / 2) == BitXor(h, h') * p + BitXor(l / 2, l' / 2)
    ensures BitXor(h * (2 * p) + l, h' * (2 * p) + l') == BitXor(h, h') * (2 * p) + BitXor(l, l')
  {
    hide BitXor;
    HalfParts(h, l, p);
    HalfParts(h', l', p);
    XorStep(h * (2 * p) + l, h' * (2 * p) + l');
    XorStep(l, l');
    TwiceProduct(BitXor(h, h'), p);
  }

  lemma XorStep(x: nat, y: nat)
    ensures BitXor(x, y) == 2 * BitXor(x / 2, y / 2) + (if x % 2 != y % 2 then 1 else 0)
  {
  }

  lemma HalfParts(h: nat, l: nat, p: nat)
    ensures (h * (2 * p) + l) / 2 == h * p + l / 2 && (h * (2 * p) + l) % 2 == l % 2
  {
    TwiceProduct(h, p);
  }

  lemma TwiceProduct(h: nat, p: nat)
    ensures h * (2 * p) == 2 * (h * p)
  {
  }

  /** x * v modulo x^n + r, polynomials over GF(2) written as bit numbers: shift, and cancel the term
      of degree n if there is one. */
  function MulX(v: nat, n: nat, r: nat): nat {
    if 2 * v < Pow2(n) then 2 * v else BitXor(2 * v, Pow2(n) + r)
  }

  function XorByte(x: Byte, y: Byte): Byte {
    assert Pow2(8) == 256;
    XorBound(x, y, 8);
    BitXor(x, y)
  }

  /** Bytewise exclusive or with the first bytes of b. */
  function XorSeq(a: seq<Byte>, b: seq<Byte>): (r: seq<Byte>)
    requires |a| <= |b|
    ensures |r| == |a|
  {
    seq(|a|, i requires 0 <= i < |a| => XorByte(a[i], b[i]))
  }

  /** Exclusive or of byte strings, byte by byte. */
  lemma XorSeqAt(a: seq<Byte>, b: seq<Byte>, i: nat)
    requires |a| <= |b| && i < |a|
    ensures XorSeq(a, b)[i] == BitXor(a[i], b[i])
  {
    hide BitXor;
  }

  lemma XorSeqCancel(a: seq<Byte>, b: seq<Byte>)
    requires |a| <= |b|
    ensures XorSeq(XorSeq(a, b), b) == a
  {
    forall i | 0 <= i < |a|
      ensures XorByte(XorByte(a[i], b[i]), b[i]) == a[i]
    {
      XorCancel(a[i], b[i]);
    }
  }

  lemma XorSeqComm(a: seq<Byte>, b: seq<Byte>)
    requires |a| == |b|
    ensures XorSeq(a, b) == XorSeq(b, a)
  {
    forall i | 0 <= i < |a|
      ensures XorByte(a[i], b[i]) == XorByte(b[i], a[i])
    {
      XorComm(a[i], b[i]);
    }
  }

  lemma {:induction false} OrBound(x: nat, y: nat, k: nat)
    requires x < Pow2(k) && y < Pow2(k)
    ensures BitOr(x, y) < Pow2(k)
    decreases k
  {
    if k > 0 && (x != 0 || y != 0) {
      Pow2Succ(k - 1);
      OrBound(x / 2, y / 2, k - 1);
    }
  }

  lemma {:induction false} OrIsZero(x: nat, y: nat)
    ensures BitOr(x, y) == 0 <==> x == 0 && y == 0
    decreases x + y
  {
    if x != 0 || y != 0 { OrIsZero(x / 2, y / 2); }
  }

  function OrByte(x: Byte, y: Byte): Byte {
    assert Pow2(8) == 256;
    OrBound(x, y, 8);
    BitOr(x, y)
  }

  /** The C comparison used as a byte. */
  function Bit(c: bool): Byte { if c then 1 else 0 }

  function Fill(n: nat, b: Byte): (r: seq<Byte>)
    ensures |r| == n
  {
    seq(n, i => b)
  }

  // ---------------------------------------------------------------- block ciphers

  /** A keyed block cipher: decryption undoes encryption on blocks of bs bytes. */
  datatype BlockCipher = BlockCipher(bs: nat, enc: seq<Byte> -> seq<Byte>, dec: seq<Byte> -> seq<Byte>) {
    ghost predicate Valid() {
      && 0 < bs
      && (forall x: seq<Byte> :: |x| == bs ==> |enc(x)| == bs && dec(enc(x)) == x)
      && (forall x: seq<Byte> :: |x| == bs ==> |dec(x)| == bs)
    }
  }

  function Flatten(chunks: seq<seq<Byte>>): seq<Byte> {
    if chunks == [] then [] else chunks[0] + Flatten(chunks[1..])
  }

  lemma AppendAssoc(a: seq<Byte>, b: seq<Byte>, c: seq<Byte>)
    ensures a + b + c == a + (b + c)
  {
  }

  // ---------------------------------------------------------------- whole blocks

  predicate Whole(n: int, bs: int) {
    0 < bs && 0 <= n && n % bs == 0
  }

  lemma ModOfTail(n: nat, k: nat, b: nat)
    requires k <= n && Whole(k, b)
    ensures (n - k) % b == n % b
  {
    var q := k / b;
    assert k == b * q;
    var m, r := (n - k) / b, (n - k) % b;
    assert n == b * (m + q) + r;
    DivModUnique(n, b, m + q, r);
  }

  lemma WholeTail(n: nat, bs: nat)
    requires Whole(n, bs) && 0 < n
    ensures bs <= n && Whole(n - bs, bs)
  {
    if n < bs { DivModUnique(n, bs, 0, n); }
    WholeOne(bs);
    ModOfTail(n, bs, bs);
  }

  lemma WholeOne(bs: nat)
    requires 0 < bs
    ensures Whole(bs, bs) && Whole(0, bs)
  {
    DivModUnique(bs, bs, 1, 0);
    DivModUnique(0, bs, 0, 0);
  }

  lemma WholeSum(m: nat, n: nat, bs: nat)
    requires Whole(m, bs)
    ensures Whole(m + n, bs) <==> Whole(n, bs)
  {
    ModOfTail(m + n, m, bs);
  }

  // ---------------------------------------------------------------- big-endian numbers

  /** The n low bytes of v, most significant first. */
  function ToBe(v: nat, n: nat): (s: seq<Byte>)
    ensures |s| == n
  {
    if n == 0 then [] else ToBe(v / 256, n - 1) + [v % 256]
  }

  lemma {:induction false} ToBeInjective(v: nat, w: nat, n: nat)
    requires v < Pow(256, n) && w < Pow(256, n) && ToBe(v, n) == ToBe(w, n)
    ensures v == w
    decreases n
  {
    if n > 0 {
      var s, t := ToBe(v / 256, n - 1), ToBe(w / 256, n - 1);
      assert ToBe(v, n)[..n - 1] == s && ToBe(w, n)[..n - 1] == t;
      assert ToBe(v, n)[n - 1] == v % 256 && ToBe(w, n)[n - 1] == w % 256;
      ToBeInjective(v / 256, w / 256, n - 1);
    }
  }

  lemma {:induction false} ToBeHead(v: nat, n: nat)
    ensures Pow(256, n) > 0 && ToBe(v, n + 1) == [v / Pow(256, n) % 256] + ToBe(v, n)
    decreases n
  {
    PowPos(256, n);
    if n == 0 {
      assert v / 1 == v;
      assert ToBe(v / 256, 0) == [];
    } else {
      ToBeHead(v / 256, n - 1);
      PowPos(256, n - 1);
      DivDiv(v, 256, Pow(256, n - 1));
      AppendAssoc([v / 256 / Pow(256, n - 1) % 256], ToBe(v / 256, n - 1), [v % 256]);
    }
  }

  /** The number whose bytes, most significant first, are s. */
  function BeVal(s: seq<Byte>): nat {
    if s == [] then 0 else PowPos(256, |s| - 1); s[0] * Pow(256, |s| - 1) + BeVal(s[1..])
  }

  lemma {:induction false} BeBound(s: seq<Byte>)
    ensures BeVal(s) < Pow(256, |s|)
  {
    if s != [] {
      BeBound(s[1..]);
      PowPos(256, |s| - 1);
      MulMono(s[0], 255, Pow(256, |s| - 1));
    }
  }

  lemma BeHead(s: seq<Byte>, i: nat)
    requires i < |s|
    ensures BeVal(s[i..]) == s[i] * Pow(256, |s| - i - 1) + BeVal(s[i + 1..])
  {
    assert s[i..][1..] == s[i + 1..];
  }

  lemma {:induction false} BeSnoc(s: seq<Byte>, e: Byte)
    ensures BeVal(s + [e]) == 256 * BeVal(s) + e
  {
    var t := s + [e];
    if s == [] {
      assert t[1..] == [] && Pow(256, 0) == 1;
    } else {
      assert t[1..] == s[1..] + [e];
      BeSnoc(s[1..], e);
      PowSucc256(|s| - 1);
      MulShuffle256(s[0], Pow(256, |s| - 1));
    }
  }

  lemma PowSucc256(n: nat)
    ensures Pow(256, n + 1) == 256 * Pow(256, n)
  {
  }

  lemma MulShuffle256(x: int, p: int)
    ensures x * (256 * p) == 256 * (x * p)
  {
  }

  lemma {:induction false} BeOfToBe(v: nat, k: nat)
    requires v < Pow(256, k)
    ensures BeVal(ToBe(v, k)) == v
    decreases k
  {
    hide BeVal;
    if k == 0 {
      assert BeVal([]) == 0 by { BeNothing(); }
    } else {
      BeOfToBe(v / 256, k - 1);
      BeSnoc(ToBe(v / 256, k - 1), v % 256);
    }
  }

  lemma BeNothing()
    ensures BeVal([]) == 0
  {
  }

  // ---------------------------------------------------------------- little-endian numbers

  /** The number whose bytes, least significant first, are s. */
  function LeVal(s: seq<Byte>): nat {
    if s == [] then 0 else s[0] + 256 * LeVal(s[1..])
  }

  /** The n low bytes of v, least significant first. */
  function ToLe(v: nat, n: nat): (s: seq<Byte>)
    ensures |s| == n
  {
    if n == 0 then [] else [v % 256] + ToLe(v / 256, n - 1)
  }

  lemma {:induction false} LeBound(s: seq<Byte>)
    ensures LeVal(s) < Pow2(8 * |s|)
  {
    if s == [] {
      Pow2Succ(0);
    } else {
      LeBound(s[1..]);
      Pow2Add(8, 8 * (|s| - 1));
      assert Pow2(8) == 256;
    }
  }

  lemma {:induction false} LeToLe(v: nat, n: nat)
    requires v < Pow2(8 * n)
    ensures LeVal(ToLe(v, n)) == v
    decreases n
  {
    if n == 0 {
      Pow2Succ(0);
    } else {
      Pow2Add(8, 8 * (n - 1));
      assert Pow2(8) == 256;
      assert v / 256 < Pow2(8 * (n - 1));
      LeToLe(v / 256, n - 1);
      var t := ToLe(v, n);
      assert t[1..] == ToLe(v / 256, n - 1);
    }
  }

  lemma {:induction false} LeConcat(s: seq<Byte>, t: seq<Byte>)
    ensures LeVal(s + t) == LeVal(s) + Pow2(8 * |s|) * LeVal(t)
  {
    if s == [] {
      Pow2Succ(0);
      assert s + t == t;
    } else {
      assert (s + t)[1..] == s[1..] + t;
      LeConcat(s[1..], t);
      Pow2Add(8, 8 * (|s| - 1));
      assert Pow2(8) == 256;
      MulAssoc(256, Pow2(8 * (|s| - 1)), LeVal(t));
    }
  }

  lemma {:induction false} ToLeSplit(a: nat, m: nat, b: nat, n: nat)
    requires a < Pow2(8 * m)
    ensures ToLe(a + Pow2(8 * m) * b, m + n) == ToLe(a, m) + ToLe(b, n)
    decreases m
  {
    hide Pow2, ToLe;
    if m == 0 {
      Pow2Succ(0);
      assert ToLe(a, 0) == [];
    } else {
      var p := Pow2(8 * (m - 1));
      Pow2Add(8, 8 * (m - 1));
      Pow2Eight();
      MulAssoc(256, p, b);
      var v := a + 256 * (p * b);
      DivModUnique(v, 256, a / 256 + p * b, a % 256);
      ToLeSplit(a / 256, m - 1, b, n);
      ToLeStep(v, m + n);
      ToLeStep(a, m);
      AppendAssoc([a % 256], ToLe(a / 256, m - 1), ToLe(b, n));
    }
  }

  lemma Pow2Eight()
    ensures Pow2(8) == 256
  {
  }

  lemma ToLeStep(v: nat, n: nat)
    requires 0 < n
    ensures ToLe(v, n) == [v % 256] + ToLe(v / 256, n - 1)
  {
  }

  // ---------------------------------------------------------------- comparison of tags

  /** The tags differ somewhere exactly if the accumulated difference is not zero. */
  method Differ(tag: seq<Byte>, check: seq<Byte>) returns (differ: bool)
    requires |tag| == |check|
    ensures differ <==> tag != check
  {
    hide BitXor, BitOr;
    var diff: Byte, i := 0, 0;
    while i < |tag|
      invariant 0 <= i <= |tag|
      invariant diff == 0 <==> tag[..i] == check[..i]
    {
      assert tag[..i + 1] == tag[..i] + [tag[i]] && check[..i + 1] == check[..i] + [check[i]];
      XorDistinct(tag[i], check[i]);
      OrIsZero(diff, XorByte(tag[i], check[i]));
      diff := OrByte(diff, XorByte(tag[i], check[i]));
      i := i + 1;
    }
    assert tag[..|tag|] == tag && check[..|tag|] == check;
    differ := diff != 0;
  }
}
