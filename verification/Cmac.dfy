/** CMAC of mbedtls/library/cmac.c over a block cipher with blocks of 8 or 16 bytes (RFC 4493, NIST SP 800-38B). */
module Cmac {
  import opened Arith
  import opened Limbs
  import opened Bytes
  import opened CbcMacs

  const ERR_BAD_INPUT_DATA: int := -0x6100

  // ---------------------------------------------------------------- multiplication by u

  /** A byte string is determined by its length and its number. */
  lemma {:induction false} ToBeOfBeVal(s: seq<Byte>)
    ensures ToBe(BeVal(s), |s|) == s
  {
    hide Pow, BeVal, ToBe;
    if s == [] {
      assert ToBe(BeVal(s), 0) == [];
    } else {
      var n, low := |s| - 1, BeVal(s[1..]);
      ToBeOfBeVal(s[1..]);
      ToBeHead(BeVal(s), n);
      BeBound(s[1..]);
      assert s[0..] == s;
      BeHead(s, 0);
      DivModUnique(BeVal(s), Pow(256, n), s[0], low);
      ToBeLow(s[0], low, n);
      assert s == [s[0]] + s[1..];
    }
  }

  /** Multiples of 256^n do not show in n bytes. */
  lemma {:induction false} ToBeLow(x: nat, v: nat, n: nat)
    ensures Pow(256, n) > 0 && ToBe(x * Pow(256, n) + v, n) == ToBe(v, n)
    decreases n
  {
    PowPos(256, n);
    if n > 0 {
      PowPos(256, n - 1);
      ToBeLow(x, v / 256, n - 1);
      var y := x * Pow(256, n - 1);
      MulShuffle256(x, Pow(256, n - 1));
      DivModUnique(256 * y + v, 256, y + v / 256, v % 256);
    }
  }

  /** The constant of the field of 8 * bs bits. */
  function Rn(bs: nat): Byte {
    if bs == 16 then 0x87 else 0x1B
  }

  /** Multiplication by u, most significant bit first (section 2.3 of RFC 4493). */
  function TimesU(s: seq<Byte>): (r: seq<Byte>)
    ensures |r| == |s|
  {
    ToBe(MulX(BeVal(s), 8 * |s|, Rn(|s|)), |s|)
  }

  /** The shift loop after the bytes from i on: out is twice s there, less the bit carried out. */
  ghost predicate ShiftLoop(s: seq<Byte>, out: seq<Byte>, i: nat, carry: nat) {
    && i <= |s| == |out| && carry <= 1
    && BeVal(out[i..]) + carry * Pow(256, |s| - i) == 2 * BeVal(s[i..])
  }

  lemma ShiftStep(s: seq<Byte>, out: seq<Byte>, i: nat, carry: nat)
    requires 0 < i && ShiftLoop(s, out, i, carry)
    ensures var x: nat := s[i - 1];
            (2 * x) % 256 + carry < 256 && ShiftLoop(s, out[i - 1 := (2 * x) % 256 + carry], i - 1, x / 128)
  {
    hide BeVal, Pow;
    var x: nat := s[i - 1];
    var e := (2 * x) % 256 + carry;
    assert 2 * x == 256 * (x / 128) + (2 * x) % 256;
    var out' := out[i - 1 := e];
    BeHead(s, i - 1);
    BeHead(out', i - 1);
    assert out'[i..] == out[i..];
    var p := Pow(256, |s| - i);
    PowSucc256(|s| - i);
    ShiftIdentity(x, x / 128, (2 * x) % 256, carry, p, BeVal(out[i..]), BeVal(s[i..]));
  }

  lemma ShiftIdentity(x: int, q: int, r: int, carry: int, p: int, vo: int, vs: int)
    requires 2 * x == 256 * q + r && vo + carry * p == 2 * vs
    ensures ((r + carry) * p + vo) + q * (256 * p) == 2 * (x * p + vs)
  {
    assert (r + carry) * p == r * p + carry * p;
    assert (256 * q + r) * p == 256 * (q * p) + r * p;
    assert 2 * (x * p) == (2 * x) * p;
  }

  /** cmac_multiply_by_u. */
  method MultiplyByU(input: seq<Byte>) returns (ret: int, output: seq<Byte>)
    ensures |input| != 8 && |input| != 16 ==> ret == ERR_BAD_INPUT_DATA
    ensures |input| == 8 || |input| == 16 ==> ret == 0 && output == TimesU(input)
  {
    hide *;
    output := [];
    if |input| != 16 && |input| != 8 { return ERR_BAD_INPUT_DATA, []; }
    var r: Byte := if |input| == 16 then 0x87 else 0x1B;
    output := seq(|input|, i => 0);
    var carry: nat := 0;
    ShiftStart(input, output);
    var i := |input|;
    while i > 0
      invariant 0 <= i <= |input| == |output| && carry <= 1
      invariant i < |input| ==> carry == input[i] / 128
      invariant ShiftLoop(input, output, i, carry)
    {
      ShiftStep(input, output, i, carry);
      i := i - 1;
      var x: nat := input[i];
      BitOrByte((2 * x) % 256, carry);
      output := output[i := BitOr((2 * x) % 256, carry)];
      carry := x / 128;
    }
    // R_n & mask, where the mask is all ones exactly if the first bit is set
    var reduction: Byte := if input[0] / 128 == 1 then r else 0;
    LastByte(input, output, carry, r);
    var n := |input| - 1;
    output := output[n := XorByte(output[n], reduction)];
    ret := 0;
  }

  lemma ShiftStart(s: seq<Byte>, out: seq<Byte>)
    requires |s| == |out|
    ensures ShiftLoop(s, out, |s|, 0)
  {
    assert s[|s|..] == [] && out[|s|..] == [];
  }

  lemma BitOrByte(x: nat, carry: nat)
    requires x < 256 && x % 2 == 0 && carry <= 1
    ensures BitOr(x, carry) == x + carry
  {
    hide BitOr;
    assert Pow2(1) == 2;
    BitOrDisjoint(x, carry, 1);
  }

  lemma {:induction false} PowIsPow2(n: nat)
    ensures Pow(256, n) == Pow2(8 * n)
  {
    if n == 0 {
      Pow2Succ(0);
    } else {
      PowIsPow2(n - 1);
      Pow2Add(8, 8 * (n - 1));
      assert Pow2(8) == 256;
    }
  }

  /** The reduction: only the last byte changes. */
  lemma LastByte(s: seq<Byte>, out: seq<Byte>, carry: nat, r: Byte)
    requires (|s| == 8 || |s| == 16) && r == (if |s| == 16 then 0x87 else 0x1B) && ShiftLoop(s, out, 0, carry)
    ensures var n := |s| - 1; out[n := XorByte(out[n], if carry == 1 then r else 0)] == TimesU(s)
  {
    hide BeVal, Pow, Pow2, BitXor, ToBe;
    var n := |s| - 1;
    var p := Pow2(8 * |s|);
    PowIsPow2(|s|);
    assert out[0..] == out && s[0..] == s;
    var w := BeVal(out);
    assert w + carry * p == 2 * BeVal(s);
    BeBound(out);
    var out' := out[n := XorByte(out[n], if carry == 1 then r else 0)];
    if carry == 0 {
      XorZero(out[n]);
      assert out' == out;
    } else {
      XorSplit(1, w, 1, r, 8 * |s|) by { RnSmall(|s|); }
      XorZero(1);
      assert out == out[..n] + [out[n]] && out' == out[..n] + [XorByte(out[n], r)];
      BeSnoc(out[..n], out[n]);
      BeSnoc(out[..n], XorByte(out[n], r));
      Pow2Is256();
      XorSplit(BeVal(out[..n]), out[n], 0, r, 8);
      XorZero(BeVal(out[..n]));
    }
    assert BeVal(out') == MulX(BeVal(s), 8 * |s|, r);
    ToBeOfBeVal(out');
  }

  lemma Pow2Is256()
    ensures Pow2(8) == 256
  {
  }

  lemma RnSmall(bs: nat)
    requires 1 <= bs
    ensures Rn(bs) < Pow2(8 * bs)
  {
    hide Pow2;
    Pow2Is256();
    Pow2Add(8, 8 * (bs - 1));
    MulMono(1, Pow2(8 * (bs - 1)), 256);
  }

  /** Doubling in GF(2^64) and GF(2^128), by value. */
  lemma TimesUIs(s: seq<Byte>)
    requires |s| == 8 || |s| == 16
    ensures var v, r := BeVal(s), BeVal(TimesU(s));
            && (2 * v < Pow2(8 * |s|) ==> r == 2 * v)
            && (2 * v >= Pow2(8 * |s|) && |s| == 8 ==> r == BitXor(2 * v, Pow2(64) + 0x1B))
            && (2 * v >= Pow2(8 * |s|) && |s| == 16 ==> r == BitXor(2 * v, Pow2(128) + 0x87))
  {
    hide BeVal, ToBe, BitXor, Pow2, Pow;
    var v := BeVal(s);
    BeBound(s);
    PowIsPow2(|s|);
    MulXBound(v, 8 * |s|, |s|);
    BeOfToBe(MulX(v, 8 * |s|, Rn(|s|)), |s|);
  }

  lemma MulXBound(v: nat, n: nat, bs: nat)
    requires v < Pow2(n) && n == 8 * bs && 1 <= bs
    ensures MulX(v, n, Rn(bs)) < Pow2(n)
  {
    hide BitXor, Pow2;
    if 2 * v >= Pow2(n) {
      var p := Pow2(n);
      RnSmall(bs);
      XorSplit(1, 2 * v - p, 1, Rn(bs), n);
      XorZero(1);
      XorBound(2 * v - p, Rn(bs), n);
    }
  }

  // ---------------------------------------------------------------- the definition

  predicate BlockSize(c: BlockCipher) {
    c.bs == 8 || c.bs == 16
  }

  function Zeros(c: BlockCipher): (z: seq<Byte>)
    ensures |z| == c.bs
  {
    Fill(c.bs, 0)
  }

  function K1(c: BlockCipher): (k: seq<Byte>)
    requires c.Valid()
    ensures |k| == c.bs
  {
    TimesU(c.enc(Zeros(c)))
  }

  function K2(c: BlockCipher): (k: seq<Byte>)
    requires c.Valid()
    ensures |k| == c.bs
  {
    TimesU(K1(c))
  }

  /** 10* padding to a whole block. */
  function Pad(s: seq<Byte>, bs: nat): (r: seq<Byte>)
    requires |s| < bs
    ensures |r| == bs
  {
    s + [0x80] + Fill(bs - |s| - 1, 0)
  }

  /** M_last for a last block of at most bs bytes. */
  function Last(c: BlockCipher, s: seq<Byte>): (r: seq<Byte>)
    requires c.Valid() && |s| <= c.bs
    ensures |r| == c.bs
  {
    if |s| == c.bs then XorSeq(s, K1(c)) else XorSeq(Pad(s, c.bs), K2(c))
  }

  /** Section 2.4 of RFC 4493 from chaining value x on: a block at a time up to the last one. */
  function MacFrom(c: BlockCipher, x: seq<Byte>, m: seq<Byte>): (t: seq<Byte>)
    requires c.Valid() && |x| == c.bs
    ensures |t| == c.bs
    decreases |m|
  {
    if |m| <= c.bs then c.enc(XorSeq(Last(c, m), x))
    else MacFrom(c, c.enc(XorSeq(m[..c.bs], x)), m[c.bs..])
  }

  function Mac(c: BlockCipher, m: seq<Byte>): (t: seq<Byte>)
    requires c.Valid()
    ensures |t| == c.bs
  {
    MacFrom(c, Zeros(c), m)
  }

  /** All blocks but the last go through CBC-MAC. */
  lemma {:induction false} MacOfParts(c: BlockCipher, x: seq<Byte>, d: seq<Byte>, h: seq<Byte>)
    requires c.Valid() && |x| == c.bs && Whole(|d|, c.bs) && |h| <= c.bs && (h == [] ==> d == [])
    ensures MacFrom(c, x, d + h) == c.enc(XorSeq(Last(c, h), CbcMac(c, x, d)))
    decreases |d|
  {
    hide Last, XorSeq, CbcMac, Whole;
    if d == [] {
      assert d + h == h;
      MacEmpty(c, x);
    } else {
      WholeTail(|d|, c.bs);
      var b, d' := d[..c.bs], d[c.bs..];
      assert d == b + d';
      MacFirst(c, x, b, d');
      XorSeqComm(x, b);
      MacOfParts(c, c.enc(XorSeq(b, x)), d', h);
      AppendAssoc(b, d', h);
      MacFromFirst(c, x, b, d' + h);
    }
  }

  lemma MacFromFirst(c: BlockCipher, x: seq<Byte>, b: seq<Byte>, m: seq<Byte>)
    requires c.Valid() && |x| == c.bs == |b| && m != []
    ensures MacFrom(c, x, b + m) == MacFrom(c, c.enc(XorSeq(b, x)), m)
  {
    hide XorSeq, Last;
    assert (b + m)[..c.bs] == b && (b + m)[c.bs..] == m;
  }

  /** Section 2.4 of RFC 4493 in the cipher, CBC-MAC, exclusive or and doubling alone: a message of whole blocks. */
  lemma MacOfWhole(c: BlockCipher, m: seq<Byte>)
    requires c.Valid() && 0 < |m| && |m| % c.bs == 0
    ensures c.bs <= |m| && Whole(|m| - c.bs, c.bs)
    ensures var y := CbcMac(c, Fill(c.bs, 0), m[..|m| - c.bs]);
            Mac(c, m) == c.enc(XorSeq(XorSeq(m[|m| - c.bs..], TimesU(c.enc(Fill(c.bs, 0)))), y))
  {
    hide XorSeq, CbcMac, TimesU, MacFrom;
    WholeTail(|m|, c.bs);
    var d, h := m[..|m| - c.bs], m[|m| - c.bs..];
    assert m == d + h;
    MacOfParts(c, Zeros(c), d, h);
  }

  /** A message with an incomplete last block, the empty one included. */
  lemma MacOfPartial(c: BlockCipher, m: seq<Byte>)
    requires c.Valid() && (|m| == 0 || |m| % c.bs != 0)
    ensures |m| % c.bs < c.bs && |m| % c.bs <= |m| && Whole(|m| - |m| % c.bs, c.bs)
    ensures var r := |m| % c.bs;
            var y := CbcMac(c, Fill(c.bs, 0), m[..|m| - r]);
            Mac(c, m) == c.enc(XorSeq(XorSeq(m[|m| - r..] + [0x80] + Fill(c.bs - r - 1, 0), TimesU(TimesU(c.enc(Fill(c.bs, 0))))), y))
  {
    hide XorSeq, CbcMac, TimesU, MacFrom;
    var r := |m| % c.bs;
    Remainder(|m|, c.bs);
    var d, h := m[..|m| - r], m[|m| - r..];
    assert m == d + h;
    MacOfParts(c, Zeros(c), d, h);
  }

  lemma Positive(c: BlockCipher)
    requires c.Valid()
    ensures 0 < c.bs
  {
  }

  lemma Remainder(n: nat, bs: nat)
    requires 0 < bs
    ensures n % bs <= n && Whole(n - n % bs, bs)
  {
    assert n == bs * (n / bs) + n % bs;
    MulMono(0, n / bs, bs);
    DivModUnique(n - n % bs, bs, n / bs, 0);
  }

  // ---------------------------------------------------------------- the running state

  /** state has absorbed d, whole blocks, of m = d + held; the last 1 to bs bytes of m are held back. */
  ghost predicate Running(c: BlockCipher, m: seq<Byte>, state: seq<Byte>, held: seq<Byte>) {
    && c.Valid() && BlockSize(c) && |held| <= c.bs && |held| <= |m|
    && (held == [] ==> m == [])
    && Whole(|m| - |held|, c.bs)
    && held == m[|m| - |held|..]
    && state == CbcMac(c, Zeros(c), m[..|m| - |held|])
  }

  /** Inside update: d is absorbed and rest, not empty, still to come. */
  ghost predicate Absorbing(c: BlockCipher, m: seq<Byte>, d: seq<Byte>, state: seq<Byte>, rest: seq<Byte>) {
    && c.Valid() && BlockSize(c)
    && m == d + rest && Whole(|d|, c.bs)
    && state == CbcMac(c, Zeros(c), d)
  }

  lemma AbsorbBlock(c: BlockCipher, m: seq<Byte>, d: seq<Byte>, state: seq<Byte>, b: seq<Byte>, rest: seq<Byte>)
    requires Absorbing(c, m, d, state, b + rest) && |b| == c.bs
    ensures |state| == c.bs && Absorbing(c, m, d + b, c.enc(XorSeq(b, state)), rest)
  {
    hide XorSeq, CbcMac, Whole;
    WholeOne(c.bs);
    MacConcat(c, Zeros(c), d, b);
    MacOne(c, state, b);
    XorSeqComm(state, b);
    AppendAssoc(d, b, rest);
  }

  lemma MacOne(c: BlockCipher, y: seq<Byte>, b: seq<Byte>)
    requires c.Valid() && |y| == c.bs == |b|
    ensures Whole(|b|, c.bs) && CbcMac(c, y, b) == c.enc(XorSeq(y, b))
  {
    hide XorSeq, CbcMac, Whole;
    WholeOne(c.bs);
    assert b + [] == b;
    MacFirst(c, y, b, []);
    MacEmpty(c, c.enc(XorSeq(y, b)));
  }

  lemma StopAbsorbing(c: BlockCipher, m: seq<Byte>, d: seq<Byte>, state: seq<Byte>, rest: seq<Byte>)
    requires Absorbing(c, m, d, state, rest) && |rest| <= c.bs && (rest == [] ==> m == [])
    ensures Running(c, m, state, rest)
  {
    hide CbcMac, Whole;
    assert m[|m| - |rest|..] == rest && m[..|m| - |rest|] == d;
  }

  lemma StartAbsorbing(c: BlockCipher, m: seq<Byte>, state: seq<Byte>, held: seq<Byte>, input: seq<Byte>)
    requires Running(c, m, state, held)
    ensures Absorbing(c, m + input, m[..|m| - |held|], state, held + input)
  {
    hide CbcMac, Whole;
    assert m == m[..|m| - |held|] + held;
    AppendAssoc(m[..|m| - |held|], held, input);
  }

  /** mbedtls_cmac_context_t, with the message so far as its abstract value. */
  class Context {
    const c: BlockCipher
    var state: seq<Byte>
    var unprocessed: seq<Byte>
    ghost var message: seq<Byte>

    ghost predicate Valid()
      reads this
    {
      Running(c, message, state, unprocessed)
    }

    /** mbedtls_cipher_cmac_starts. */
    constructor (cipher: BlockCipher)
      requires cipher.Valid() && BlockSize(cipher)
      ensures Valid() && c == cipher && message == []
    {
      c := cipher;
      state := Zeros(cipher);
      unprocessed := [];
      message := [];
      MacEmpty(cipher, Zeros(cipher));
    }

    /** mbedtls_cipher_cmac_update: the message grows by the input, however it is cut. */
    method Update(input: seq<Byte>)
      requires Valid()
      modifies this
      ensures Valid() && message == old(message) + input
    {
      hide Running, Absorbing, XorSeq;
      RunningFacts(c, message, state, unprocessed);
      StartAbsorbing(c, message, state, unprocessed, input);
      ghost var m := message + input;
      ghost var d := message[..|message| - |unprocessed|];
      var rest := input;
      if |unprocessed| > 0 && |input| > c.bs - |unprocessed| {
        var k := c.bs - |unprocessed|;
        var block := unprocessed + input[..k];
        assert unprocessed + input == block + input[k..];
        AbsorbBlock(c, m, d, state, block, input[k..]);
        state := c.enc(XorSeq(block, state));
        d := d + block;
        rest := input[k..];
        unprocessed := [];
        assert unprocessed + rest == rest;
      }
      message := m;
      Absorb(d, rest);
    }

    /** The blocks before the last one, and what is held back. */
    method Absorb(ghost d: seq<Byte>, input: seq<Byte>)
      requires c.Valid() && Absorbing(c, message, d, state, unprocessed + input)
      requires unprocessed == [] || |unprocessed + input| <= c.bs
      requires unprocessed + input == [] ==> message == []
      modifies this`state, this`unprocessed
      ensures Valid()
    {
      hide Absorbing, Running, XorSeq;
      var n := (|input| + c.bs - 1) / c.bs;
      var rest := input;
      ghost var done := d;
      AbsorbingFacts(c, message, d, state, unprocessed + input);
      BlockCount(|input|, c.bs);
      assert unprocessed == [] ==> unprocessed + input == input;
      if n >= 2 {
        done, rest := AbsorbBlocks(d, input, n);
        assert unprocessed + rest == rest;
      }
      if |rest| > 0 {
        unprocessed := unprocessed + rest;
      } else {
        assert unprocessed + rest == unprocessed;
      }
      StopAbsorbing(c, message, done, state, unprocessed);
    }

    method AbsorbBlocks(ghost d: seq<Byte>, input: seq<Byte>, n: nat) returns (ghost done: seq<Byte>, rest: seq<Byte>)
      requires c.Valid() && unprocessed == [] && Absorbing(c, message, d, state, input)
      requires 2 <= n && (n - 1) * c.bs < |input| <= n * c.bs
      modifies this`state
      ensures Absorbing(c, message, done, state, rest) && 0 < |rest| <= c.bs
    {
      hide Absorbing, XorSeq;
      rest, done := input, d;
      var j := 1;
      while j < n
        invariant 1 <= j <= n && (n - j) * c.bs < |rest| <= (n - j + 1) * c.bs
        invariant Absorbing(c, message, done, state, rest)
      {
        AbsorbingFacts(c, message, done, state, rest);
        OneBlockLess(n, j, c.bs, |rest|);
        var block := rest[..c.bs];
        assert rest == block + rest[c.bs..];
        AbsorbBlock(c, message, done, state, block, rest[c.bs..]);
        state := c.enc(XorSeq(block, state));
        done := done + block;
        rest := rest[c.bs..];
        j := j + 1;
      }
    }

    /** mbedtls_cipher_cmac_finish: the MAC of the message; the context starts over. */
    method Finish() returns (output: seq<Byte>)
      requires Valid()
      modifies this
      ensures Valid() && message == [] && output == Mac(c, old(message))
      ensures 0 < |old(message)| && |old(message)| % c.bs == 0 ==>
        c.bs <= |old(message)| && Whole(|old(message)| - c.bs, c.bs) &&
        var m, bs := old(message), c.bs;
        var y := CbcMac(c, Fill(bs, 0), m[..|m| - bs]);
        output == c.enc(XorSeq(XorSeq(m[|m| - bs..], TimesU(c.enc(Fill(bs, 0)))), y))
      ensures |old(message)| == 0 || |old(message)| % c.bs != 0 ==>
        var m, bs, r := old(message), c.bs, |old(message)| % c.bs;
        r <= |m| && Whole(|m| - r, bs) &&
        var y := CbcMac(c, Fill(bs, 0), m[..|m| - r]);
        output == c.enc(XorSeq(XorSeq(m[|m| - r..] + [0x80] + Fill(bs - r - 1, 0), TimesU(TimesU(c.enc(Fill(bs, 0))))), y))
    {
      hide *;
      output := LastBlock();
      Positive(c);
      if 0 < |old(message)| && |old(message)| % c.bs == 0 { MacOfWhole(c, old(message)); } else { MacOfPartial(c, old(message)); }
    }

    /** The last block, its subkey and the final encryption. */
    method LastBlock() returns (output: seq<Byte>)
      requires Valid()
      modifies this
      ensures c.Valid() && Valid() && message == [] && output == Mac(c, old(message))
    {
      hide XorSeq, CbcMac, TimesU, Whole;
      var k1, k2 := GenerateSubkeys(c);
      var last;
      if |unprocessed| < c.bs {
        last := Pad(unprocessed, c.bs);
        last := XorSeq(last, k2);
      } else {
        last := XorSeq(unprocessed, k1);
      }
      ghost var d := message[..|message| - |unprocessed|];
      assert message == d + unprocessed;
      MacOfParts(c, Zeros(c), d, unprocessed);
      state := c.enc(XorSeq(last, state));
      output := state;
      unprocessed := [];
      state := Zeros(c);
      message := [];
      MacEmpty(c, Zeros(c));
    }

    /** mbedtls_cipher_cmac_reset. */
    method Reset()
      requires Valid()
      modifies this
      ensures Valid() && message == []
    {
      hide XorSeq, CbcMac;
      unprocessed := [];
      state := Zeros(c);
      message := [];
      MacEmpty(c, Zeros(c));
    }
  }

  lemma RunningFacts(c: BlockCipher, m: seq<Byte>, state: seq<Byte>, held: seq<Byte>)
    requires Running(c, m, state, held)
    ensures c.Valid() && |held| <= c.bs && |held| <= |m| && |state| == c.bs && (held == [] ==> m == [])
  {
  }

  lemma AbsorbingFacts(c: BlockCipher, m: seq<Byte>, d: seq<Byte>, state: seq<Byte>, rest: seq<Byte>)
    requires Absorbing(c, m, d, state, rest)
    ensures c.Valid() && BlockSize(c) && |state| == c.bs
  {
  }

  lemma BlockCount(n: nat, bs: nat)
    requires 0 < bs
    ensures var k := (n + bs - 1) / bs; (k - 1) * bs < n <= k * bs || n == k == 0
    ensures (n + bs - 1) / bs >= 2 <==> n > bs
  {
    var k := (n + bs - 1) / bs;
    assert n + bs - 1 == bs * k + (n + bs - 1) % bs;
    if n == 0 { DivModUnique(bs - 1, bs, 0, bs - 1); }
    if k >= 2 { MulMono(2, k, bs); } else { MulMono(k, 1, bs); }
    assert (k - 1) * bs == k * bs - bs;
  }

  lemma OneBlockLess(n: nat, j: nat, bs: nat, len: nat)
    requires 1 <= j < n && 0 < bs && (n - j) * bs < len <= (n - j + 1) * bs
    ensures bs < len && (n - j - 1) * bs < len - bs <= (n - j) * bs
  {
    var k := n - j;
    assert (k + 1) * bs == k * bs + bs && (k - 1) * bs == k * bs - bs;
    MulMono(1, k, bs);
  }

  /** cmac_generate_subkeys. */
  method GenerateSubkeys(c: BlockCipher) returns (k1: seq<Byte>, k2: seq<Byte>)
    requires c.Valid() && BlockSize(c)
    ensures k1 == K1(c) && k2 == K2(c)
  {
    hide TimesU;
    var l := c.enc(Zeros(c));
    var ret;
    ret, k1 := MultiplyByU(l);
    ret, k2 := MultiplyByU(k1);
  }

  /** Every way of cutting a message into updates gives the MAC of the message. */
  method MacOfChunks(cipher: BlockCipher, chunks: seq<seq<Byte>>) returns (tag: seq<Byte>)
    requires cipher.Valid() && BlockSize(cipher)
    ensures tag == Mac(cipher, Flatten(chunks))
    ensures var m, bs := Flatten(chunks), cipher.bs;
      0 < |m| && |m| % bs == 0 ==>
        bs <= |m| && Whole(|m| - bs, bs) &&
        var y := CbcMac(cipher, Fill(bs, 0), m[..|m| - bs]);
        tag == cipher.enc(XorSeq(XorSeq(m[|m| - bs..], TimesU(cipher.enc(Fill(bs, 0)))), y))
    ensures var m, bs, r := Flatten(chunks), cipher.bs, |Flatten(chunks)| % cipher.bs;
      |m| == 0 || r != 0 ==>
        r <= |m| && Whole(|m| - r, bs) &&
        var y := CbcMac(cipher, Fill(bs, 0), m[..|m| - r]);
        tag == cipher.enc(XorSeq(XorSeq(m[|m| - r..] + [0x80] + Fill(bs - r - 1, 0), TimesU(TimesU(cipher.enc(Fill(bs, 0))))), y))
  {
    hide *;
    tag := UpdateChunks(cipher, chunks);
    Positive(cipher);
    ghost var m := Flatten(chunks);
    if 0 < |m| && |m| % cipher.bs == 0 { MacOfWhole(cipher, m); } else { MacOfPartial(cipher, m); }
  }

  method UpdateChunks(cipher: BlockCipher, chunks: seq<seq<Byte>>) returns (tag: seq<Byte>)
    requires cipher.Valid() && BlockSize(cipher)
    ensures tag == Mac(cipher, Flatten(chunks))
  {
    hide Mac, Running, XorSeq, CbcMac, TimesU;
    var ctx := new Context(cipher);
    var i := 0;
    while i < |chunks|
      invariant 0 <= i <= |chunks| && ctx.Valid() && ctx.c == cipher
      invariant ctx.message + Flatten(chunks[i..]) == Flatten(chunks)
    {
      assert chunks[i..][1..] == chunks[i + 1..];
      AppendAssoc(ctx.message, chunks[i], Flatten(chunks[i + 1..]));
      ctx.Update(chunks[i]);
      i := i + 1;
    }
    assert ctx.message == Flatten(chunks);
    tag := ctx.Finish();
  }
}
