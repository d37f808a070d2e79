/** AES-XTS of mbedtls/library/aes.c over an arbitrary 16-byte block cipher. */
module Xts {
  import opened Arith
  import opened Limbs
  import opened Bytes

  const ERR_INVALID_INPUT_LENGTH: int := -0x0022

  // ---------------------------------------------------------------- multiplication by x

  /** x * v in the field of section 5.2 of IEEE Std 1619-2007. */
  function TimesX(v: nat): nat {
    MulX(v, 128, 0x87)
  }

  /** The tweak of the next block: multiplication by x on the 16 bytes. */
  function NextTweak(x: seq<Byte>): (r: seq<Byte>)
    requires |x| == 16
    ensures |r| == 16
  {
    ToLe(TimesX(LeVal(x)), 16)
  }

  /** Doubling a word: the carry and what stays. */
  lemma Doubled(a: Limb)
    ensures a / 0x8000_0000_0000_0000 <= 1
    ensures 2 * a == B * (a / 0x8000_0000_0000_0000) + 2 * a % B && 2 * a % B % 2 == 0
  {
    if a < 0x8000_0000_0000_0000 {
      DivModUnique(2 * a, B, 0, 2 * a);
    } else {
      DivModUnique(2 * a, B, 1, 2 * a - B);
    }
  }

  /** The two new words, as the code computes them. */
  function LowWord(a: Limb, b: Limb): nat {
    Doubled(b);
    BitXor(2 * a % B, 0x87 / Pow2(8 - b / 0x8000_0000_0000_0000 * 8))
  }

  function HighWord(a: Limb, b: Limb): nat {
    BitOr(a / 0x8000_0000_0000_0000, 2 * b % B)
  }

  lemma HighWordIs(a: Limb, b: Limb)
    ensures HighWord(a, b) == a / 0x8000_0000_0000_0000 + 2 * b % B && HighWord(a, b) < B
  {
    Doubled(a);
    Doubled(b);
    hide BitOr;
    assert Pow2(1) == 2;
    BitOrSwap(2 * b % B, a / 0x8000_0000_0000_0000, 1);
  }

  lemma LowWordIs(a: Limb, b: Limb)
    ensures LowWord(a, b) == BitXor(2 * a % B, if b < 0x8000_0000_0000_0000 then 0 else 0x87)
    ensures LowWord(a, b) < B
  {
    Doubled(b);
    assert Pow2(8) == 256 && Pow2(0) == 1;
    hide BitXor;
    Pow2Bil();
    XorBound(2 * a % B, if b < 0x8000_0000_0000_0000 then 0 else 0x87, 64);
  }

  /** The word operations are multiplication by x in GF(2^128). */
  lemma WordsAreTimesX(a: Limb, b: Limb)
    ensures LowWord(a, b) + B * HighWord(a, b) == TimesX(a + B * b)
  {
    hide BitXor, LowWord, HighWord, Pow2;
    LowWordIs(a, b);
    HighWordIs(a, b);
    Doubled(a);
    Doubled(b);
    Pow2Bil();
    Pow2Add(64, 64);
    var lo, hi := 2 * a % B, HighWord(a, b);
    var c := b / 0x8000_0000_0000_0000;
    assert 2 * (a + B * b) == lo + B * hi + B * B * c;
    XorZero(lo);
    if c == 1 {
      XorSplit(1, hi * B + lo, 1, 0x87, 128);
      XorZero(1);
      XorSplit(hi, lo, 0, 0x87, 64);
      XorZero(hi);
    }
  }

  /** mbedtls_gf128mul_x_ble: the tweak as two little-endian 64-bit words. */
  method Gf128MulX(x: seq<Byte>) returns (r: seq<Byte>)
    requires |x| == 16
    ensures r == NextTweak(x) && LeVal(r) == TimesX(LeVal(x))
  {
    hide LeVal, ToLe, TimesX, LowWord, HighWord, Pow2;
    TweakWords(x);
    var a: Limb, b: Limb := LeVal(x[..8]), LeVal(x[8..]);
    var ra, rb := LowWord(a, b), HighWord(a, b);
    r := ToLe(ra, 8) + ToLe(rb, 8);
    WordsAreTimesX(a, b);
    LowWordIs(a, b);
    HighWordIs(a, b);
    Pow2Bil();
    Pow2Add(64, 64);
    ToLeSplit(ra, 8, rb, 8);
    LeToLe(ra + B * rb, 16);
  }

  lemma TweakWords(x: seq<Byte>)
    requires |x| == 16
    ensures LeVal(x[..8]) < B && LeVal(x[8..]) < B && LeVal(x) == LeVal(x[..8]) + B * LeVal(x[8..])
  {
    hide LeVal, Pow2;
    Pow2Bil();
    LeBound(x[..8]);
    LeBound(x[8..]);
    LeConcat(x[..8], x[8..]);
    assert x == x[..8] + x[8..];
  }

  // ---------------------------------------------------------------- one block

  datatype Mode = Encrypt | Decrypt

  function Cipher(c: BlockCipher, mode: Mode, x: seq<Byte>): (r: seq<Byte>)
    requires c.Valid() && c.bs == 16 && |x| == 16
    ensures |r| == 16
  {
    if mode == Encrypt then c.enc(x) else c.dec(x)
  }

  function XexBlock(c: BlockCipher, mode: Mode, x: seq<Byte>, t: seq<Byte>): (r: seq<Byte>)
    requires c.Valid() && c.bs == 16 && |x| == 16 && |t| == 16
    ensures |r| == 16
  {
    XorSeq(Cipher(c, mode, XorSeq(x, t)), t)
  }

  lemma XexInverse(c: BlockCipher, x: seq<Byte>, t: seq<Byte>)
    requires c.Valid() && c.bs == 16 && |x| == 16 && |t| == 16
    ensures XexBlock(c, Decrypt, XexBlock(c, Encrypt, x, t), t) == x
  {
    hide XorSeq;
    var y := XorSeq(x, t);
    XorSeqCancel(x, t);
    XorSeqCancel(c.enc(y), t);
  }

  // ---------------------------------------------------------------- a data unit

  /** The last full block and the r bytes after it: ciphertext stealing. */
  function Steal(c: BlockCipher, mode: Mode, t: seq<Byte>, block: seq<Byte>, left: seq<Byte>): (r: seq<Byte>)
    requires c.Valid() && c.bs == 16 && |t| == 16 && |block| == 16 && 0 < |left| < 16
    ensures |r| == 16 + |left|
  {
    var first := if mode == Encrypt then t else NextTweak(t);
    var second := if mode == Encrypt then NextTweak(t) else t;
    var y := XexBlock(c, mode, block, first);
    XexBlock(c, mode, left + y[|left|..], second) + y[..|left|]
  }

  /** A data unit of at least one block with tweak t for its first block. */
  function Unit(c: BlockCipher, mode: Mode, t: seq<Byte>, data: seq<Byte>): (r: seq<Byte>)
    requires c.Valid() && c.bs == 16 && |t| == 16 && |data| >= 16
    ensures |r| == |data|
    decreases |data|
  {
    if |data| == 16 then XexBlock(c, mode, data, t)
    else if |data| < 32 then Steal(c, mode, t, data[..16], data[16..])
    else XexBlock(c, mode, data[..16], t) + Unit(c, mode, NextTweak(t), data[16..])
  }

  /** Decryption undoes stealing: the two tweaks are swapped. */
  lemma StealInverse(c: BlockCipher, t: seq<Byte>, block: seq<Byte>, left: seq<Byte>)
    requires c.Valid() && c.bs == 16 && |t| == 16 && |block| == 16 && 0 < |left| < 16
    ensures var ct := Steal(c, Encrypt, t, block, left);
            Steal(c, Decrypt, t, ct[..16], ct[16..]) == block + left
  {
    hide XexBlock, NextTweak;
    var r := |left|;
    var y := XexBlock(c, Encrypt, block, t);
    var z := left + y[r..];
    var w := XexBlock(c, Encrypt, z, NextTweak(t));
    var ct := w + y[..r];
    assert ct[..16] == w && ct[16..] == y[..r];
    XexInverse(c, z, NextTweak(t));
    assert z[r..] == y[r..] && z[..r] == left;
    assert y[..r] + y[r..] == y;
    XexInverse(c, block, t);
  }

  /** Decryption undoes encryption for every length from one block up, whatever the tweak. */
  lemma {:induction false} UnitInverse(c: BlockCipher, t: seq<Byte>, data: seq<Byte>)
    requires c.Valid() && c.bs == 16 && |t| == 16 && |data| >= 16
    ensures Unit(c, Decrypt, t, Unit(c, Encrypt, t, data)) == data
    decreases |data|
  {
    hide XexBlock, Steal, NextTweak;
    if |data| == 16 {
      XexInverse(c, data, t);
    } else {
      assert data == data[..16] + data[16..];
      if |data| < 32 {
        StealInverse(c, t, data[..16], data[16..]);
      } else {
        XexInverse(c, data[..16], t);
        UnitInverse(c, NextTweak(t), data[16..]);
        FirstOfUnit(c, t, XexBlock(c, Encrypt, data[..16], t), Unit(c, Encrypt, NextTweak(t), data[16..]));
      }
    }
  }

  lemma FirstOfUnit(c: BlockCipher, t: seq<Byte>, x: seq<Byte>, rest: seq<Byte>)
    requires c.Valid() && c.bs == 16 && |t| == 16 == |x| && |rest| >= 16
    ensures Unit(c, Decrypt, t, x + rest) == XexBlock(c, Decrypt, x, t) + Unit(c, Decrypt, NextTweak(t), rest)
  {
    assert (x + rest)[..16] == x && (x + rest)[16..] == rest;
  }

  // ---------------------------------------------------------------- a data unit block by block

  /** The tweak of block k: x^k times the first one. */
  function TweakAt(t: seq<Byte>, k: nat): (r: seq<Byte>)
    requires |t| == 16
    ensures |r| == 16
  {
    if k == 0 then t else NextTweak(TweakAt(t, k - 1))
  }

  /** As numbers: doubled each time, reduced by x^128 + x^7 + x^2 + x + 1. */
  lemma TweakAtIs(t: seq<Byte>, k: nat)
    requires |t| == 16
    ensures TweakAt(t, 0) == t
    ensures var v := LeVal(TweakAt(t, k));
            LeVal(TweakAt(t, k + 1)) == if 2 * v < Pow2(128) then 2 * v else BitXor(2 * v, Pow2(128) + 0x87)
  {
    hide LeVal, ToLe, BitXor, Pow2;
    var s := TweakAt(t, k);
    LeBound(s);
    TimesXBound(LeVal(s));
    LeToLe(TimesX(LeVal(s)), 16);
  }

  lemma TimesXBound(v: nat)
    requires v < Pow2(128)
    ensures TimesX(v) < Pow2(128)
  {
    hide BitXor, Pow2;
    if 2 * v >= Pow2(128) {
      var p := Pow2(128);
      Pow2Unit7();
      XorSplit(1, 2 * v - p, 1, 0x87, 128);
      XorZero(1);
      XorBound(2 * v - p, 0x87, 128);
    }
  }

  lemma Pow2Unit7()
    ensures 0x87 < Pow2(128)
  {
    hide Pow2;
    Pow2Eight();
    Pow2Add(8, 120);
    MulMono(1, Pow2(120), 256);
  }

  lemma {:induction false} TweakAtNext(t: seq<Byte>, k: nat)
    requires |t| == 16
    ensures TweakAt(NextTweak(t), k) == TweakAt(t, k + 1)
  {
    hide NextTweak;
    if k > 0 { TweakAtNext(t, k - 1); }
  }

  /** Every block before a stolen one is whitened with its tweak before and after the cipher. */
  lemma {:induction false} UnitBlock(c: BlockCipher, mode: Mode, t: seq<Byte>, data: seq<Byte>, k: nat)
    requires c.Valid() && c.bs == 16 && |t| == 16
    requires 16 * k + 16 <= |data| && (|data| % 16 != 0 ==> 16 * k + 32 <= |data|)
    ensures Unit(c, mode, t, data)[16 * k..16 * k + 16] == XexBlock(c, mode, data[16 * k..16 * k + 16], TweakAt(t, k))
    decreases k
  {
    hide XexBlock, Steal, NextTweak, BlockCipher.Valid;
    if |data| == 16 {
      assert data[0..16] == data;
    } else {
      assert |data| >= 32;
      var x, rest := XexBlock(c, mode, data[..16], t), Unit(c, mode, NextTweak(t), data[16..]);
      if k == 0 {
        assert (x + rest)[0..16] == x && data[0..16] == data[..16];
      } else {
        UnitBlock(c, mode, NextTweak(t), data[16..], k - 1);
        TweakAtNext(t, k - 1);
        SliceOfRest(x, rest, k);
        assert data[16..][16 * (k - 1)..16 * (k - 1) + 16] == data[16 * k..16 * k + 16];
      }
    }
  }

  lemma SliceOfRest(x: seq<Byte>, rest: seq<Byte>, k: nat)
    requires |x| == 16 && 0 < k && 16 * k <= |rest|
    ensures (x + rest)[16 * k..16 * k + 16] == rest[16 * (k - 1)..16 * (k - 1) + 16]
  {
  }

  /** The last full block, number k, and the bytes after it. */
  lemma {:induction false} UnitTail(c: BlockCipher, mode: Mode, t: seq<Byte>, data: seq<Byte>, k: nat)
    requires c.Valid() && c.bs == 16 && |t| == 16 && 16 * k + 16 < |data| < 16 * k + 32
    ensures Unit(c, mode, t, data)[16 * k..] == Steal(c, mode, TweakAt(t, k), data[16 * k..16 * k + 16], data[16 * k + 16..])
    decreases k
  {
    hide XexBlock, Steal, NextTweak, BlockCipher.Valid;
    if k == 0 {
      assert data[0..16] == data[..16];
      assert Unit(c, mode, t, data)[0..] == Unit(c, mode, t, data);
    } else {
      var x, rest := XexBlock(c, mode, data[..16], t), Unit(c, mode, NextTweak(t), data[16..]);
      UnitTail(c, mode, NextTweak(t), data[16..], k - 1);
      TweakAtNext(t, k - 1);
      assert (x + rest)[16 * k..] == rest[16 * (k - 1)..];
      assert data[16..][16 * (k - 1)..16 * (k - 1) + 16] == data[16 * k..16 * k + 16];
      assert data[16..][16 * (k - 1) + 16..] == data[16 * k + 16..];
    }
  }

  /** Bytes 16 k to 16 k + 15. */
  function Block(s: seq<Byte>, k: nat): (b: seq<Byte>)
    requires 16 * k + 16 <= |s|
    ensures |b| == 16 && forall i :: 0 <= i < 16 ==> b[i] == s[16 * k + i]
  {
    s[16 * k..16 * k + 16]
  }

  /** The data unit of sections 5.3 and 5.4 of IEEE Std 1619-2007, in the cipher and exclusive or alone. */
  lemma UnitLaw(c: BlockCipher, mode: Mode, t0: seq<Byte>, data: seq<Byte>, out: seq<Byte>)
    requires c.Valid() && c.bs == 16 && |t0| == 16 && 16 <= |data| && out == Unit(c, mode, t0, data)
    ensures |out| == |data|
    ensures mode == Encrypt ==>
      forall k: nat :: 16 * k + 16 <= |data| && (|data| % 16 == 0 || 16 * k + 32 <= |data|) ==>
        var t := TweakAt(t0, k);
        Block(out, k) == XorSeq(c.enc(XorSeq(Block(data, k), t)), t)
    ensures mode == Decrypt ==>
      forall k: nat :: 16 * k + 16 <= |data| && (|data| % 16 == 0 || 16 * k + 32 <= |data|) ==>
        var t := TweakAt(t0, k);
        Block(out, k) == XorSeq(c.dec(XorSeq(Block(data, k), t)), t)
  {
    hide Unit, TweakAt, XexBlock, XorSeq, Block, BlockCipher.Valid;
    forall k: nat | 16 * k + 16 <= |data| && (|data| % 16 == 0 || 16 * k + 32 <= |data|)
      ensures mode == Encrypt ==> var t := TweakAt(t0, k); |c.enc(XorSeq(Block(data, k), t))| == 16 && Block(out, k) == XorSeq(c.enc(XorSeq(Block(data, k), t)), t)
      ensures mode == Decrypt ==> var t := TweakAt(t0, k); |c.dec(XorSeq(Block(data, k), t))| == 16 && Block(out, k) == XorSeq(c.dec(XorSeq(Block(data, k), t)), t)
    {
      PlainBlock(c, mode, t0, data, k);
    }
  }

  lemma XexIs(c: BlockCipher, x: seq<Byte>, t: seq<Byte>)
    requires c.Valid() && c.bs == 16 && |x| == 16 && |t| == 16
    ensures |c.enc(XorSeq(x, t))| == 16 && XexBlock(c, Encrypt, x, t) == XorSeq(c.enc(XorSeq(x, t)), t)
    ensures |c.dec(XorSeq(x, t))| == 16 && XexBlock(c, Decrypt, x, t) == XorSeq(c.dec(XorSeq(x, t)), t)
  {
    hide XorSeq;
  }

  lemma PlainBlock(c: BlockCipher, mode: Mode, t0: seq<Byte>, data: seq<Byte>, k: nat)
    requires c.Valid() && c.bs == 16 && |t0| == 16 && 16 * k + 16 <= |data| && (|data| % 16 == 0 || 16 * k + 32 <= |data|)
    ensures |Unit(c, mode, t0, data)| == |data| && |TweakAt(t0, k)| == 16
    ensures mode == Encrypt ==> var t := TweakAt(t0, k);
      |c.enc(XorSeq(Block(data, k), t))| == 16 && Block(Unit(c, mode, t0, data), k) == XorSeq(c.enc(XorSeq(Block(data, k), t)), t)
    ensures mode == Decrypt ==> var t := TweakAt(t0, k);
      |c.dec(XorSeq(Block(data, k), t))| == 16 && Block(Unit(c, mode, t0, data), k) == XorSeq(c.dec(XorSeq(Block(data, k), t)), t)
  {
    hide Unit, TweakAt, XexBlock, XorSeq, BlockCipher.Valid;
    UnitBlock(c, mode, t0, data, k);
    XexIs(c, Block(data, k), TweakAt(t0, k));
  }

  /** Ciphertext stealing the same way: the tweaks of the last two pieces change places for decryption. */
  lemma StealEncLaw(c: BlockCipher, t0: seq<Byte>, data: seq<Byte>, out: seq<Byte>, k: nat)
    requires c.Valid() && c.bs == 16 && |t0| == 16 && 16 * k + 16 < |data| < 16 * k + 32 && out == Unit(c, Encrypt, t0, data)
    ensures |out| == |data|
    ensures var t, u := TweakAt(t0, k), TweakAt(t0, k + 1);
            var y := XorSeq(c.enc(XorSeq(Block(data, k), t)), t);
            var r := |data| - 16 * k - 16;
            out[16 * k + 16..] == y[..r] && Block(out, k) == XorSeq(c.enc(XorSeq(data[16 * k + 16..] + y[r..], u)), u)
  {
    hide Unit, XexBlock, XorSeq, BlockCipher.Valid, NextTweak, Steal, Block;
    UnitTail(c, Encrypt, t0, data, k);
    TailParts(data, k);
    TailParts(out, k);
    StealEncIs(c, t0, k, Block(data, k), data[16 * k + 16..]);
  }

  lemma StealEncIs(c: BlockCipher, t0: seq<Byte>, k: nat, b: seq<Byte>, left: seq<Byte>)
    requires c.Valid() && c.bs == 16 && |t0| == 16 && |b| == 16 && 0 < |left| < 16
    ensures var t, u := TweakAt(t0, k), TweakAt(t0, k + 1);
            |c.enc(XorSeq(b, t))| == 16 &&
            var y := XorSeq(c.enc(XorSeq(b, t)), t);
            var z := left + y[|left|..];
            && |c.enc(XorSeq(z, u))| == 16
            && var s := Steal(c, Encrypt, TweakAt(t0, k), b, left);
               s[16..] == y[..|left|] && s[..16] == XorSeq(c.enc(XorSeq(z, u)), u)
  {
    hide XexBlock, XorSeq, BlockCipher.Valid, NextTweak;
    var t, u := TweakAt(t0, k), TweakAt(t0, k + 1);
    XexIs(c, b, t);
    var y := XexBlock(c, Encrypt, b, t);
    XexIs(c, left + y[|left|..], u);
  }

  lemma StealDecLaw(c: BlockCipher, t0: seq<Byte>, data: seq<Byte>, out: seq<Byte>, k: nat)
    requires c.Valid() && c.bs == 16 && |t0| == 16 && 16 * k + 16 < |data| < 16 * k + 32 && out == Unit(c, Decrypt, t0, data)
    ensures |out| == |data|
    ensures var t, u := TweakAt(t0, k + 1), TweakAt(t0, k);
            var y := XorSeq(c.dec(XorSeq(Block(data, k), t)), t);
            var r := |data| - 16 * k - 16;
            out[16 * k + 16..] == y[..r] && Block(out, k) == XorSeq(c.dec(XorSeq(data[16 * k + 16..] + y[r..], u)), u)
  {
    hide Unit, XexBlock, XorSeq, BlockCipher.Valid, NextTweak, Steal, Block;
    UnitTail(c, Decrypt, t0, data, k);
    TailParts(data, k);
    TailParts(out, k);
    StealDecIs(c, t0, k, Block(data, k), data[16 * k + 16..]);
  }

  lemma StealDecIs(c: BlockCipher, t0: seq<Byte>, k: nat, b: seq<Byte>, left: seq<Byte>)
    requires c.Valid() && c.bs == 16 && |t0| == 16 && |b| == 16 && 0 < |left| < 16
    ensures var t, u := TweakAt(t0, k + 1), TweakAt(t0, k);
            |c.dec(XorSeq(b, t))| == 16 &&
            var y := XorSeq(c.dec(XorSeq(b, t)), t);
            var z := left + y[|left|..];
            && |c.dec(XorSeq(z, u))| == 16
            && var s := Steal(c, Decrypt, TweakAt(t0, k), b, left);
               s[16..] == y[..|left|] && s[..16] == XorSeq(c.dec(XorSeq(z, u)), u)
  {
    hide XexBlock, XorSeq, BlockCipher.Valid, NextTweak;
    var t, u := TweakAt(t0, k + 1), TweakAt(t0, k);
    XexIs(c, b, t);
    var y := XexBlock(c, Decrypt, b, t);
    XexIs(c, left + y[|left|..], u);
  }

  lemma TailParts(out: seq<Byte>, k: nat)
    requires 16 * k + 16 <= |out|
    ensures Block(out, k) == out[16 * k..16 * k + 16] == out[16 * k..][..16] && out[16 * k + 16..] == out[16 * k..][16..]
  {
  }

  // ---------------------------------------------------------------- mbedtls_aes_crypt_xts

  datatype Result = Done(output: seq<Byte>) | Failed(code: int)

  /** The tweak the bytes after the last full block are treated with. */
  function StealTweak(mode: Mode, tweak: seq<Byte>, prev: seq<Byte>): seq<Byte> {
    if mode == Decrypt then prev else tweak
  }

  /** What is left to do after y, the last full block, and the bytes behind it. */
  function StealRest(c: BlockCipher, mode: Mode, t: seq<Byte>, y: seq<Byte>, left: seq<Byte>): (r: seq<Byte>)
    requires c.Valid() && c.bs == 16 && |t| == 16 && |y| == 16 && 0 < |left| < 16
  {
    XexBlock(c, mode, left + y[|left|..], t) + y[..|left|]
  }

  /** out is what has been written; the rest of the unit is rest, of which blocks blocks are full. */
  ghost predicate XtsLoop(c: BlockCipher, mode: Mode, goal: seq<Byte>, blocks: nat, rest: seq<Byte>,
    tweak: seq<Byte>, prev: seq<Byte>, out: seq<Byte>)
  {
    && c.Valid() && c.bs == 16 && |tweak| == 16 == |prev|
    && 16 * blocks <= |rest| < 16 * blocks + 16
    && if blocks > 0 then goal == out + Unit(c, mode, tweak, rest)
       else if rest == [] then goal == out
       else |out| >= 16 && goal == out[..|out| - 16] + StealRest(c, mode, StealTweak(mode, tweak, prev), out[|out| - 16..], rest)
  }

  lemma XtsStep(c: BlockCipher, mode: Mode, goal: seq<Byte>, blocks: nat, rest: seq<Byte>,
    tweak: seq<Byte>, prev: seq<Byte>, out: seq<Byte>)
    requires 0 < blocks && 16 * blocks <= |rest|
    requires XtsLoop(c, mode, goal, blocks, rest, tweak, prev, out)
    ensures var swap := |rest| != 16 * blocks && mode == Decrypt && blocks == 1;
            var now := if swap then NextTweak(tweak) else tweak;
            XtsLoop(c, mode, goal, blocks - 1, rest[16..], NextTweak(now),
              if swap then tweak else prev, out + XexBlock(c, mode, rest[..16], now))
  {
    hide XexBlock, NextTweak;
    var swap := |rest| != 16 * blocks && mode == Decrypt && blocks == 1;
    var now := if swap then NextTweak(tweak) else tweak;
    var y := XexBlock(c, mode, rest[..16], now);
    if |rest| == 16 {
      assert rest[..16] == rest && rest[16..] == [];
    } else if |rest| < 32 {
      LastOf(out, y);
    } else {
      AppendAssoc(out, y, Unit(c, mode, NextTweak(tweak), rest[16..]));
    }
  }

  lemma LastOf(out: seq<Byte>, y: seq<Byte>)
    requires |y| == 16
    ensures var o := out + y; o[..|o| - 16] == out && o[|o| - 16..] == y
  {
  }

  /** One block: whitened with the tweak before and after the cipher. */
  method CryptBlock(c: BlockCipher, mode: Mode, x: seq<Byte>, tweak: seq<Byte>) returns (r: seq<Byte>)
    requires c.Valid() && c.bs == 16 && |x| == 16 && |tweak| == 16
    ensures r == XexBlock(c, mode, x, tweak)
  {
    hide XorSeq;
    var tmp := XorSeq(x, tweak);
    tmp := Cipher(c, mode, tmp);
    r := XorSeq(tmp, tweak);
  }

  /** mbedtls_aes_crypt_xts with keys crypt and tweakKey. */
  method CryptXts(crypt: BlockCipher, tweakKey: BlockCipher, mode: Mode, dataUnit: seq<Byte>, input: seq<Byte>)
    returns (res: Result)
    requires crypt.Valid() && crypt.bs == 16 && tweakKey.Valid() && tweakKey.bs == 16 && |dataUnit| == 16
    ensures 16 <= |input| <= Pow2(24) ==> res == Done(Unit(crypt, mode, Cipher(tweakKey, Encrypt, dataUnit), input))
    ensures !(16 <= |input| <= Pow2(24)) ==> res == Failed(ERR_INVALID_INPUT_LENGTH)
    ensures |tweakKey.enc(dataUnit)| == 16 && (16 <= |input| <= Pow2(24) ==> res.Done? && |res.output| == |input|)
    ensures 16 <= |input| <= Pow2(24) && mode == Encrypt ==>
      forall k: nat :: 16 * k + 16 <= |input| && (|input| % 16 == 0 || 16 * k + 32 <= |input|) ==>
        var t := TweakAt(tweakKey.enc(dataUnit), k);
        Block(res.output, k) == XorSeq(crypt.enc(XorSeq(Block(input, k), t)), t)
    ensures 16 <= |input| <= Pow2(24) && mode == Decrypt ==>
      forall k: nat :: 16 * k + 16 <= |input| && (|input| % 16 == 0 || 16 * k + 32 <= |input|) ==>
        var t := TweakAt(tweakKey.enc(dataUnit), k);
        Block(res.output, k) == XorSeq(crypt.dec(XorSeq(Block(input, k), t)), t)
    ensures 16 <= |input| <= Pow2(24) && mode == Encrypt && |input| % 16 != 0 ==>
      var k, r := |input| / 16 - 1, |input| % 16;
      var t, u := TweakAt(tweakKey.enc(dataUnit), k), TweakAt(tweakKey.enc(dataUnit), k + 1);
      var y := XorSeq(crypt.enc(XorSeq(Block(input, k), t)), t);
      res.output[16 * k + 16..] == y[..r] && Block(res.output, k) == XorSeq(crypt.enc(XorSeq(input[16 * k + 16..] + y[r..], u)), u)
    ensures 16 <= |input| <= Pow2(24) && mode == Decrypt && |input| % 16 != 0 ==>
      var k, r := |input| / 16 - 1, |input| % 16;
      var t, u := TweakAt(tweakKey.enc(dataUnit), k + 1), TweakAt(tweakKey.enc(dataUnit), k);
      var y := XorSeq(crypt.dec(XorSeq(Block(input, k), t)), t);
      res.output[16 * k + 16..] == y[..r] && Block(res.output, k) == XorSeq(crypt.dec(XorSeq(input[16 * k + 16..] + y[r..], u)), u)
  {
    hide *;
    Pow2Unit();
    EncryptedUnit(tweakKey, dataUnit);
    if |input| < 16 || |input| > 0x10_0000 * 16 {
      return Failed(ERR_INVALID_INPUT_LENGTH);
    }
    var tweak := Cipher(tweakKey, Encrypt, dataUnit);
    var out := CryptUnit(crypt, mode, tweak, input);
    UnitLaw(crypt, mode, tweak, input, out);
    if |input| % 16 != 0 && mode == Encrypt { StealEncLaw(crypt, tweak, input, out, |input| / 16 - 1); }
    if |input| % 16 != 0 && mode == Decrypt { StealDecLaw(crypt, tweak, input, out, |input| / 16 - 1); }
    res := Done(out);
  }

  /** The loop over the full blocks, then stealing. */
  method CryptUnit(crypt: BlockCipher, mode: Mode, tweak0: seq<Byte>, input: seq<Byte>) returns (out: seq<Byte>)
    requires crypt.Valid() && crypt.bs == 16 && |tweak0| == 16 && 16 <= |input|
    ensures out == Unit(crypt, mode, tweak0, input)
  {
    hide *;
    var tweak := tweak0;
    ghost var goal := Unit(crypt, mode, tweak, input);
    var blocks, leftover := |input| / 16, |input| % 16;
    out := [];
    var prev, rest: seq<Byte> := Fill(16, 0), input;
    XtsStart(crypt, mode, goal, rest, tweak, prev);
    while blocks > 0
      invariant 0 <= blocks && |rest| == 16 * blocks + leftover && |tweak| == 16 == |prev|
      invariant XtsLoop(crypt, mode, goal, blocks, rest, tweak, prev, out)
    {
      XtsStep(crypt, mode, goal, blocks, rest, tweak, prev, out);
      blocks := blocks - 1;
      if leftover != 0 && mode == Decrypt && blocks == 0 {
        prev := tweak;
        tweak := Gf128MulX(tweak);
      }
      var tmp := CryptBlock(crypt, mode, rest[..16], tweak);
      out := out + tmp;
      tweak := Gf128MulX(tweak);
      rest := rest[16..];
    }
    if leftover != 0 {
      out := CryptLeftover(crypt, mode, goal, rest, tweak, prev, out);
    } else {
      XtsEnd(crypt, mode, goal, rest, tweak, prev, out);
    }
  }

  /** Ciphertext stealing once all full blocks are done. */
  method CryptLeftover(c: BlockCipher, mode: Mode, ghost goal: seq<Byte>, rest: seq<Byte>, tweak: seq<Byte>, prev: seq<Byte>,
    written: seq<Byte>) returns (out: seq<Byte>)
    requires rest != [] && XtsLoop(c, mode, goal, 0, rest, tweak, prev, written)
    ensures out == goal
  {
    hide XtsLoop, XexBlock;
    XtsEnd(c, mode, goal, rest, tweak, prev, written);
    var t := StealTweak(mode, tweak, prev);
    var at := |written| - 16;
    var y := written[at..];
    var tmp := CryptBlock(c, mode, rest + y[|rest|..], t);
    out := written[..at] + (tmp + y[..|rest|]);
  }

  lemma EncryptedUnit(c: BlockCipher, x: seq<Byte>)
    requires c.Valid() && c.bs == 16 && |x| == 16
    ensures Cipher(c, Encrypt, x) == c.enc(x) && |c.enc(x)| == 16
  {
  }

  lemma Pow2Unit()
    ensures Pow2(24) == 0x10_0000 * 16
  {
    assert Pow2(12) == 4096;
    Pow2Add(12, 12);
  }

  lemma XtsStart(c: BlockCipher, mode: Mode, goal: seq<Byte>, input: seq<Byte>, tweak: seq<Byte>, prev: seq<Byte>)
    requires c.Valid() && c.bs == 16 && |tweak| == 16 == |prev| && |input| >= 16
    requires goal == Unit(c, mode, tweak, input)
    ensures XtsLoop(c, mode, goal, |input| / 16, input, tweak, prev, [])
  {
  }

  lemma XtsEnd(c: BlockCipher, mode: Mode, goal: seq<Byte>, rest: seq<Byte>, tweak: seq<Byte>, prev: seq<Byte>, out: seq<Byte>)
    requires XtsLoop(c, mode, goal, 0, rest, tweak, prev, out)
    ensures c.Valid() && c.bs == 16 && |tweak| == 16 == |prev| && |rest| < 16
    ensures rest == [] ==> goal == out
    ensures rest != [] ==> |out| >= 16
    ensures rest != [] ==>
      var t, y := StealTweak(mode, tweak, prev), out[|out| - 16..];
      goal == out[..|out| - 16] + (XexBlock(c, mode, rest + y[|rest|..], t) + y[..|rest|])
  {
    hide XexBlock;
  }
}
