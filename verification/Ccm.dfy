/** CCM of mbedtls/library/ccm.c over an arbitrary 16-byte block cipher (RFC 3610). */
module Ccm {
  import opened Arith
  import opened Limbs
  import opened Bytes
  import opened CbcMacs

  const ERR_BAD_INPUT: int := -0x000D
  const ERR_AUTH_FAILED: int := -0x000F

  // ---------------------------------------------------------------- counters

  /** A byte string counted up by one, wrapping. */
  function Increment(s: seq<Byte>): (r: seq<Byte>)
    ensures |r| == |s|
  {
    if s == [] then []
    else
      var n := |s| - 1;
      if s[n] == 255 then Increment(s[..n]) + [0] else s[..n] + [s[n] + 1]
  }

  lemma {:induction false} IncrementIs(v: nat, n: nat)
    ensures Increment(ToBe(v, n)) == ToBe(v + 1, n)
    decreases n
  {
    if n > 0 {
      var s := ToBe(v, n);
      assert s[..n - 1] == ToBe(v / 256, n - 1);
      if v % 256 == 255 {
        IncrementIs(v / 256, n - 1);
        assert (v + 1) / 256 == v / 256 + 1 && (v + 1) % 256 == 0;
      } else {
        assert (v + 1) / 256 == v / 256 && (v + 1) % 256 == v % 256 + 1;
      }
    }
  }

  // ---------------------------------------------------------------- CBC-MAC

  function Min(a: nat, b: nat): nat {
    if a < b then a else b
  }

  /** s followed by zeros up to a block boundary. */
  function Pad16(s: seq<Byte>): (r: seq<Byte>)
    ensures |r| % 16 == 0 && s <= r && |r| < |s| + 16 && forall i :: |s| <= i < |r| ==> r[i] == 0
  {
    s + Fill((16 - |s| % 16) % 16, 0)
  }

  /** The block a chunk of at most 16 bytes fills, zeros after it. */
  function Block(s: seq<Byte>): (b: seq<Byte>)
    requires |s| <= 16
    ensures |b| == 16
  {
    s + Fill(16 - |s|, 0)
  }

  lemma PadChunk(s: seq<Byte>)
    requires s != []
    ensures var n := Min(16, |s|); |Pad16(s)| >= 16 && Pad16(s)[..16] == Block(s[..n]) && Pad16(s)[16..] == Pad16(s[n..])
  {
    if |s| < 16 {
      assert s[..Min(16, |s|)] == s && s[Min(16, |s|)..] == [];
      assert |s| % 16 == |s|;
      assert Pad16(s) == Block(s);
    } else {
      assert (|s| - 16) % 16 == |s| % 16;
    }
  }

  /** One chunk of padded data, the rest after it. */
  lemma MacChunk(c: BlockCipher, y: seq<Byte>, s: seq<Byte>)
    requires c.Valid() && c.bs == 16 && |y| == 16 && s != []
    ensures var n := Min(16, |s|);
            CbcMac(c, y, Pad16(s)) == CbcMac(c, c.enc(XorSeq(y, Block(s[..n]))), Pad16(s[n..]))
  {
    hide XorSeq, Pad16, Block;
    PadChunk(s);
  }

  // ---------------------------------------------------------------- the formulas of RFC 3610

  datatype Params = Params(iv: seq<Byte>, add: seq<Byte>, tagLen: nat) {
    /** The width of the length field. */
    function Q(): int { 15 - |iv| }

    function AddLenHigh(): Byte { |add| / 256 % 256 }
    function AddLenLow(): Byte { |add| % 256 }

    predicate Legal() {
      && tagLen != 2 && tagLen <= 16 && tagLen % 2 == 0
      && 7 <= |iv| <= 13 && |add| <= 0xFF00
    }
  }

  /** The flags of B_0: data present, (t - 2) / 2 in 64-bit arithmetic, q - 1. */
  function Flags(p: Params): Byte
    requires p.Legal()
  {
    var m := if p.tagLen == 0 then 0xFFFF_FFFF_FFFF_FFFE else p.tagLen - 2;
    OrByte(OrByte(if |p.add| > 0 then 64 else 0, m / 2 * 8 % 256), p.Q() - 1)
  }

  /** For a tag of 4 to 16 bytes the three fields are those of section 2.2 of RFC 3610; for an empty tag
      the middle field wraps around and takes the first bit with it. */
  lemma FlagsFields(p: Params)
    requires p.Legal()
    ensures p.tagLen > 0 ==> Flags(p) == 64 * (if p.add == [] then 0 else 1) + 8 * ((p.tagLen - 2) / 2) + (p.Q() - 1)
    ensures p.tagLen == 0 ==> Flags(p) == 0xF8 + (p.Q() - 1)
  {
    hide BitOr;
    assert Pow2(6) == 64 && Pow2(3) == 8;
    var a := if |p.add| > 0 then 64 else 0;
    var q := p.Q() - 1;
    if p.tagLen > 0 {
      var m := 8 * ((p.tagLen - 2) / 2);
      BitOrDisjoint(a, m, 6);
      BitOrDisjoint(a + m, q, 3);
    } else {
      assert BitOr(a, 0xF8) == 0xF8 by { FullField(); }
      BitOrDisjoint(0xF8, q, 3);
    }
  }

  lemma FullField()
    ensures BitOr(0, 0xF8) == 0xF8 && BitOr(64, 0xF8) == 0xF8
  {
    hide BitOr;
    BitOrZero(0xF8);
    OrStep(64, 0xF8);
    OrStep(32, 124);
    OrStep(16, 62);
    OrStep(8, 31);
    OrStep(4, 15);
    OrStep(2, 7);
    OrStep(1, 3);
    BitOrZero(1);
  }

  lemma OrStep(x: nat, y: nat)
    ensures BitOr(x, y) == 2 * BitOr(x / 2, y / 2) + (if x % 2 == 1 || y % 2 == 1 then 1 else 0)
  {
  }

  function B0(p: Params, length: nat): (b: seq<Byte>)
    requires p.Legal()
    ensures |b| == 16
  {
    [Flags(p)] + p.iv + ToBe(length, p.Q())
  }

  /** Counter block i. */
  function A(p: Params, i: nat): (b: seq<Byte>)
    requires p.Legal()
    ensures |b| == 16
  {
    [p.Q() - 1 as Byte] + p.iv + ToBe(i, p.Q())
  }

  /** Additional data with its length in front; nothing if there is none. */
  function AddField(p: Params): seq<Byte> {
    if p.add == [] then [] else ToBe(|p.add|, 2) + p.add
  }

  /** The blocks B_0, B_1, ... */
  function AuthData(p: Params, m: seq<Byte>): (d: seq<Byte>)
    requires p.Legal()
    ensures |d| % 16 == 0
  {
    hide Pad16, B0;
    WholeBlocks(|Pad16(AddField(p))|, |Pad16(m)|);
    B0(p, |m|) + Pad16(AddField(p)) + Pad16(m)
  }

  lemma WholeBlocks(a: nat, b: nat)
    requires a % 16 == 0 && b % 16 == 0
    ensures (16 + a + b) % 16 == 0
  {
  }

  /** The authentication value T before it is masked. */
  function Mac(c: BlockCipher, p: Params, m: seq<Byte>): (t: seq<Byte>)
    requires c.Valid() && c.bs == 16 && p.Legal()
    ensures |t| == 16
  {
    CbcMac(c, Fill(16, 0), AuthData(p, m))
  }

  function Tag(c: BlockCipher, p: Params, m: seq<Byte>): (t: seq<Byte>)
    requires c.Valid() && c.bs == 16 && p.Legal()
    ensures |t| == p.tagLen
  {
    XorSeq(Mac(c, p, m), c.enc(A(p, 0)))[..p.tagLen]
  }

  /** x with the key stream blocks S_i, S_(i+1), ... */
  function Stream(c: BlockCipher, p: Params, i: nat, x: seq<Byte>): (r: seq<Byte>)
    requires c.Valid() && c.bs == 16 && p.Legal()
    ensures |r| == |x|
    decreases |x|
  {
    if x == [] then []
    else
      var n := Min(16, |x|);
      XorSeq(x[..n], c.enc(A(p, i))) + Stream(c, p, i + 1, x[n..])
  }

  lemma {:induction false} StreamInverse(c: BlockCipher, p: Params, i: nat, x: seq<Byte>)
    requires c.Valid() && c.bs == 16 && p.Legal()
    ensures Stream(c, p, i, Stream(c, p, i, x)) == x
    decreases |x|
  {
    hide XorSeq, A;
    if x != [] {
      var n := Min(16, |x|);
      var k := c.enc(A(p, i));
      var head, rest := XorSeq(x[..n], k), Stream(c, p, i + 1, x[n..]);
      var z := head + rest;
      assert z[..n] == head && z[n..] == rest;
      XorSeqCancel(x[..n], k);
      StreamInverse(c, p, i + 1, x[n..]);
      assert x == x[..n] + x[n..];
    }
  }

  /** Encryption followed by decryption: the plaintext comes back and the tags agree. */
  lemma RoundTrip(c: BlockCipher, p: Params, m: seq<Byte>)
    requires c.Valid() && c.bs == 16 && p.Legal()
    ensures var ct := Stream(c, p, 1, m); Stream(c, p, 1, ct) == m && Tag(c, p, Stream(c, p, 1, ct)) == Tag(c, p, m)
  {
    StreamInverse(c, p, 1, m);
  }

  /** The number of counter blocks a message uses, besides A_0. */
  function Blocks(length: nat): nat {
    (length + 15) / 16
  }

  /** No two counter blocks of a message are equal, and none is A_0. */
  lemma CountersDistinct(p: Params, length: nat, i: nat, j: nat)
    requires p.Legal() && length < Pow(256, p.Q())
    requires i < j <= Blocks(length)
    ensures A(p, i) != A(p, j)
  {
    hide ToBe;
    var q := p.Q();
    assert A(p, i)[1 + |p.iv|..] == ToBe(i, q) && A(p, j)[1 + |p.iv|..] == ToBe(j, q);
    PowPos(256, q);
    assert Blocks(length) < Pow(256, q);
    if ToBe(i, q) == ToBe(j, q) { ToBeInjective(i, j, q); }
  }

  // ---------------------------------------------------------------- byte loops

  lemma {:induction false} ToBeSmall(v: nat, n: nat)
    requires 0 < n && v < 256
    ensures ToBe(v, n) == Fill(n - 1, 0) + [v]
    decreases n
  {
    if n > 1 {
      ToBeSmall(0, n - 1);
      assert v / 256 == 0;
    }
  }

  /** The length in the last q bytes of b; what is left of it after q bytes is not zero exactly if it does not fit. */
  method PutLength(b0: seq<Byte>, length: nat, q: nat) returns (b: seq<Byte>, left: nat)
    requires |b0| == 16 && q <= 16
    ensures b == b0[..16 - q] + ToBe(length, q)
    ensures left > 0 <==> length >= Pow(256, q)
  {
    hide ToBe, Pow;
    b, left := b0, length;
    assert b0 == b0[..16] + ToBe(length, 0);
    PowZero();
    var i := 0;
    while i < q
      invariant 0 <= i <= q
      invariant b == b0[..16 - i] + ToBe(length, i)
      invariant Pow(256, i) > 0 && left == length / Pow(256, i)
    {
      ToBeHead(length, i);
      PowPos(256, i + 1);
      PowSucc(i);
      DivDiv(length, Pow(256, i), 256);
      b := b[15 - i := left % 256];
      left := left / 256;
      i := i + 1;
    }
    DivPositive(length, Pow(256, q));
  }

  lemma PowZero()
    ensures Pow(256, 0) == 1
  {
  }

  lemma PowSucc(i: nat)
    ensures Pow(256, i + 1) == Pow(256, i) * 256
  {
  }

  lemma DivPositive(n: nat, d: nat)
    requires 0 < d
    ensures n / d > 0 <==> n >= d
  {
    if n < d { DivModUnique(n, d, 0, n); }
  }

  /** The last i bytes have wrapped to 0 and the carry goes on. */
  ghost predicate CarryLoop(ctr0: seq<Byte>, ctr: seq<Byte>, q: nat, i: nat) {
    && i <= q <= 16 == |ctr0|
    && ctr == ctr0[..16 - i] + Fill(i, 0)
    && Increment(ctr0[16 - q..]) == Increment(ctr0[16 - q..16 - i]) + Fill(i, 0)
  }

  lemma CarryStart(ctr0: seq<Byte>, q: nat)
    requires q <= 16 == |ctr0|
    ensures CarryLoop(ctr0, ctr0, q, 0)
  {
    hide Increment;
    assert ctr0[16 - q..16] == ctr0[16 - q..] && ctr0[..16] == ctr0 && Fill(0, 0) == [];
  }

  lemma CarryByte(ctr0: seq<Byte>, i: nat, e: Byte)
    requires i < 16 == |ctr0|
    ensures var ctr := ctr0[..16 - i] + Fill(i, 0);
            ctr[15 - i] == ctr0[15 - i] && ctr[15 - i := e] == ctr0[..15 - i] + ([e] + Fill(i, 0))
  {
  }

  lemma CarryParts(ctr0: seq<Byte>, q: nat, i: nat)
    requires i < q <= 16 == |ctr0|
    ensures var before := ctr0[16 - q..15 - i];
            && ctr0[16 - q..16 - i] == before + [ctr0[15 - i]]
            && ctr0[..15 - i] == ctr0[..16 - q] + before
            && Fill(i + 1, 0) == [0] + Fill(i, 0)
  {
  }

  lemma CarryStep(ctr0: seq<Byte>, ctr: seq<Byte>, q: nat, i: nat)
    requires CarryLoop(ctr0, ctr, q, i) && i < q
    ensures |ctr| == 16 && ctr[15 - i] == ctr0[15 - i]
    ensures ctr0[15 - i] == 255 ==> CarryLoop(ctr0, ctr[15 - i := 0], q, i + 1)
    ensures ctr0[15 - i] != 255 ==> ctr[15 - i := ctr0[15 - i] + 1] == ctr0[..16 - q] + Increment(ctr0[16 - q..])
  {
    hide Increment, Fill;
    var before := ctr0[16 - q..15 - i];
    CarryParts(ctr0, q, i);
    IncrementLast(before, ctr0[15 - i]);
    if ctr0[15 - i] == 255 {
      CarryByte(ctr0, i, 0);
      AppendAssoc(Increment(before), [0], Fill(i, 0));
    } else {
      var e: Byte := ctr0[15 - i] + 1;
      CarryByte(ctr0, i, e);
      AppendAssoc(before, [e], Fill(i, 0));
      AppendAssoc(ctr0[..16 - q], before, [e] + Fill(i, 0));
    }
  }

  lemma CarryEnd(ctr0: seq<Byte>, ctr: seq<Byte>, q: nat)
    requires CarryLoop(ctr0, ctr, q, q)
    ensures ctr == ctr0[..16 - q] + Increment(ctr0[16 - q..])
  {
    assert ctr0[16 - q..16 - q] == [];
  }

  /** The counter in the last q bytes goes up by one. */
  method IncrementCounter(ctr0: seq<Byte>, q: nat) returns (ctr: seq<Byte>)
    requires |ctr0| == 16 && q <= 16
    ensures ctr == ctr0[..16 - q] + Increment(ctr0[16 - q..])
  {
    hide Increment, CarryLoop;
    ctr := ctr0;
    CarryStart(ctr0, q);
    var i := 0;
    while i < q
      invariant 0 <= i <= q && |ctr| == 16
      invariant CarryLoop(ctr0, ctr, q, i)
    {
      CarryStep(ctr0, ctr, q, i);
      var last: nat := ctr[15 - i];
      ctr := ctr[15 - i := (last + 1) % 256];
      if ctr[15 - i] != 0 { return; }
      i := i + 1;
    }
    CarryEnd(ctr0, ctr, q);
  }

  lemma IncrementLast(s: seq<Byte>, e: Byte)
    ensures Increment(s + [e]) == if e == 255 then Increment(s) + [0] else s + [e + 1]
  {
    assert (s + [e])[..|s|] == s;
  }

  // ---------------------------------------------------------------- ccm_auth_crypt

  lemma MacNothing(c: BlockCipher, y: seq<Byte>)
    requires c.Valid() && c.bs == 16 && |y| == 16
    ensures CbcMac(c, y, Pad16([])) == y
  {
    assert Pad16([]) == [];
  }

  /** UPDATE_CBC_MAC. */
  method UpdateMac(c: BlockCipher, y0: seq<Byte>, b: seq<Byte>) returns (y: seq<Byte>)
    requires c.Valid() && c.bs == 16 && |y0| == 16 == |b|
    ensures y == c.enc(XorSeq(y0, b)) && |y| == 16
  {
    y := XorSeq(y0, b);
    y := c.enc(y);
  }

  /** The loop over data that is authenticated only. */
  method MacRest(c: BlockCipher, y0: seq<Byte>, src0: seq<Byte>) returns (y: seq<Byte>)
    requires c.Valid() && c.bs == 16 && |y0| == 16
    ensures y == CbcMac(c, y0, Pad16(src0)) && |y| == 16
  {
    hide CbcMac, Pad16, XorSeq;
    var src := src0;
    y := y0;
    while |src| > 0
      invariant |y| == 16 && CbcMac(c, y, Pad16(src)) == CbcMac(c, y0, Pad16(src0))
      decreases |src|
    {
      MacChunk(c, y, src);
      var n := Min(16, |src|);
      y := UpdateMac(c, y, Block(src[..n]));
      src := src[n..];
    }
    MacNothing(c, y);
  }

  method MacAdditional(c: BlockCipher, y0: seq<Byte>, p: Params) returns (y: seq<Byte>)
    requires c.Valid() && c.bs == 16 && |y0| == 16 && p.Legal()
    ensures y == CbcMac(c, y0, Pad16(AddField(p))) && |y| == 16
  {
    hide CbcMac, Pad16, XorSeq;
    if |p.add| > 0 {
      var n := Min(|p.add|, 14);
      var b := [p.AddLenHigh(), p.AddLenLow()] + p.add[..n] + Fill(14 - n, 0);
      AddFieldChunk(p, n);
      MacChunk(c, y0, AddField(p));
      y := UpdateMac(c, y0, b);
      y := MacRest(c, y, p.add[n..]);
    } else {
      y := y0;
      MacNothing(c, y);
    }
  }

  lemma AddFieldChunk(p: Params, n: nat)
    requires p.Legal() && p.add != [] && n == Min(|p.add|, 14)
    ensures var s := AddField(p); var k := Min(16, |s|);
            Block(s[..k]) == [p.AddLenHigh(), p.AddLenLow()] + p.add[..n] + Fill(14 - n, 0) && s[k..] == p.add[n..]
  {
    var l := [p.AddLenHigh(), p.AddLenLow()];
    assert ToBe(|p.add|, 2) == l by {
      assert ToBe(|p.add| / 256 / 256, 0) == [];
      assert ToBe(|p.add| / 256, 1) == [|p.add| / 256 % 256];
    }
    var s := AddField(p);
    var k := Min(16, |s|);
    assert k == n + 2;
    assert s[..k] == l + p.add[..n];
    assert s[k..] == p.add[n..];
    AppendAssoc(l, p.add[..n], Fill(14 - n, 0));
  }

  datatype Mode = Encrypt | Decrypt

  datatype Result = Done(output: seq<Byte>, tag: seq<Byte>) | Failed(code: int)

  /** The side of x that is authenticated: the plaintext. */
  function Plain(c: BlockCipher, p: Params, mode: Mode, i: nat, x: seq<Byte>): (r: seq<Byte>)
    requires c.Valid() && c.bs == 16 && p.Legal()
    ensures |r| == |x|
  {
    if mode == Encrypt then x else Stream(c, p, i, x)
  }

  /** out is written and src left before block i, and finishing from here gives output goal and MAC value mac. */
  ghost predicate CryptLoop(c: BlockCipher, p: Params, mode: Mode, goal: seq<Byte>, mac: seq<Byte>,
    i: nat, src: seq<Byte>, out: seq<Byte>, y: seq<Byte>)
  {
    && c.Valid() && c.bs == 16 && p.Legal() && |y| == 16
    && goal == out + Stream(c, p, i, src)
    && mac == CbcMac(c, y, Pad16(Plain(c, p, mode, i, src)))
  }

  lemma StreamChunk(c: BlockCipher, p: Params, i: nat, x: seq<Byte>)
    requires c.Valid() && c.bs == 16 && p.Legal() && x != []
    ensures var n := Min(16, |x|); var r := Stream(c, p, i, x);
            r[..n] == XorSeq(x[..n], c.enc(A(p, i))) && r[n..] == Stream(c, p, i + 1, x[n..]) && r == r[..n] + r[n..]
  {
    hide XorSeq, A;
  }

  lemma CryptStep(c: BlockCipher, p: Params, mode: Mode, goal: seq<Byte>, mac: seq<Byte>,
    i: nat, src: seq<Byte>, out: seq<Byte>, y: seq<Byte>)
    requires CryptLoop(c, p, mode, goal, mac, i, src, out, y) && src != []
    ensures var n := Min(16, |src|);
            var chunk := XorSeq(src[..n], c.enc(A(p, i)));
            var plain := if mode == Encrypt then src[..n] else chunk;
            CryptLoop(c, p, mode, goal, mac, i + 1, src[n..], out + chunk, c.enc(XorSeq(y, Block(plain))))
  {
    hide XorSeq, A, Pad16, Block, CbcMac, Stream;
    var n := Min(16, |src|);
    StreamChunk(c, p, i, src);
    MacChunk(c, y, Plain(c, p, mode, i, src));
    AppendAssoc(out, XorSeq(src[..n], c.enc(A(p, i))), Stream(c, p, i + 1, src[n..]));
  }

  lemma CryptEnd(c: BlockCipher, p: Params, mode: Mode, goal: seq<Byte>, mac: seq<Byte>, i: nat, out: seq<Byte>, y: seq<Byte>)
    requires CryptLoop(c, p, mode, goal, mac, i, [], out, y)
    ensures goal == out && mac == y
  {
    MacNothing(c, y);
  }

  lemma NextCounter(p: Params, i: nat)
    requires p.Legal()
    ensures var ctr := A(p, i); ctr[..16 - p.Q()] + Increment(ctr[16 - p.Q()..]) == A(p, i + 1)
  {
    hide ToBe, Increment;
    var q := p.Q();
    var ctr := A(p, i);
    assert ctr[..16 - q] == [q - 1 as Byte] + p.iv && ctr[16 - q..] == ToBe(i, q);
    IncrementIs(i, q);
  }

  /** The loop over the message: encrypt or decrypt, and authenticate the plaintext. */
  method CryptMessage(c: BlockCipher, p: Params, mode: Mode, y0: seq<Byte>, input: seq<Byte>) returns (out: seq<Byte>, y: seq<Byte>)
    requires c.Valid() && c.bs == 16 && p.Legal() && |y0| == 16
    ensures out == Stream(c, p, 1, input) && |y| == 16
    ensures y == CbcMac(c, y0, Pad16(Plain(c, p, mode, 1, input)))
  {
    hide BlockCipher.Valid, XorSeq, A, Pad16, CbcMac, Stream, Plain, CryptLoop, ToBe;
    ghost var goal, mac := Stream(c, p, 1, input), CbcMac(c, y0, Pad16(Plain(c, p, mode, 1, input)));
    var ctr := [p.Q() - 1 as Byte] + p.iv + Fill(p.Q() - 1, 0) + [1];
    FirstCounter(p);
    CryptStart(c, p, mode, y0, input);
    var src := input;
    ghost var i := 1;
    out, y := [], y0;
    while |src| > 0
      invariant |y| == 16 && 1 <= i && ctr == A(p, i)
      invariant CryptLoop(c, p, mode, goal, mac, i, src, out, y)
      decreases |src|
    {
      CryptStep(c, p, mode, goal, mac, i, src, out, y);
      var n := Min(16, |src|);
      if mode == Encrypt {
        y := UpdateMac(c, y, Block(src[..n]));
      }
      var chunk := CtrCrypt(c, ctr, src[..n]);
      if mode == Decrypt {
        y := UpdateMac(c, y, Block(chunk));
      }
      out := out + chunk;
      src := src[n..];
      NextCounter(p, i);
      ctr := IncrementCounter(ctr, p.Q());
      i := i + 1;
    }
    CryptEnd(c, p, mode, goal, mac, i, out, y);
  }

  /** CTR_CRYPT. */
  method CtrCrypt(c: BlockCipher, ctr: seq<Byte>, src: seq<Byte>) returns (dst: seq<Byte>)
    requires c.Valid() && c.bs == 16 && |ctr| == 16 && |src| <= 16
    ensures |c.enc(ctr)| == 16 && dst == XorSeq(src, c.enc(ctr)) && |dst| == |src|
  {
    var b := c.enc(ctr);
    dst := XorSeq(src, b);
  }

  lemma FirstCounter(p: Params)
    requires p.Legal()
    ensures [p.Q() - 1 as Byte] + p.iv + Fill(p.Q() - 1, 0) + [1] == A(p, 1)
  {
    hide ToBe;
    ToBeSmall(1, p.Q());
    AppendAssoc([p.Q() - 1 as Byte] + p.iv, Fill(p.Q() - 1, 0), [1]);
  }

  lemma CryptStart(c: BlockCipher, p: Params, mode: Mode, y0: seq<Byte>, input: seq<Byte>)
    requires c.Valid() && c.bs == 16 && p.Legal() && |y0| == 16
    ensures CryptLoop(c, p, mode, Stream(c, p, 1, input), CbcMac(c, y0, Pad16(Plain(c, p, mode, 1, input))), 1, input, [], y0)
  {
    hide Stream, CbcMac, Pad16, Plain;
  }

  /** B_0 and the additional field written out. */
  lemma FirstBlocksAre(p: Params, length: nat)
    requires p.Legal()
    ensures B0(p, length)[0] ==
      (if p.tagLen == 0 then 0xF8 else 64 * (if p.add == [] then 0 else 1) + 8 * ((p.tagLen - 2) / 2)) + (14 - |p.iv|)
    ensures B0(p, length)[1..] == p.iv + ToBe(length, 15 - |p.iv|)
    ensures AddField(p) == if p.add == [] then [] else [|p.add| / 256, |p.add| % 256] + p.add
  {
    hide ToBe, Flags;
    FlagsFields(p);
    TwoBytes(p);
    assert B0(p, length) == [Flags(p)] + (p.iv + ToBe(length, p.Q()));
  }

  lemma TwoBytes(p: Params)
    requires p.Legal()
    ensures ToBe(|p.add|, 2) == [|p.add| / 256, |p.add| % 256]
  {
    var v := |p.add|;
    assert ToBe(v / 256 / 256, 0) == [];
    assert ToBe(v / 256, 1) == [v / 256 % 256];
    assert v / 256 % 256 == v / 256;
  }

  /** Byte i of the tag: CBC-MAC with the encrypted zero counter. */
  lemma TagIs(c: BlockCipher, p: Params, m: seq<Byte>, i: nat)
    requires c.Valid() && c.bs == 16 && p.Legal() && i < p.tagLen
    ensures |AuthData(p, m)| % 16 == 0 && |c.enc(A(p, 0))| == 16
    ensures Tag(c, p, m)[i] == XorByte(CbcMac(c, Fill(16, 0), AuthData(p, m))[i], c.enc(A(p, 0))[i])
  {
    hide CbcMac, A, AuthData, XorByte;
  }

  /** Byte i of the ciphertext, or of the plaintext. */
  lemma {:induction false} StreamIs(c: BlockCipher, p: Params, k: nat, x: seq<Byte>, i: nat)
    requires c.Valid() && c.bs == 16 && p.Legal() && i < |x|
    ensures |c.enc(A(p, k + i / 16))| == 16 && Stream(c, p, k, x)[i] == XorByte(x[i], c.enc(A(p, k + i / 16))[i % 16])
    decreases i
  {
    hide A, Stream, BlockCipher.Valid;
    var n := Min(16, |x|);
    KeyStream(c, p, k + i / 16);
    StreamChunk(c, p, k, x);
    if i < 16 {
      FirstChunk(x, n, c.enc(A(p, k)), Stream(c, p, k, x), i);
    } else {
      StreamIs(c, p, k + 1, x[16..], i - 16);
      assert (i - 16) / 16 == i / 16 - 1 && (i - 16) % 16 == i % 16;
      assert Stream(c, p, k, x)[i] == Stream(c, p, k, x)[16..][i - 16];
    }
  }

  lemma CounterIs(p: Params, k: nat, flags: Byte)
    requires p.Legal() && flags == p.Q() - 1
    ensures A(p, k) == [flags] + p.iv + ToBe(k, p.Q())
  {
    hide ToBe;
  }

  lemma KeyStream(c: BlockCipher, p: Params, k: nat)
    requires c.Valid() && c.bs == 16 && p.Legal()
    ensures |c.enc(A(p, k))| == 16
  {
    hide A;
  }

  lemma FirstChunk(x: seq<Byte>, n: nat, key: seq<Byte>, r: seq<Byte>, i: nat)
    requires i < n <= |x| && n <= |key| && n <= |r| && r[..n] == XorSeq(x[..n], key)
    ensures r[i] == XorByte(x[i], key[i])
  {
    hide XorByte;
    assert r[i] == r[..n][i];
  }

  /** ccm_auth_crypt. */
  method AuthCrypt(c: BlockCipher, p: Params, mode: Mode, input: seq<Byte>) returns (res: Result)
    requires c.Valid() && c.bs == 16
    ensures !p.Legal() || |input| >= Pow(256, p.Q()) ==> res == Failed(ERR_BAD_INPUT)
    ensures p.Legal() && |input| < Pow(256, p.Q()) ==>
      res == Done(Stream(c, p, 1, input), Tag(c, p, Plain(c, p, mode, 1, input)))
    ensures res.Done? ==> p.Legal() && |res.output| == |input| && |res.tag| == p.tagLen
    ensures res.Done? ==>
      var flags: Byte := p.Q() - 1;
      forall i: nat :: i < |input| ==>
        |c.enc([flags] + p.iv + ToBe(1 + i / 16, p.Q()))| == 16
        && res.output[i] == XorByte(input[i], c.enc([flags] + p.iv + ToBe(1 + i / 16, p.Q()))[i % 16])
    ensures res.Done? ==>
      var m := if mode == Encrypt then input else res.output;
      var d := B0(p, |m|) + Pad16(AddField(p)) + Pad16(m);
      var flags: Byte := p.Q() - 1;
      var s0 := [flags] + p.iv + Fill(p.Q(), 0);
      && |d| % 16 == 0 && |c.enc(s0)| == 16
      && forall i: nat :: i < p.tagLen ==> res.tag[i] == XorByte(CbcMac(c, Fill(16, 0), d)[i], c.enc(s0)[i])
  {
    hide *;
    res := AuthCryptCore(c, p, mode, input);
    if res.Done? {
      ResultLaw(c, p, mode, input, res.output, res.tag);
    }
  }

  /** The result in the cipher, exclusive or and CBC-MAC alone. */
  lemma ResultLaw(c: BlockCipher, p: Params, mode: Mode, input: seq<Byte>, output: seq<Byte>, tag: seq<Byte>)
    requires c.Valid() && c.bs == 16 && p.Legal()
    requires output == Stream(c, p, 1, input) && tag == Tag(c, p, Plain(c, p, mode, 1, input))
    ensures |output| == |input| && |tag| == p.tagLen
    ensures
      var flags: Byte := p.Q() - 1;
      forall i: nat :: i < |input| ==>
        |c.enc([flags] + p.iv + ToBe(1 + i / 16, p.Q()))| == 16
        && output[i] == XorByte(input[i], c.enc([flags] + p.iv + ToBe(1 + i / 16, p.Q()))[i % 16])
    ensures
      var m := if mode == Encrypt then input else output;
      var d := B0(p, |m|) + Pad16(AddField(p)) + Pad16(m);
      var flags: Byte := p.Q() - 1;
      var s0 := [flags] + p.iv + Fill(p.Q(), 0);
      && |d| % 16 == 0 && |c.enc(s0)| == 16
      && forall i: nat :: i < p.tagLen ==> tag[i] == XorByte(CbcMac(c, Fill(16, 0), d)[i], c.enc(s0)[i])
  {
    hide BlockCipher.Valid, XorByte, A, B0, Pad16, CbcMac, Stream, Tag, Fill, ToBe;
    var flags: Byte := p.Q() - 1;
    forall i: nat | i < |input|
      ensures |c.enc([flags] + p.iv + ToBe(1 + i / 16, p.Q()))| == 16
      ensures output[i] == XorByte(input[i], c.enc([flags] + p.iv + ToBe(1 + i / 16, p.Q()))[i % 16])
    {
      StreamIs(c, p, 1, input, i);
      CounterIs(p, 1 + i / 16, flags);
    }
    var m := if mode == Encrypt then input else output;
    ZeroCounter(p);
    KeyStream(c, p, 0);
    forall i: nat | i < p.tagLen
      ensures tag[i] == XorByte(CbcMac(c, Fill(16, 0), AuthData(p, m))[i], c.enc(A(p, 0))[i])
    {
      TagIs(c, p, m, i);
    }
  }

  method AuthCryptCore(c: BlockCipher, p: Params, mode: Mode, input: seq<Byte>) returns (res: Result)
    requires c.Valid() && c.bs == 16
    ensures !p.Legal() || |input| >= Pow(256, p.Q()) ==> res == Failed(ERR_BAD_INPUT)
    ensures p.Legal() && |input| < Pow(256, p.Q()) ==>
      res == Done(Stream(c, p, 1, input), Tag(c, p, Plain(c, p, mode, 1, input)))
    ensures res.Done? ==> p.Legal()
  {
    hide BlockCipher.Valid, XorSeq, A, Pad16, CbcMac, Stream, Plain, ToBe, Pow, Flags;
    if p.tagLen == 2 || p.tagLen > 16 || p.tagLen % 2 != 0 { return Failed(ERR_BAD_INPUT); }
    if |p.iv| < 7 || |p.iv| > 13 { return Failed(ERR_BAD_INPUT); }
    if |p.add| > 0xFF00 { return Failed(ERR_BAD_INPUT); }
    var q := p.Q();
    var b := [Flags(p)] + p.iv + Fill(q, 0);
    var left;
    b, left := PutLength(b, |input|, q);
    if left > 0 { return Failed(ERR_BAD_INPUT); }
    FirstBlock(p, |input|);
    var y := UpdateMac(c, Fill(16, 0), b);
    y := MacAdditional(c, y, p);
    var out;
    out, y := CryptMessage(c, p, mode, y, input);
    MacParts(c, p, Plain(c, p, mode, 1, input));
    var ctr := [q - 1 as Byte] + p.iv + Fill(q, 0);
    ZeroCounter(p);
    y := CtrCrypt(c, ctr, y);
    res := Done(out, y[..p.tagLen]);
  }

  lemma FirstBlock(p: Params, length: nat)
    requires p.Legal()
    ensures ([Flags(p)] + p.iv + Fill(p.Q(), 0))[..16 - p.Q()] + ToBe(length, p.Q()) == B0(p, length)
  {
    hide Flags, ToBe;
    assert ([Flags(p)] + p.iv + Fill(p.Q(), 0))[..16 - p.Q()] == [Flags(p)] + p.iv;
  }

  lemma ZeroCounter(p: Params)
    requires p.Legal()
    ensures [p.Q() - 1 as Byte] + p.iv + Fill(p.Q(), 0) == A(p, 0)
  {
    hide ToBe;
    ToBeSmall(0, p.Q());
    assert Fill(p.Q(), 0) == Fill(p.Q() - 1, 0) + [0];
  }

  /** The MAC of the whole, part by part. */
  lemma MacParts(c: BlockCipher, p: Params, m: seq<Byte>)
    requires c.Valid() && c.bs == 16 && p.Legal()
    ensures var y := c.enc(XorSeq(Fill(16, 0), B0(p, |m|)));
            |y| == 16 && Mac(c, p, m) == CbcMac(c, CbcMac(c, y, Pad16(AddField(p))), Pad16(m))
  {
    hide XorSeq, CbcMac, B0, Pad16;
    var y := c.enc(XorSeq(Fill(16, 0), B0(p, |m|)));
    AppendAssoc(B0(p, |m|), Pad16(AddField(p)), Pad16(m));
    MacConcat(c, y, Pad16(AddField(p)), Pad16(m));
    MacFirst(c, Fill(16, 0), B0(p, |m|), Pad16(AddField(p)) + Pad16(m));
  }

  // ---------------------------------------------------------------- authenticated decryption

  datatype Opened = Plaintext(output: seq<Byte>) | Rejected(code: int, output: seq<Byte>)

  /** mbedtls_ccm_star_auth_decrypt: the plaintext is handed out exactly if the tag is the one of RFC 3610. */
  method AuthDecrypt(c: BlockCipher, p: Params, input: seq<Byte>, tag: seq<Byte>) returns (res: Opened)
    requires c.Valid() && c.bs == 16 && |tag| == p.tagLen
    ensures !p.Legal() || |input| >= Pow(256, p.Q()) ==> res == Rejected(ERR_BAD_INPUT, [])
    ensures p.Legal() && |input| < Pow(256, p.Q()) ==>
      var m := Stream(c, p, 1, input);
      res == if tag == Tag(c, p, m) then Plaintext(m) else Rejected(ERR_AUTH_FAILED, Fill(|input|, 0))
  {
    hide BlockCipher.Valid, Stream, Tag, Pow;
    var r := AuthCrypt(c, p, Decrypt, input);
    match r {
      case Failed(code) => res := Rejected(code, []);
      case Done(output, check) =>
        var bad := Differ(tag, check);
        res := if bad then Rejected(ERR_AUTH_FAILED, Fill(|input|, 0)) else Plaintext(output);
    }
  }

  /** What encrypt_and_tag produces, auth_decrypt accepts, and it returns the plaintext. */
  method EncryptThenDecrypt(c: BlockCipher, p: Params, m: seq<Byte>) returns (res: Opened)
    requires c.Valid() && c.bs == 16 && p.Legal() && |m| < Pow(256, p.Q())
    ensures res == Plaintext(m)
  {
    hide BlockCipher.Valid, Stream, Tag, Pow;
    var sealed := AuthCrypt(c, p, Encrypt, m);
    RoundTrip(c, p, m);
    res := AuthDecrypt(c, p, sealed.output, sealed.tag);
  }
}
