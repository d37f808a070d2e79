/** CBC streaming of mbedtls/library/cipher.c over an arbitrary block cipher. */
module CipherCbc {
  import opened Arith
  import opened Limbs
  import opened Bytes

  const ERR_FULL_BLOCK_EXPECTED: int := -0x6280
  const ERR_INVALID_PADDING: int := -0x6200
  /** One more than the largest size_t. */
  const SIZE: int := 0x1_0000_0000_0000_0000

  datatype Operation = Encrypt | Decrypt
  datatype Padding = Pkcs7 | OneAndZeros | ZerosAndLen | Zeros | NoPadding

  // ---------------------------------------------------------------- CBC on whole blocks

  function CbcEnc(c: BlockCipher, iv: seq<Byte>, data: seq<Byte>): (r: seq<Byte>)
    requires c.Valid() && |iv| == c.bs && Whole(|data|, c.bs)
    ensures |r| == |data|
    decreases |data|
  {
    if data == [] then []
    else
      WholeTail(|data|, c.bs);
      var y := c.enc(XorSeq(data[..c.bs], iv));
      y + CbcEnc(c, y, data[c.bs..])
  }

  function CbcDec(c: BlockCipher, iv: seq<Byte>, data: seq<Byte>): (r: seq<Byte>)
    requires c.Valid() && |iv| == c.bs && Whole(|data|, c.bs)
    ensures |r| == |data|
    decreases |data|
  {
    if data == [] then []
    else
      WholeTail(|data|, c.bs);
      XorSeq(c.dec(data[..c.bs]), iv) + CbcDec(c, data[..c.bs], data[c.bs..])
  }

  /** The chaining value after the ciphertext blocks ct: the last of them. */
  function NextIv(bs: nat, iv: seq<Byte>, ct: seq<Byte>): (r: seq<Byte>)
    requires |iv| == bs && (ct == [] || bs <= |ct|)
    ensures |r| == bs
  {
    if ct == [] then iv else ct[|ct| - bs..]
  }

  lemma NextIvConcat(bs: nat, iv: seq<Byte>, a: seq<Byte>, b: seq<Byte>)
    requires |iv| == bs && (a == [] || bs <= |a|) && (b == [] || bs <= |b|)
    ensures NextIv(bs, iv, a + b) == NextIv(bs, NextIv(bs, iv, a), b)
  {
    if b == [] {
      assert a + b == a;
    } else {
      assert (a + b)[|a + b| - bs..] == b[|b| - bs..];
    }
  }

  lemma AtLeastABlock(n: nat, bs: nat)
    requires Whole(n, bs)
    ensures n == 0 || bs <= n
  {
    if n > 0 { WholeTail(n, bs); }
  }

  /** The first block of CBC, with b standing for whatever follows it. */
  lemma CbcEncFirst(c: BlockCipher, iv: seq<Byte>, x: seq<Byte>, b: seq<Byte>)
    requires c.Valid() && |iv| == c.bs == |x| && Whole(|b|, c.bs)
    ensures Whole(|x + b|, c.bs)
    ensures CbcEnc(c, iv, x + b) == c.enc(XorSeq(x, iv)) + CbcEnc(c, c.enc(XorSeq(x, iv)), b)
  {
    WholeOne(c.bs);
    WholeSum(c.bs, |b|, c.bs);
    assert (x + b)[..c.bs] == x && (x + b)[c.bs..] == b;
  }

  lemma CbcDecFirst(c: BlockCipher, iv: seq<Byte>, x: seq<Byte>, b: seq<Byte>)
    requires c.Valid() && |iv| == c.bs == |x| && Whole(|b|, c.bs)
    ensures Whole(|x + b|, c.bs)
    ensures CbcDec(c, iv, x + b) == XorSeq(c.dec(x), iv) + CbcDec(c, x, b)
  {
    WholeOne(c.bs);
    WholeSum(c.bs, |b|, c.bs);
    assert (x + b)[..c.bs] == x && (x + b)[c.bs..] == b;
  }

  lemma {:induction false} CbcEncConcat(c: BlockCipher, iv: seq<Byte>, a: seq<Byte>, b: seq<Byte>)
    requires c.Valid() && |iv| == c.bs && Whole(|a|, c.bs) && Whole(|b|, c.bs)
    ensures Whole(|a + b|, c.bs) && (a == [] || c.bs <= |a|)
    ensures CbcEnc(c, iv, a + b) == CbcEnc(c, iv, a) + CbcEnc(c, NextIv(c.bs, iv, CbcEnc(c, iv, a)), b)
    decreases |a|
  {
    var bs := c.bs;
    WholeSum(|a|, |b|, bs);
    AtLeastABlock(|a|, bs);
    if a == [] {
      assert a + b == b;
    } else {
      WholeTail(|a|, bs);
      var x, a' := a[..bs], a[bs..];
      hide Whole, XorSeq, CbcEnc;
      assert a == x + a' && a + b == x + (a' + b);
      var y := c.enc(XorSeq(x, iv));
      CbcEncConcat(c, y, a', b);
      CbcEncFirst(c, iv, x, a');
      CbcEncFirst(c, iv, x, a' + b);
      NextIvConcat(bs, iv, y, CbcEnc(c, y, a'));
      AppendAssoc(y, CbcEnc(c, y, a'), CbcEnc(c, NextIv(bs, y, CbcEnc(c, y, a')), b));
    }
  }

  lemma {:induction false} CbcDecConcat(c: BlockCipher, iv: seq<Byte>, a: seq<Byte>, b: seq<Byte>)
    requires c.Valid() && |iv| == c.bs && Whole(|a|, c.bs) && Whole(|b|, c.bs)
    ensures Whole(|a + b|, c.bs) && (a == [] || c.bs <= |a|)
    ensures CbcDec(c, iv, a + b) == CbcDec(c, iv, a) + CbcDec(c, NextIv(c.bs, iv, a), b)
    decreases |a|
  {
    var bs := c.bs;
    WholeSum(|a|, |b|, bs);
    AtLeastABlock(|a|, bs);
    if a == [] {
      assert a + b == b;
    } else {
      WholeTail(|a|, bs);
      var x, a' := a[..bs], a[bs..];
      hide Whole, XorSeq, CbcDec;
      assert a == x + a' && a + b == x + (a' + b);
      CbcDecConcat(c, x, a', b);
      CbcDecFirst(c, iv, x, a');
      CbcDecFirst(c, iv, x, a' + b);
      NextIvConcat(bs, iv, x, a');
      AppendAssoc(XorSeq(c.dec(x), iv), CbcDec(c, x, a'), CbcDec(c, NextIv(bs, x, a'), b));
    }
  }

  /** CBC decryption undoes CBC encryption. */
  lemma {:induction false} CbcInverse(c: BlockCipher, iv: seq<Byte>, data: seq<Byte>)
    requires c.Valid() && |iv| == c.bs && Whole(|data|, c.bs)
    ensures CbcDec(c, iv, CbcEnc(c, iv, data)) == data
    decreases |data|
  {
    var bs := c.bs;
    if data != [] {
      WholeTail(|data|, bs);
      hide Whole, XorSeq;
      var x := XorSeq(data[..bs], iv);
      var y := c.enc(x);
      var rest := CbcEnc(c, y, data[bs..]);
      assert (y + rest)[..bs] == y && (y + rest)[bs..] == rest;
      XorSeqCancel(data[..bs], iv);
      CbcInverse(c, y, data[bs..]);
      assert data == data[..bs] + data[bs..];
    }
  }

  /** Block k: the bytes from k * bs on. */
  function BlockAt(s: seq<Byte>, bs: nat, k: nat): (b: seq<Byte>)
    requires k * bs + bs <= |s|
    ensures |b| == bs && forall i :: 0 <= i < bs ==> b[i] == s[k * bs + i]
  {
    MulMono(0, k, bs);
    s[k * bs..k * bs + bs]
  }

  lemma BlockOfRest(x: seq<Byte>, rest: seq<Byte>, bs: nat, k: nat)
    requires |x| == bs && 0 < k && k * bs + bs <= |x + rest|
    ensures (k - 1) * bs + bs <= |rest| && BlockAt(x + rest, bs, k) == BlockAt(rest, bs, k - 1)
  {
    assert (k - 1) * bs == k * bs - bs;
  }

  lemma BlockZero(x: seq<Byte>, rest: seq<Byte>, bs: nat)
    requires |x| == bs
    ensures 0 * bs + bs <= |x + rest| && BlockAt(x + rest, bs, 0) == x
  {
    assert 0 * bs == 0;
  }

  /** What CBC is: each block is encrypted after exclusive or with the ciphertext before it, the first with the vector. */
  lemma {:induction false} CbcEncBlock(c: BlockCipher, iv: seq<Byte>, data: seq<Byte>, k: nat)
    requires c.Valid() && |iv| == c.bs && Whole(|data|, c.bs) && k * c.bs + c.bs <= |data|
    ensures var out := CbcEnc(c, iv, data);
            && |out| == |data| && (0 < k ==> (k - 1) * c.bs + c.bs <= |out|)
            && BlockAt(out, c.bs, k) == c.enc(XorSeq(BlockAt(data, c.bs, k), if k == 0 then iv else BlockAt(out, c.bs, k - 1)))
    decreases k
  {
    hide XorSeq, CbcEnc, BlockAt, Whole;
    var bs := c.bs;
    MulMono(0, k, bs);
    WholeTail(|data|, bs);
    var x, rest := data[..bs], data[bs..];
    assert data == x + rest;
    CbcEncFirst(c, iv, x, rest);
    var y := c.enc(XorSeq(x, iv));
    var out' := CbcEnc(c, y, rest);
    if k == 0 {
      BlockZero(x, rest, bs);
      BlockZero(y, out', bs);
    } else {
      BlockOfRest(x, rest, bs, k);
      CbcEncBlock(c, y, rest, k - 1);
      BlockOfRest(y, out', bs, k);
      BlocksBefore(k, bs);
      if k == 1 { BlockZero(y, out', bs); } else { BlockOfRest(y, out', bs, k - 1); }
    }
  }

  lemma BlocksBefore(k: nat, bs: nat)
    requires 0 < k
    ensures (k - 1) * bs + bs == k * bs
  {
  }

  /** Decryption: each block is decrypted and taken together with the ciphertext before it. */
  lemma {:induction false} CbcDecBlock(c: BlockCipher, iv: seq<Byte>, data: seq<Byte>, k: nat)
    requires c.Valid() && |iv| == c.bs && Whole(|data|, c.bs) && k * c.bs + c.bs <= |data|
    ensures var out := CbcDec(c, iv, data);
            && |out| == |data| && (0 < k ==> (k - 1) * c.bs + c.bs <= |data|)
            && BlockAt(out, c.bs, k) == XorSeq(c.dec(BlockAt(data, c.bs, k)), if k == 0 then iv else BlockAt(data, c.bs, k - 1))
    decreases k
  {
    hide XorSeq, CbcDec, BlockAt, Whole;
    var bs := c.bs;
    MulMono(0, k, bs);
    WholeTail(|data|, bs);
    var x, rest := data[..bs], data[bs..];
    assert data == x + rest;
    CbcDecFirst(c, iv, x, rest);
    var y := XorSeq(c.dec(x), iv);
    var out' := CbcDec(c, x, rest);
    if k == 0 {
      BlockZero(x, rest, bs);
      BlockZero(y, out', bs);
    } else {
      BlockOfRest(x, rest, bs, k);
      CbcDecBlock(c, x, rest, k - 1);
      BlockOfRest(y, out', bs, k);
      BlocksBefore(k, bs);
      if k == 1 { BlockZero(x, rest, bs); } else { BlockOfRest(x, rest, bs, k - 1); }
    }
  }

  function Crypt(c: BlockCipher, op: Operation, iv: seq<Byte>, data: seq<Byte>): (r: seq<Byte>)
    requires c.Valid() && |iv| == c.bs && Whole(|data|, c.bs)
    ensures |r| == |data|
  {
    if op == Encrypt then CbcEnc(c, iv, data) else CbcDec(c, iv, data)
  }

  /** The chaining value after the blocks data have been processed. */
  function IvAfter(c: BlockCipher, op: Operation, iv: seq<Byte>, data: seq<Byte>): (r: seq<Byte>)
    requires c.Valid() && |iv| == c.bs && Whole(|data|, c.bs)
    ensures |r| == c.bs
  {
    AtLeastABlock(|data|, c.bs);
    NextIv(c.bs, iv, if op == Encrypt then CbcEnc(c, iv, data) else data)
  }

  lemma CryptConcat(c: BlockCipher, op: Operation, iv: seq<Byte>, a: seq<Byte>, b: seq<Byte>)
    requires c.Valid() && |iv| == c.bs && Whole(|a|, c.bs) && Whole(|b|, c.bs)
    ensures Whole(|a + b|, c.bs)
    ensures Crypt(c, op, iv, a + b) == Crypt(c, op, iv, a) + Crypt(c, op, IvAfter(c, op, iv, a), b)
    ensures IvAfter(c, op, iv, a + b) == IvAfter(c, op, IvAfter(c, op, iv, a), b)
  {
    AtLeastABlock(|b|, c.bs);
    hide Whole, CbcEnc, CbcDec;
    if op == Encrypt {
      CbcEncConcat(c, iv, a, b);
      var x := CbcEnc(c, iv, a);
      NextIvConcat(c.bs, iv, x, CbcEnc(c, NextIv(c.bs, iv, x), b));
    } else {
      CbcDecConcat(c, iv, a, b);
      NextIvConcat(c.bs, iv, a, b);
    }
  }

  // ---------------------------------------------------------------- cutting the stream

  /** What is held back of n pending bytes: the incomplete block, and for decryption with
      padding the last block even when it is complete. */
  function Kept(op: Operation, pad: Padding, n: nat, bs: nat): (k: nat)
    requires 0 < bs
    ensures k <= n && Whole(n - k, bs) && k <= bs
  {
    if op == Decrypt && pad != NoPadding && 0 < n && n % bs == 0 then
      WholeTail(n, bs);
      bs
    else
      assert n - n % bs == bs * (n / bs);
      DivModUnique(n - n % bs, bs, n / bs, 0);
      n % bs
  }

  /** What the context remembers between calls. */
  datatype View = View(iv: seq<Byte>, held: seq<Byte>)

  datatype Step = Step(view: View, out: seq<Byte>)

  ghost predicate Settled(c: BlockCipher, op: Operation, pad: Padding, v: View) {
    c.Valid() && |v.iv| == c.bs && |v.held| == Kept(op, pad, |v.held|, c.bs)
  }

  /** What one update call has to do: process everything pending except what is kept. */
  function UpdateSpec(c: BlockCipher, op: Operation, pad: Padding, v: View, input: seq<Byte>): Step
    requires c.Valid() && |v.iv| == c.bs
  {
    var total := v.held + input;
    var cut := |total| - Kept(op, pad, |total|, c.bs);
    Step(View(IvAfter(c, op, v.iv, total[..cut]), total[cut..]), Crypt(c, op, v.iv, total[..cut]))
  }

  lemma KeptIsSettled(op: Operation, pad: Padding, n: nat, bs: nat)
    requires 0 < bs
    ensures Kept(op, pad, Kept(op, pad, n, bs), bs) == Kept(op, pad, n, bs)
  {
    var k := Kept(op, pad, n, bs);
    if k < bs {
      DivModUnique(k, bs, 0, k);
    } else {
      WholeOne(bs);
    }
  }

  /** Removing processed blocks does not change what is to be kept. */
  lemma KeptOfTail(op: Operation, pad: Padding, n: nat, done: nat, bs: nat)
    requires done <= n && Whole(done, bs) && (done < n || n == 0 || op == Encrypt || pad == NoPadding)
    ensures Kept(op, pad, n - done, bs) == Kept(op, pad, n, bs)
  {
    ModOfTail(n, done, bs);
  }

  lemma KeptSome(op: Operation, pad: Padding, n: nat, bs: nat)
    requires 0 < bs && 0 < n && op == Decrypt && pad != NoPadding
    ensures 0 < Kept(op, pad, n, bs)
  {
  }

  /** Two updates in a row are one update with the concatenated input. */
  lemma UpdateTwice(c: BlockCipher, op: Operation, pad: Padding, v: View, a: seq<Byte>, b: seq<Byte>)
    requires Settled(c, op, pad, v)
    ensures var one := UpdateSpec(c, op, pad, v, a);
            var two := UpdateSpec(c, op, pad, one.view, b);
            && Settled(c, op, pad, one.view)
            && UpdateSpec(c, op, pad, v, a + b) == Step(two.view, one.out + two.out)
  {
    hide Kept, Whole, Crypt, IvAfter, UpdateSpec;
    var n1 := |v.held + a|;
    var p, s := CutAt(v.held + a, n1 - Kept(op, pad, n1, c.bs));
    KeptIsSettled(op, pad, n1, c.bs);
    UpdateAt(c, op, pad, v, a, p, s);
    SecondUpdate(c, op, pad, v, a, b, p, s);
  }

  lemma SecondUpdate(c: BlockCipher, op: Operation, pad: Padding, v: View, a: seq<Byte>, b: seq<Byte>,
                     p: seq<Byte>, s: seq<Byte>)
    requires c.Valid() && |v.iv| == c.bs && v.held + a == p + s && Whole(|p|, c.bs)
    requires |s| == Kept(op, pad, |p| + |s|, c.bs)
    ensures var two := UpdateSpec(c, op, pad, View(IvAfter(c, op, v.iv, p), s), b);
            UpdateSpec(c, op, pad, v, a + b) == Step(two.view, Crypt(c, op, v.iv, p) + two.out)
  {
    KeptSecond(op, pad, |p|, |s|, |b|, c.bs);
    hide Kept, Whole, Crypt, IvAfter, UpdateSpec, BlockCipher.Valid;
    var q, r := CutAt(s + b, |s| + |b| - Kept(op, pad, |s| + |b|, c.bs));
    Reassociate(v.held, a, b, p, s, q, r);
    SecondCrypt(c, op, pad, v, a + b, p, View(IvAfter(c, op, v.iv, p), s), b, q, r);
  }

  lemma KeptSecond(op: Operation, pad: Padding, lp: nat, ls: nat, lb: nat, bs: nat)
    requires 0 < bs && Whole(lp, bs) && ls == Kept(op, pad, lp + ls, bs)
    ensures Kept(op, pad, lp + ls + lb, bs) == Kept(op, pad, ls + lb, bs)
  {
    hide Whole;
    if op == Decrypt && pad != NoPadding && lp + ls > 0 { KeptSome(op, pad, lp + ls, bs); }
    KeptOfTail(op, pad, lp + ls + lb, lp, bs);
  }

  lemma SecondCrypt(c: BlockCipher, op: Operation, pad: Padding, v: View, ab: seq<Byte>, p: seq<Byte>,
                    w: View, b: seq<Byte>, q: seq<Byte>, r: seq<Byte>)
    requires c.Valid() && |v.iv| == c.bs == |w.iv| && Whole(|p|, c.bs) && w.iv == IvAfter(c, op, v.iv, p)
    requires v.held + ab == p + q + r && w.held + b == q + r
    requires |r| == Kept(op, pad, |q| + |r|, c.bs) == Kept(op, pad, |p| + |q| + |r|, c.bs)
    ensures var two := UpdateSpec(c, op, pad, w, b);
            UpdateSpec(c, op, pad, v, ab) == Step(two.view, Crypt(c, op, v.iv, p) + two.out)
  {
    hide Kept, Whole, Crypt, IvAfter, UpdateSpec, BlockCipher.Valid;
    UpdateAt(c, op, pad, w, b, q, r);
    CryptConcat(c, op, v.iv, p, q);
    UpdateAt(c, op, pad, v, ab, p + q, r);
  }

  lemma CutAt(t: seq<Byte>, k: nat) returns (p: seq<Byte>, s: seq<Byte>)
    requires k <= |t|
    ensures t == p + s && |p| == k
  {
    p, s := t[..k], t[k..];
  }

  lemma Reassociate(h: seq<Byte>, a: seq<Byte>, b: seq<Byte>, p: seq<Byte>, s: seq<Byte>, q: seq<Byte>, r: seq<Byte>)
    requires h + a == p + s && s + b == q + r
    ensures h + (a + b) == p + q + r
  {
    assert h + (a + b) == h + a + b == p + s + b == p + (s + b) == p + (q + r);
  }

  /** An update that processes p and keeps rest. */
  lemma UpdateAt(c: BlockCipher, op: Operation, pad: Padding, v: View, input: seq<Byte>, p: seq<Byte>, rest: seq<Byte>)
    requires c.Valid() && |v.iv| == c.bs && v.held + input == p + rest
    requires |rest| == Kept(op, pad, |p| + |rest|, c.bs)
    ensures Whole(|p|, c.bs)
    ensures UpdateSpec(c, op, pad, v, input) == Step(View(IvAfter(c, op, v.iv, p), rest), Crypt(c, op, v.iv, p))
  {
    hide Kept, Whole, Crypt, IvAfter;
    assert (p + rest)[..|p|] == p && (p + rest)[|p|..] == rest;
  }

  /** The updates of a whole run. */
  function RunUpdates(c: BlockCipher, op: Operation, pad: Padding, v: View, chunks: seq<seq<Byte>>): Step
    requires c.Valid() && |v.iv| == c.bs
    decreases |chunks|
  {
    if chunks == [] then Step(v, [])
    else
      var one := UpdateSpec(c, op, pad, v, chunks[0]);
      var rest := RunUpdates(c, op, pad, one.view, chunks[1..]);
      Step(rest.view, one.out + rest.out)
  }

  lemma UpdateNothing(c: BlockCipher, op: Operation, pad: Padding, v: View)
    requires Settled(c, op, pad, v)
    ensures UpdateSpec(c, op, pad, v, []) == Step(v, [])
  {
    assert v.held + [] == v.held;
    assert v.held[..0] == [];
  }

  /** However the input is cut into calls, the run is one update with all of it. */
  lemma {:induction false} AnySplit(c: BlockCipher, op: Operation, pad: Padding, v: View, chunks: seq<seq<Byte>>)
    requires Settled(c, op, pad, v)
    ensures RunUpdates(c, op, pad, v, chunks) == UpdateSpec(c, op, pad, v, Flatten(chunks))
    decreases |chunks|
  {
    if chunks == [] {
      UpdateNothing(c, op, pad, v);
    } else {
      var one := UpdateSpec(c, op, pad, v, chunks[0]);
      UpdateTwice(c, op, pad, v, chunks[0], Flatten(chunks[1..]));
      AnySplit(c, op, pad, one.view, chunks[1..]);
    }
  }

  // ---------------------------------------------------------------- padding

  /** The last block of the padded message, made of the incomplete block held. */
  function PadBlock(pad: Padding, held: seq<Byte>, bs: nat): (r: seq<Byte>)
    requires |held| < bs < 256 && pad != NoPadding
    ensures |r| == bs
  {
    var p := bs - |held|;
    match pad
    case Pkcs7 => held + Fill(p, p)
    case OneAndZeros => held + [0x80] + Fill(p - 1, 0)
    case ZerosAndLen => held + Fill(p - 1, 0) + [p]
    case Zeros => held + Fill(p, 0)
  }

  datatype Unpadded = Good(len: nat) | Bad

  /** Length without trailing zero bytes. */
  function StripZeros(s: seq<Byte>): (n: nat)
    ensures n <= |s|
  {
    if s == [] then 0 else if s[|s| - 1] != 0 then |s| else StripZeros(s[..|s| - 1])
  }

  predicate AllEqual(s: seq<Byte>, from: nat, to: nat, b: Byte)
    requires from <= to <= |s|
  {
    forall i :: from <= i < to ==> s[i] == b
  }

  /** The padded block byte by byte. */
  lemma PadBlockIs(pad: Padding, held: seq<Byte>, bs: nat)
    requires |held| < bs < 256 && pad != NoPadding
    ensures var r := PadBlock(pad, held, bs);
      && |r| == bs && r[..|held|] == held
      && (pad == Pkcs7 ==> forall i :: |held| <= i < bs ==> r[i] == bs - |held|)
      && (pad == OneAndZeros ==> r[|held|] == 0x80 && forall i :: |held| < i < bs ==> r[i] == 0)
      && (pad == ZerosAndLen ==> r[bs - 1] == bs - |held| && forall i :: |held| <= i < bs - 1 ==> r[i] == 0)
      && (pad == Zeros ==> forall i :: |held| <= i < bs ==> r[i] == 0)
  {
  }

  /** Which last blocks are accepted, and how many of their bytes are data. */
  function Unpad(pad: Padding, blk: seq<Byte>): Unpadded
    requires |blk| > 0
  {
    var n, last := |blk|, blk[|blk| - 1];
    match pad
    case Pkcs7 => if 1 <= last <= n && AllEqual(blk, n - last, n, last) then Good(n - last) else Bad
    case OneAndZeros =>
      var k := StripZeros(blk);
      if k > 0 && blk[k - 1] == 0x80 then Good(k - 1) else Bad
    case ZerosAndLen => if 1 <= last <= n && AllEqual(blk, n - last, n - 1, 0) then Good(n - last) else Bad
    case Zeros => Good(StripZeros(blk))
    case NoPadding => Good(n)
  }

  lemma {:induction false} StripZerosIs(s: seq<Byte>)
    ensures var n := StripZeros(s); (n > 0 ==> s[n - 1] != 0) && forall i :: n <= i < |s| ==> s[i] == 0
  {
    if s != [] && s[|s| - 1] == 0 { StripZerosIs(s[..|s| - 1]); }
  }

  /** The readers byte by byte: accepted blocks and their data length. */
  lemma UnpadIs(blk: seq<Byte>, len: nat)
    requires |blk| > 0
    ensures var n, p := |blk|, blk[|blk| - 1];
      && (Unpad(Pkcs7, blk) == Good(len) <==> 1 <= p <= n && len == n - p && forall i :: n - p <= i < n ==> blk[i] == p)
      && (Unpad(ZerosAndLen, blk) == Good(len) <==> 1 <= p <= n && len == n - p && forall i :: n - p <= i < n - 1 ==> blk[i] == 0)
      && (Unpad(OneAndZeros, blk) == Good(len) <==> len < n && blk[len] == 0x80 && forall i :: len < i < n ==> blk[i] == 0)
      && (Unpad(Zeros, blk) == Good(len) <==> len <= n && (len > 0 ==> blk[len - 1] != 0) && forall i :: len <= i < n ==> blk[i] == 0)
  {
    StripZerosIs(blk);
    var k := StripZeros(blk);
    if len < |blk| && k > len { assert blk[k - 1] != 0; }
    if k <= |blk| && 0 < len && len > k && len <= |blk| { assert blk[len - 1] == 0; }
    if len < |blk| && k <= len { assert blk[len] == 0; }
  }

  /** The length a reader leaves behind, accepted block or not; a padding length above the block size wraps. */
  function DataLen(pad: Padding, blk: seq<Byte>): nat
    requires |blk| > 0
  {
    match pad
    case Pkcs7 => (|blk| - blk[|blk| - 1]) % SIZE
    case OneAndZeros => if StripZeros(blk) > 0 then StripZeros(blk) - 1 else 0
    case ZerosAndLen => (|blk| - blk[|blk| - 1]) % SIZE
    case Zeros => StripZeros(blk)
    case NoPadding => |blk|
  }

  /** For an accepted block that is the number of data bytes. */
  lemma DataLenOfGood(pad: Padding, blk: seq<Byte>)
    requires 0 < |blk| < 256 && Unpad(pad, blk).Good?
    ensures DataLen(pad, blk) == Unpad(pad, blk).len
  {
  }

  lemma {:induction false} StripAppended(s: seq<Byte>, k: nat)
    ensures StripZeros(s + Fill(k, 0)) == StripZeros(s)
    decreases k
  {
    var t := s + Fill(k, 0);
    if k == 0 {
      assert t == s;
    } else {
      assert t[..|t| - 1] == s + Fill(k - 1, 0);
      StripAppended(s, k - 1);
    }
  }

  /** Unpadding undoes padding; zero padding loses exactly the zeros the data ended with. */
  lemma UnpadPad(pad: Padding, held: seq<Byte>, bs: nat)
    requires |held| < bs < 256 && pad != NoPadding
    ensures Unpad(pad, PadBlock(pad, held, bs))
         == Good(if pad == Zeros then StripZeros(held) else |held|)
  {
    hide StripZeros, Fill;
    match pad
    case Pkcs7 => UnpadPkcs7(held, bs);
    case OneAndZeros => UnpadOneAndZeros(held, bs);
    case ZerosAndLen => UnpadZerosAndLen(held, bs);
    case Zeros => StripAppended(held, bs - |held|);
  }

  lemma UnpadPkcs7(held: seq<Byte>, bs: nat)
    requires |held| < bs < 256
    ensures Unpad(Pkcs7, PadBlock(Pkcs7, held, bs)) == Good(|held|)
  {
    var blk := PadBlock(Pkcs7, held, bs);
    assert blk[bs - 1] == bs - |held|;
    assert AllEqual(blk, |held|, bs, bs - |held|);
  }

  lemma UnpadOneAndZeros(held: seq<Byte>, bs: nat)
    requires |held| < bs < 256
    ensures Unpad(OneAndZeros, PadBlock(OneAndZeros, held, bs)) == Good(|held|)
  {
    var s := held + [0x80];
    StripAppended(s, bs - |held| - 1);
    assert StripZeros(s) == |held| + 1;
    assert (s + Fill(bs - |held| - 1, 0))[|held|] == 0x80;
  }

  lemma UnpadZerosAndLen(held: seq<Byte>, bs: nat)
    requires |held| < bs < 256
    ensures Unpad(ZerosAndLen, PadBlock(ZerosAndLen, held, bs)) == Good(|held|)
  {
    var blk := PadBlock(ZerosAndLen, held, bs);
    assert blk[bs - 1] == bs - |held|;
    assert AllEqual(blk, |held|, bs - 1, 0);
  }

  lemma StripsNothing(s: seq<Byte>)
    ensures StripZeros(s) == |s| <==> s == [] || s[|s| - 1] != 0
  {
  }

  // ---------------------------------------------------------------- padding as the code does it

  method GetPkcsPadding(input: seq<Byte>) returns (ret: int, dataLen: nat)
    requires 0 < |input| < 256
    ensures ret == if Unpad(Pkcs7, input).Good? then 0 else ERR_INVALID_PADDING
    ensures dataLen == DataLen(Pkcs7, input)
  {
    var n := |input|;
    var paddingLen := input[n - 1];
    dataLen := (n - paddingLen) % SIZE;
    var bad: Byte := OrByte(OrByte(0, Bit(paddingLen > n)), Bit(paddingLen == 0));
    OrIsZero(0, Bit(paddingLen > n));
    OrIsZero(OrByte(0, Bit(paddingLen > n)), Bit(paddingLen == 0));
    var padIdx := (n - paddingLen) % SIZE;
    for i := 0 to n
      invariant bad == 0 <==> 0 < paddingLen <= n
                              && forall j :: 0 <= j < i && j >= padIdx ==> input[j] == paddingLen
    {
      XorDistinct(input[i], paddingLen);
      OrIsZero(bad, XorByte(input[i], paddingLen) * Bit(i >= padIdx));
      bad := OrByte(bad, XorByte(input[i], paddingLen) * Bit(i >= padIdx));
    }
    ret := if bad != 0 then ERR_INVALID_PADDING else 0;
  }

  method GetZerosAndLenPadding(input: seq<Byte>) returns (ret: int, dataLen: nat)
    requires 0 < |input| < 256
    ensures ret == if Unpad(ZerosAndLen, input).Good? then 0 else ERR_INVALID_PADDING
    ensures dataLen == DataLen(ZerosAndLen, input)
  {
    var n := |input|;
    var paddingLen := input[n - 1];
    dataLen := (n - paddingLen) % SIZE;
    var bad: Byte := OrByte(OrByte(0, Bit(paddingLen > n)), Bit(paddingLen == 0));
    OrIsZero(0, Bit(paddingLen > n));
    OrIsZero(OrByte(0, Bit(paddingLen > n)), Bit(paddingLen == 0));
    var padIdx := (n - paddingLen) % SIZE;
    for i := 0 to n - 1
      invariant bad == 0 <==> 0 < paddingLen <= n
                              && forall j :: 0 <= j < i && j >= padIdx ==> input[j] == 0
    {
      OrIsZero(bad, input[i] * Bit(i >= padIdx));
      bad := OrByte(bad, input[i] * Bit(i >= padIdx));
    }
    ret := if bad != 0 then ERR_INVALID_PADDING else 0;
  }

  /** Scans from the end; done flips at the last nonzero byte. */
  method GetOneAndZerosPadding(input: seq<Byte>) returns (ret: int, dataLen: nat)
    requires 0 < |input| < 256
    ensures ret == if Unpad(OneAndZeros, input).Good? then 0 else ERR_INVALID_PADDING
    ensures dataLen == DataLen(OneAndZeros, input)
  {
    var bad: Byte := 0x80;
    var done: Byte := 0;
    dataLen := 0;
    var i := |input|;
    assert input[..i] == input;
    while i > 0
      invariant 0 <= i <= |input| && done <= 1
      invariant done == 0 ==> StripZeros(input[..i]) == StripZeros(input) && bad == 0x80 && dataLen == 0
      invariant done == 1 ==> StripZeros(input) > 0 && dataLen == StripZeros(input) - 1
                              && (bad == 0 <==> input[dataLen] == 0x80)
    {
      var prevDone := done;
      var b := input[i - 1];
      assert input[..i][..i - 1] == input[..i - 1];
      OrFlag(done, b != 0);
      done := OrByte(done, Bit(b != 0));
      var flip := Bit(done != prevDone);
      BitOrZero(dataLen);
      BitOrZero(i - 1);
      dataLen := BitOr(dataLen, (i - 1) * flip);
      XorDistinct(0x80, b);
      XorZero(bad);
      bad := XorByte(bad, b * flip);
      i := i - 1;
    }
    assert input[..0] == [];
    ret := if bad != 0 then ERR_INVALID_PADDING else 0;
  }

  lemma OrFlag(x: Byte, c: bool)
    requires x <= 1
    ensures OrByte(x, Bit(c)) == if x == 1 || c then 1 else 0
  {
    BitOrZero(x);
    BitOrZero(Bit(c));
    assert BitOr(1, 1) == 1;
  }

  method GetZerosPadding(input: seq<Byte>) returns (dataLen: nat)
    ensures dataLen == StripZeros(input)
  {
    var done: Byte := 0;
    dataLen := 0;
    var i := |input|;
    assert input[..i] == input;
    while i > 0
      invariant 0 <= i <= |input| && done <= 1
      invariant done == 0 ==> StripZeros(input[..i]) == StripZeros(input) && dataLen == 0
      invariant done == 1 ==> dataLen == StripZeros(input)
    {
      var prevDone := done;
      assert input[..i][..i - 1] == input[..i - 1];
      OrFlag(done, input[i - 1] != 0);
      done := OrByte(done, Bit(input[i - 1] != 0));
      BitOrZero(dataLen);
      BitOrZero(i);
      dataLen := BitOr(dataLen, i * Bit(done != prevDone));
      i := i - 1;
    }
    assert input[..0] == [];
  }

  /** The four add_ functions: they complete the block of output_len bytes in place. */
  method AddPadding(pad: Padding, output: array<Byte>, outputLen: nat, dataLen: nat)
    requires dataLen < outputLen <= output.Length && outputLen < 256 && pad != NoPadding
    modifies output
    ensures output[..outputLen] == PadBlock(pad, old(output[..dataLen]), outputLen)
    ensures output[outputLen..] == old(output[outputLen..])
  {
    var paddingLen := outputLen - dataLen;
    match pad
    case Pkcs7 =>
      for i := 0 to paddingLen
        invariant output[..dataLen] == old(output[..dataLen]) && output[outputLen..] == old(output[outputLen..])
        invariant forall j :: dataLen <= j < dataLen + i ==> output[j] == paddingLen
      {
        output[dataLen + i] := paddingLen;
      }
    case OneAndZeros =>
      output[dataLen] := 0x80;
      for i := 1 to paddingLen
        invariant output[..dataLen] == old(output[..dataLen]) && output[outputLen..] == old(output[outputLen..])
        invariant output[dataLen] == 0x80
        invariant forall j :: dataLen < j < dataLen + i ==> output[j] == 0
      {
        output[dataLen + i] := 0x00;
      }
    case ZerosAndLen =>
      for i := 1 to paddingLen
        invariant output[..dataLen] == old(output[..dataLen]) && output[outputLen..] == old(output[outputLen..])
        invariant forall j :: dataLen <= j < dataLen + i - 1 ==> output[j] == 0
      {
        output[dataLen + i - 1] := 0x00;
      }
      output[outputLen - 1] := paddingLen;
    case Zeros =>
      for i := dataLen to outputLen
        invariant output[..dataLen] == old(output[..dataLen]) && output[outputLen..] == old(output[outputLen..])
        invariant forall j :: dataLen <= j < i ==> output[j] == 0
      {
        output[i] := 0x00;
      }
  }

  method GetPadding(pad: Padding, input: seq<Byte>) returns (ret: int, dataLen: nat)
    requires 0 < |input| < 256
    ensures ret == if Unpad(pad, input).Good? then 0 else ERR_INVALID_PADDING
    ensures dataLen == DataLen(pad, input)
  {
    match pad
    case Pkcs7 => ret, dataLen := GetPkcsPadding(input);
    case OneAndZeros => ret, dataLen := GetOneAndZerosPadding(input);
    case ZerosAndLen => ret, dataLen := GetZerosAndLenPadding(input);
    case Zeros => dataLen := GetZerosPadding(input); ret := 0;
    case NoPadding => ret, dataLen := 0, |input|;
  }

  // ---------------------------------------------------------------- finishing

  datatype Finished = Finished(ret: int, out: seq<Byte>)

  /** What finish has to return for a context that remembers v. */
  function FinishSpec(c: BlockCipher, op: Operation, pad: Padding, v: View): Finished
    requires c.Valid() && c.bs < 256 && |v.iv| == c.bs && (op == Encrypt ==> |v.held| < c.bs)
  {
    WholeOne(c.bs);
    if op == Encrypt then
      if pad == NoPadding then Finished(if v.held == [] then 0 else ERR_FULL_BLOCK_EXPECTED, [])
      else Finished(0, CbcEnc(c, v.iv, PadBlock(pad, v.held, c.bs)))
    else if |v.held| != c.bs then
      Finished(if pad == NoPadding && v.held == [] then 0 else ERR_FULL_BLOCK_EXPECTED, [])
    else
      var blk := CbcDec(c, v.iv, v.held);
      match Unpad(pad, blk)
      case Good(len) => if len <= |blk| then Finished(0, blk[..len]) else Finished(0, blk)
      case Bad => Finished(ERR_INVALID_PADDING, [])
  }

  /** The output length finish leaves behind: for a decrypted block what its padding reader says. */
  function FinishLen(c: BlockCipher, op: Operation, pad: Padding, v: View, written: nat): nat
    requires c.Valid() && |v.iv| == c.bs
  {
    WholeOne(c.bs);
    if op == Decrypt && |v.held| == c.bs then DataLen(pad, CbcDec(c, v.iv, v.held)) else written
  }

  /** A whole run: any number of updates, then finish. */
  function Run(c: BlockCipher, op: Operation, pad: Padding, iv: seq<Byte>, chunks: seq<seq<Byte>>): Finished
    requires c.Valid() && c.bs < 256 && |iv| == c.bs
  {
    SettledStart(c, op, pad, iv);
    AnySplit(c, op, pad, View(iv, []), chunks);
    HeldBack(c, op, pad, View(iv, []), Flatten(chunks));
    var s := RunUpdates(c, op, pad, View(iv, []), chunks);
    var f := FinishSpec(c, op, pad, s.view);
    Finished(f.ret, s.out + f.out)
  }

  lemma SettledStart(c: BlockCipher, op: Operation, pad: Padding, iv: seq<Byte>)
    requires c.Valid() && |iv| == c.bs
    ensures Settled(c, op, pad, View(iv, []))
  {
    WholeOne(c.bs);
  }

  lemma HeldBack(c: BlockCipher, op: Operation, pad: Padding, v: View, input: seq<Byte>)
    requires c.Valid() && |v.iv| == c.bs
    ensures var s := UpdateSpec(c, op, pad, v, input);
            && |s.view.iv| == c.bs && |s.view.held| == Kept(op, pad, |v.held| + |input|, c.bs)
            && (op == Encrypt || pad == NoPadding ==> |s.view.held| < c.bs)
  {
  }

  /** The padded message: whole blocks, the last one completed by PadBlock. */
  function PadMessage(pad: Padding, msg: seq<Byte>, bs: nat): (r: seq<Byte>)
    requires 0 < bs < 256 && pad != NoPadding
    ensures Whole(|r|, bs)
  {
    var k := |msg| - Kept(Encrypt, pad, |msg|, bs);
    WholeOne(bs);
    WholeSum(k, bs, bs);
    msg[..k] + PadBlock(pad, msg[k..], bs)
  }

  /** The padded message: the message, and its incomplete last block completed. */
  lemma PadMessageIs(pad: Padding, msg: seq<Byte>, bs: nat)
    requires 0 < bs < 256 && pad != NoPadding
    ensures var r, k := PadMessage(pad, msg, bs), |msg| - |msg| % bs;
            0 <= k <= |msg| && |msg| - k < bs && |r| == k + bs && r[..k] == msg[..k] && r[k..] == PadBlock(pad, msg[k..], bs)
  {
    hide PadBlock;
    KeptIs(Encrypt, pad, |msg|, bs);
  }

  /** A run that has processed p when finish is called with rest still held. */
  lemma RunAt(c: BlockCipher, op: Operation, pad: Padding, iv: seq<Byte>, chunks: seq<seq<Byte>>,
              p: seq<Byte>, rest: seq<Byte>)
    requires c.Valid() && c.bs < 256 && |iv| == c.bs && Flatten(chunks) == p + rest
    requires |rest| == Kept(op, pad, |p| + |rest|, c.bs) && (op == Encrypt ==> |rest| < c.bs)
    ensures Whole(|p|, c.bs)
    ensures var f := FinishSpec(c, op, pad, View(IvAfter(c, op, iv, p), rest));
            Run(c, op, pad, iv, chunks) == Finished(f.ret, Crypt(c, op, iv, p) + f.out)
  {
    hide Flatten, Kept, Whole, FinishSpec, UpdateSpec, RunUpdates, IvAfter, Crypt, BlockCipher.Valid, Settled;
    SettledStart(c, op, pad, iv);
    AnySplit(c, op, pad, View(iv, []), chunks);
    assert [] + Flatten(chunks) == p + rest;
    UpdateAt(c, op, pad, View(iv, []), Flatten(chunks), p, rest);
  }

  /** Encryption, however the message is cut into calls, is one-shot CBC of the padded message. */
  lemma EncryptAnySplit(c: BlockCipher, pad: Padding, iv: seq<Byte>, chunks: seq<seq<Byte>>)
    requires c.Valid() && c.bs < 256 && |iv| == c.bs && pad != NoPadding
    ensures Run(c, Encrypt, pad, iv, chunks)
         == Finished(0, CbcEnc(c, iv, PadMessage(pad, Flatten(chunks), c.bs)))
  {
    hide Whole, Kept, PadBlock, CbcEnc, Run, Flatten, FinishSpec, BlockCipher.Valid;
    BlockSize(c);
    var msg := Flatten(chunks);
    KeptEncrypting(pad, |msg|, c.bs);
    var k := |msg| - Kept(Encrypt, pad, |msg|, c.bs);
    var p, rest := msg[..k], msg[k..];
    assert msg == p + rest;
    RunAt(c, Encrypt, pad, iv, chunks, p, rest);
    WholeOne(c.bs);
    FinishEncrypt(c, pad, View(IvAfter(c, Encrypt, iv, p), rest));
    CbcEncConcat(c, iv, p, PadBlock(pad, rest, c.bs));
  }

  lemma KeptEncrypting(pad: Padding, n: nat, bs: nat)
    requires 0 < bs
    ensures Kept(Encrypt, pad, n, bs) < bs && Kept(Encrypt, pad, n, bs) <= n
  {
  }

  lemma FinishEncrypt(c: BlockCipher, pad: Padding, v: View)
    requires c.Valid() && c.bs < 256 && |v.iv| == c.bs && |v.held| < c.bs && pad != NoPadding
    ensures Whole(c.bs, c.bs) && FinishSpec(c, Encrypt, pad, v) == Finished(0, CbcEnc(c, v.iv, PadBlock(pad, v.held, c.bs)))
  {
    hide CbcEnc, PadBlock, BlockCipher.Valid;
    WholeOne(c.bs);
  }

  /** The ciphertext of body + blk falls into the two parts that decrypt to them. */
  lemma CiphertextParts(c: BlockCipher, iv: seq<Byte>, body: seq<Byte>, blk: seq<Byte>)
    returns (p: seq<Byte>, rest: seq<Byte>)
    requires c.Valid() && |iv| == c.bs
    requires Whole(|body|, c.bs) && |blk| == c.bs && Whole(|body + blk|, c.bs)
    ensures CbcEnc(c, iv, body + blk) == p + rest && |p| == |body| && |rest| == c.bs
    ensures Whole(|p|, c.bs) && Whole(|rest|, c.bs)
    ensures CbcDec(c, iv, p) == body && CbcDec(c, IvAfter(c, Decrypt, iv, p), rest) == blk
  {
    WholeOne(c.bs);
    AtLeastABlock(|body|, c.bs);
    hide Whole, CbcEnc, CbcDec;
    CbcEncConcat(c, iv, body, blk);
    p := CbcEnc(c, iv, body);
    rest := CbcEnc(c, NextIv(c.bs, iv, p), blk);
    CbcInverse(c, iv, body);
    CbcInverse(c, NextIv(c.bs, iv, p), blk);
  }

  /** Decrypting any bytes, however they are cut into calls: without a complete last block an error after the
      whole blocks; otherwise all blocks but the last come out and of that one what its padding says. */
  lemma DecryptAnySplit(c: BlockCipher, pad: Padding, iv: seq<Byte>, chunks: seq<seq<Byte>>)
    requires c.Valid() && c.bs < 256 && |iv| == c.bs && pad != NoPadding
    ensures var data := Flatten(chunks);
            var k := Kept(Decrypt, pad, |data|, c.bs);
            var body := CbcDec(c, iv, data[..|data| - k]);
            && (data == [] || !Whole(|data|, c.bs) ==> Run(c, Decrypt, pad, iv, chunks) == Finished(ERR_FULL_BLOCK_EXPECTED, body))
            && (data != [] && Whole(|data|, c.bs) ==>
                 k == c.bs && Whole(c.bs, c.bs) &&
                 var blk := CbcDec(c, IvAfter(c, Decrypt, iv, data[..|data| - k]), data[|data| - k..]);
                 Run(c, Decrypt, pad, iv, chunks) ==
                   match Unpad(pad, blk)
                   case Good(len) => if len <= |blk| then Finished(0, body + blk[..len]) else Finished(0, body + blk)
                   case Bad => Finished(ERR_INVALID_PADDING, body))
  {
    hide Unpad, CbcDec, IvAfter, Run, Flatten, BlockCipher.Valid;
    BlockSize(c);
    WholeOne(c.bs);
    var data := Flatten(chunks);
    var k := Kept(Decrypt, pad, |data|, c.bs);
    var p, rest := data[..|data| - k], data[|data| - k..];
    assert data == p + rest;
    RunAt(c, Decrypt, pad, iv, chunks, p, rest);
    assert CbcDec(c, iv, p) + [] == CbcDec(c, iv, p);
  }

  /** Decrypting whole blocks, however they are cut into calls: all blocks but the last come
      out in full and of the last one the bytes that unpadding leaves. */
  lemma DecryptPadded(c: BlockCipher, pad: Padding, iv: seq<Byte>, body: seq<Byte>, blk: seq<Byte>,
                        chunks: seq<seq<Byte>>)
    requires c.Valid() && c.bs < 256 && |iv| == c.bs && pad != NoPadding
    requires Whole(|body|, c.bs) && |blk| == c.bs && Whole(|body + blk|, c.bs)
    requires Flatten(chunks) == CbcEnc(c, iv, body + blk)
    requires Unpad(pad, blk).Good? && Unpad(pad, blk).len <= |blk|
    ensures Run(c, Decrypt, pad, iv, chunks) == Finished(0, body + blk[..Unpad(pad, blk).len])
  {
    hide Whole, Kept, Unpad, CbcEnc, CbcDec, IvAfter, Run, FinishSpec, Flatten, BlockCipher.Valid;
    var p, rest := CiphertextParts(c, iv, body, blk);
    WholeSum(|p|, |rest|, c.bs);
    BlockSize(c);
    WholeKept(pad, |p| + |rest|, c.bs);
    RunAt(c, Decrypt, pad, iv, chunks, p, rest);
    FinishDecrypt(c, pad, View(IvAfter(c, Decrypt, iv, p), rest), blk);
  }

  lemma WholeKept(pad: Padding, n: nat, bs: nat)
    requires 0 < n && Whole(n, bs) && pad != NoPadding
    ensures 0 < bs && Kept(Decrypt, pad, n, bs) == bs
  {
  }

  lemma FinishDecrypt(c: BlockCipher, pad: Padding, v: View, blk: seq<Byte>)
    requires c.Valid() && c.bs < 256 && |v.iv| == c.bs == |v.held| && Whole(|v.held|, c.bs)
    requires CbcDec(c, v.iv, v.held) == blk && Unpad(pad, blk).Good? && Unpad(pad, blk).len <= |blk|
    ensures FinishSpec(c, Decrypt, pad, v) == Finished(0, blk[..Unpad(pad, blk).len])
  {
    hide CbcDec, Unpad, Whole;
  }

  /** Without padding the run succeeds exactly on whole blocks, and is then one-shot CBC. */
  lemma NoPaddingAnySplit(c: BlockCipher, op: Operation, iv: seq<Byte>, chunks: seq<seq<Byte>>)
    requires c.Valid() && c.bs < 256 && |iv| == c.bs
    ensures Run(c, op, NoPadding, iv, chunks).ret == 0 <==> Whole(|Flatten(chunks)|, c.bs)
    ensures Whole(|Flatten(chunks)|, c.bs) ==>
              Run(c, op, NoPadding, iv, chunks) == Finished(0, Crypt(c, op, iv, Flatten(chunks)))
  {
    hide Crypt, IvAfter, Run, Flatten, BlockCipher.Valid;
    BlockSize(c);
    var msg := Flatten(chunks);
    var p, rest := CutAt(msg, |msg| - Kept(op, NoPadding, |msg|, c.bs));
    RunAt(c, op, NoPadding, iv, chunks, p, rest);
    if rest == [] {
      assert msg == p;
    }
  }

  /** Decryption under any split undoes encryption under any split. With zero padding this
      holds exactly when the message fills its blocks or does not end in a zero byte. */
  lemma RoundTrip(c: BlockCipher, pad: Padding, iv: seq<Byte>, chunks: seq<seq<Byte>>, chunks': seq<seq<Byte>>)
    requires c.Valid() && c.bs < 256 && |iv| == c.bs && pad != NoPadding
    requires Flatten(chunks') == Run(c, Encrypt, pad, iv, chunks).out
    ensures var msg := Flatten(chunks);
            var back := Run(c, Decrypt, pad, iv, chunks');
            && back.ret == 0 && back.out <= msg
            && (back.out == msg <==>
                  pad != Zeros || |msg| % c.bs == 0 || msg[|msg| - 1] != 0)
  {
    hide Whole, Kept, Unpad, PadBlock, PadMessage, CbcEnc, Run, StripZeros, Flatten, BlockCipher.Valid;
    var msg := Flatten(chunks);
    EncryptAnySplit(c, pad, iv, chunks);
    BlockSize(c);
    var k := |msg| - Kept(Encrypt, pad, |msg|, c.bs);
    var len := RecoveredLength(pad, msg, k, c.bs);
    DecryptPadded(c, pad, iv, msg[..k], PadBlock(pad, msg[k..], c.bs), chunks');
  }

  lemma BlockSize(c: BlockCipher)
    requires c.Valid()
    ensures 0 < c.bs
  {
  }

  /** How much of the message unpadding its last block leaves. */
  lemma RecoveredLength(pad: Padding, msg: seq<Byte>, k: nat, bs: nat) returns (len: nat)
    requires 0 < bs < 256 && pad != NoPadding && k == |msg| - Kept(Encrypt, pad, |msg|, bs)
    ensures |msg[k..]| < bs && Whole(k, bs) && Whole(|msg[..k] + PadBlock(pad, msg[k..], bs)|, bs)
    ensures PadMessage(pad, msg, bs) == msg[..k] + PadBlock(pad, msg[k..], bs)
    ensures Unpad(pad, PadBlock(pad, msg[k..], bs)) == Good(len) && len <= bs && k + len <= |msg|
    ensures msg[..k] + PadBlock(pad, msg[k..], bs)[..len] == msg[..k + len]
    ensures k + len == |msg| <==> pad != Zeros || |msg| % bs == 0 || msg[|msg| - 1] != 0
  {
    var held := msg[k..];
    WholeOne(bs);
    WholeSum(k, bs, bs);
    UnpadPad(pad, held, bs);
    StripsNothing(held);
    len := if pad == Zeros then StripZeros(held) else |held|;
    PadKeepsData(pad, held, bs, len);
    assert msg[..k] + held[..len] == msg[..k + len];
    assert |held| == |msg| % bs;
    if held != [] { assert held[|held| - 1] == msg[|msg| - 1]; }
  }

  lemma PadKeepsData(pad: Padding, held: seq<Byte>, bs: nat, len: nat)
    requires |held| < bs < 256 && pad != NoPadding && len <= |held|
    ensures PadBlock(pad, held, bs)[..len] == held[..len]
  {
  }

  // ---------------------------------------------------------------- the context

  /** mbedtls_aes_crypt_cbc and its like: whole blocks, iv updated in place. */
  method CbcFunc(c: BlockCipher, op: Operation, iv0: seq<Byte>, input: seq<Byte>)
    returns (iv: seq<Byte>, output: seq<Byte>)
    requires c.Valid() && |iv0| == c.bs && Whole(|input|, c.bs)
    ensures iv == IvAfter(c, op, iv0, input) && output == Crypt(c, op, iv0, input)
  {
    hide Whole, Crypt, IvAfter, XorSeq;
    BlockSize(c);
    WholeOne(c.bs);
    iv, output := iv0, [];
    var k := 0;
    CryptNothing(c, op, iv0);
    assert input[..0] == [];
    while k < |input|
      invariant 0 <= k <= |input| && Whole(k, c.bs) && Whole(|input| - k, c.bs) && |iv| == c.bs
      invariant iv == IvAfter(c, op, iv0, input[..k]) && output == Crypt(c, op, iv0, input[..k])
    {
      WholeTail(|input| - k, c.bs);
      WholeSum(k, c.bs, c.bs);
      var block := input[k..k + c.bs];
      CryptConcat(c, op, iv0, input[..k], block);
      CryptOne(c, op, iv, block);
      assert input[..k + c.bs] == input[..k] + block;
      if op == Decrypt {
        output := output + XorSeq(c.dec(block), iv);
        iv := block;
      } else {
        var y := c.enc(XorSeq(block, iv));
        output := output + y;
        iv := y;
      }
      k := k + c.bs;
    }
    assert input[..k] == input;
  }

  lemma CryptNothing(c: BlockCipher, op: Operation, iv: seq<Byte>)
    requires c.Valid() && |iv| == c.bs
    ensures Whole(0, c.bs) && Crypt(c, op, iv, []) == [] && IvAfter(c, op, iv, []) == iv
  {
    WholeOne(c.bs);
  }

  lemma CryptOne(c: BlockCipher, op: Operation, iv: seq<Byte>, block: seq<Byte>)
    requires c.Valid() && |iv| == c.bs == |block|
    ensures Whole(|block|, c.bs)
    ensures Crypt(c, op, iv, block) == if op == Encrypt then c.enc(XorSeq(block, iv)) else XorSeq(c.dec(block), iv)
    ensures IvAfter(c, op, iv, block) == if op == Encrypt then c.enc(XorSeq(block, iv)) else block
  {
    WholeOne(c.bs);
    assert block[..c.bs] == block && block[c.bs..] == [];
  }

  class CbcContext {
    const c: BlockCipher
    const op: Operation
    const pad: Padding
    var iv: seq<Byte>
    const unprocessedData: array<Byte>
    var unprocessedLen: nat

    ghost predicate Valid()
      reads this, unprocessedData
    {
      && c.Valid() && c.bs <= 16 && unprocessedData.Length == 16
      && |iv| == c.bs && unprocessedLen <= c.bs
    }

    ghost function Now(): View
      requires Valid()
      reads this, unprocessedData
    {
      View(iv, unprocessedData[..unprocessedLen])
    }

    constructor (c: BlockCipher, op: Operation, pad: Padding, iv: seq<Byte>)
      requires c.Valid() && c.bs <= 16 && |iv| == c.bs
      ensures Valid() && fresh(unprocessedData) && this.c == c && this.op == op && this.pad == pad
      ensures Now() == View(iv, []) && Settled(c, op, pad, Now())
    {
      this.c, this.op, this.pad, this.iv := c, op, pad, iv;
      unprocessedData := new Byte[16];
      unprocessedLen := 0;
      new;
      SettledStart(c, op, pad, iv);
      assert unprocessedData[..0] == [];
    }

    /** memcpy into the buffer. */
    method Store(offset: nat, src: seq<Byte>)
      requires offset + |src| <= unprocessedData.Length
      modifies unprocessedData
      ensures unprocessedData[..offset + |src|] == old(unprocessedData[..offset]) + src
    {
      forall i | 0 <= i < |src| {
        unprocessedData[offset + i] := src[i];
      }
    }

    /** Whether the input does not make up a block that may be processed. */
    predicate OnlyCached(ilen: nat)
      reads this
    {
      || (op == Decrypt && pad != NoPadding && ilen <= c.bs - unprocessedLen)
      || (op == Decrypt && pad == NoPadding && ilen < c.bs - unprocessedLen)
      || (op == Encrypt && ilen < c.bs - unprocessedLen)
    }

    /** The CBC part of mbedtls_cipher_update. */
    method Update(input: seq<Byte>) returns (output: seq<Byte>)
      requires Valid() && Settled(c, op, pad, Now())
      modifies this, unprocessedData
      ensures Valid() && Settled(c, op, pad, Now())
      ensures Step(Now(), output) == UpdateSpec(c, op, pad, old(Now()), input)
    {
      hide Whole, Kept, Crypt, IvAfter, UpdateSpec, BlockCipher.Valid;
      BlockSize(c);
      ghost var v := Now();
      UpdateTwice(c, op, pad, v, input, []);
      if OnlyCached(|input|) {
        Store(unprocessedLen, input);
        unprocessedLen := unprocessedLen + |input|;
        CachedAll(c, op, pad, v, input);
        return [];
      }
      var in' := input;
      output := [];
      ghost var first: seq<Byte> := [];
      CryptNothing(c, op, iv);
      if unprocessedLen != 0 {
        var copyLen := c.bs - unprocessedLen;
        Store(unprocessedLen, input[..copyLen]);
        first := unprocessedData[..c.bs];
        WholeOne(c.bs);
        iv, output := CbcFunc(c, op, iv, unprocessedData[..c.bs]);
        unprocessedLen := 0;
        in' := input[copyLen..];
        assert input == input[..copyLen] + input[copyLen..];
        AppendAssoc(v.held, input[..copyLen], in');
      } else {
        assert v.held == [];
      }
      assert v.held + input == first + in';
      WholeOne(c.bs);
      var out2 := Tail(in');
      output := output + out2;
      Processed(c, op, pad, v, input, first, in');
    }

    /** The CBC part of mbedtls_cipher_finish. The buffer length is left as it was. */
    method Finish() returns (ret: int, output: seq<Byte>, olen: nat)
      requires Valid() && Settled(c, op, pad, Now())
      modifies this, unprocessedData
      ensures Valid() && unprocessedLen == old(unprocessedLen)
      ensures Kept(op, pad, |old(Now()).held|, c.bs) == |old(Now()).held|
      ensures op == Encrypt ==> |old(Now()).held| < c.bs
      ensures Finished(ret, output) == FinishSpec(c, op, pad, old(Now()))
      ensures 0 < c.bs && olen == FinishLen(c, op, pad, old(Now()), |output|)
    {
      hide Whole, CbcEnc, CbcDec, PadBlock, Unpad, DataLen, BlockCipher.Valid;
      BlockSize(c);
      WholeOne(c.bs);
      ghost var v := Now();
      olen := 0;
      if op == Encrypt {
        if pad == NoPadding {
          if unprocessedLen != 0 {
            return ERR_FULL_BLOCK_EXPECTED, [], 0;
          }
          return 0, [], 0;
        }
        AddPadding(pad, unprocessedData, c.bs, unprocessedLen);
      } else if c.bs != unprocessedLen {
        if pad == NoPadding && unprocessedLen == 0 {
          return 0, [], 0;
        }
        return ERR_FULL_BLOCK_EXPECTED, [], 0;
      }
      iv, output := CbcFunc(c, op, iv, unprocessedData[..c.bs]);
      if op == Decrypt {
        UnpadWithin(pad, output);
        ret, olen := GetPadding(pad, output);
        if ret == 0 { DataLenOfGood(pad, output); }
        output := if ret == 0 then output[..olen] else [];
        return;
      }
      return 0, output, c.bs;
    }

    /** The last two steps of update: cache the end of the input, process the blocks before it. */
    method Tail(input: seq<Byte>) returns (output: seq<Byte>)
      requires Valid() && unprocessedLen == 0
      modifies this, unprocessedData
      ensures Valid()
      ensures Step(Now(), output) == UpdateSpec(c, op, pad, View(old(iv), []), input)
    {
      hide Whole, Kept, Crypt, IvAfter, BlockCipher.Valid;
      BlockSize(c);
      KeptIs(op, pad, |input|, c.bs);
      CryptNothing(c, op, iv);
      assert [] + input == input;
      output := [];
      var in' := input;
      if |in'| != 0 {
        var copyLen := |in'| % c.bs;
        if copyLen == 0 && op == Decrypt && pad != NoPadding {
          copyLen := c.bs;
        }
        assert copyLen == Kept(op, pad, |input|, c.bs);
        Store(0, in'[|in'| - copyLen..]);
        unprocessedLen := unprocessedLen + copyLen;
        in' := in'[..|in'| - copyLen];
      }
      assert in' == input[..|input| - Kept(op, pad, |input|, c.bs)];
      if |in'| != 0 {
        iv, output := CbcFunc(c, op, iv, in');
      }
    }
  }

  lemma KeptIs(op: Operation, pad: Padding, n: nat, bs: nat)
    requires 0 < bs
    ensures Kept(op, pad, n, bs) == if n == 0 then 0 else if op == Decrypt && pad != NoPadding && n % bs == 0 then bs else n % bs
  {
    if n == 0 { DivModUnique(0, bs, 0, 0); }
  }

  lemma UnpadWithin(pad: Padding, blk: seq<Byte>)
    requires |blk| > 0
    ensures Unpad(pad, blk).Good? ==> Unpad(pad, blk).len <= |blk|
  {
  }

  /** Everything pending fits the buffer: nothing is processed. */
  lemma CachedAll(c: BlockCipher, op: Operation, pad: Padding, v: View, input: seq<Byte>)
    requires c.Valid() && |v.iv| == c.bs && |v.held| + |input| <= c.bs
    requires |v.held| + |input| < c.bs || (op == Decrypt && pad != NoPadding)
    ensures UpdateSpec(c, op, pad, v, input) == Step(View(v.iv, v.held + input), [])
  {
    hide Crypt, IvAfter, UpdateSpec;
    var n := |v.held| + |input|;
    if n < c.bs { DivModUnique(n, c.bs, 0, n); } else { WholeOne(c.bs); }
    CryptNothing(c, op, v.iv);
    assert v.held + input == [] + (v.held + input);
    UpdateAt(c, op, pad, v, input, [], v.held + input);
  }

  /** After the completed buffer the rest is handled as if nothing had been held. */
  lemma Processed(c: BlockCipher, op: Operation, pad: Padding, v: View, input: seq<Byte>,
                  first: seq<Byte>, in': seq<Byte>)
    requires c.Valid() && |v.iv| == c.bs && v.held + input == first + in'
    requires Whole(|first|, c.bs) && (in' != [] || first == [] || op == Encrypt || pad == NoPadding)
    ensures var rest := UpdateSpec(c, op, pad, View(IvAfter(c, op, v.iv, first), []), in');
            UpdateSpec(c, op, pad, v, input) == Step(rest.view, Crypt(c, op, v.iv, first) + rest.out)
  {
    hide Whole, Kept, Crypt, IvAfter, UpdateSpec, BlockCipher.Valid;
    BlockSize(c);
    KeptOfTail(op, pad, |first| + |in'|, |first|, c.bs);
    var q, r := CutAt(in', |in'| - Kept(op, pad, |in'|, c.bs));
    AppendAssoc(first, q, r);
    assert [] + in' == q + r;
    SecondCrypt(c, op, pad, v, input, first, View(IvAfter(c, op, v.iv, first), []), in', q, r);
  }
}
