/** CBC-MAC, the chain under CMAC and CCM. */
module CbcMacs {
  import opened Arith
  import opened Bytes

  /** The last cipher output of CBC from y over whole blocks. */
  function CbcMac(c: BlockCipher, y: seq<Byte>, data: seq<Byte>): (r: seq<Byte>)
    requires c.Valid() && |y| == c.bs && Whole(|data|, c.bs)
    ensures |r| == c.bs
    decreases |data|
  {
    if data == [] then y
    else
      WholeTail(|data|, c.bs);
      CbcMac(c, c.enc(XorSeq(y, data[..c.bs])), data[c.bs..])
  }

  lemma MacEmpty(c: BlockCipher, y: seq<Byte>)
    requires c.Valid() && |y| == c.bs
    ensures Whole(0, c.bs) && CbcMac(c, y, []) == y
  {
    WholeOne(c.bs);
  }

  lemma MacFirst(c: BlockCipher, y: seq<Byte>, x: seq<Byte>, d: seq<Byte>)
    requires c.Valid() && |y| == c.bs == |x| && Whole(|d|, c.bs)
    ensures Whole(|x + d|, c.bs) && CbcMac(c, y, x + d) == CbcMac(c, c.enc(XorSeq(y, x)), d)
  {
    hide XorSeq, Whole;
    WholeOne(c.bs);
    WholeSum(c.bs, |d|, c.bs);
    assert (x + d)[..c.bs] == x && (x + d)[c.bs..] == d;
  }

  /** The chain over a concatenation goes through the first part. */
  lemma {:induction false} MacConcat(c: BlockCipher, y: seq<Byte>, a: seq<Byte>, b: seq<Byte>)
    requires c.Valid() && |y| == c.bs && Whole(|a|, c.bs) && Whole(|b|, c.bs)
    ensures Whole(|a + b|, c.bs) && CbcMac(c, y, a + b) == CbcMac(c, CbcMac(c, y, a), b)
    decreases |a|
  {
    hide CbcMac, XorSeq, Whole;
    if a == [] {
      assert a + b == b;
      MacEmpty(c, y);
    } else {
      WholeTail(|a|, c.bs);
      var x, a' := a[..c.bs], a[c.bs..];
      assert a == x + a';
      MacFirst(c, y, x, a');
      AppendAssoc(x, a', b);
      MacConcat(c, c.enc(XorSeq(y, x)), a', b);
      MacFirst(c, y, x, a' + b);
    }
  }

  /** One block more is one exclusive or and one encryption more; with MacEmpty this says what the chain is. */
  lemma MacSnoc(c: BlockCipher, y: seq<Byte>, d: seq<Byte>, b: seq<Byte>)
    requires c.Valid() && |y| == c.bs == |b| && Whole(|d|, c.bs)
    ensures Whole(|d + b|, c.bs) && CbcMac(c, y, d + b) == c.enc(XorSeq(CbcMac(c, y, d), b))
  {
    hide CbcMac, XorSeq, Whole;
    WholeOne(c.bs);
    MacConcat(c, y, d, b);
    var x := CbcMac(c, y, d);
    assert b + [] == b;
    MacFirst(c, x, b, []);
    MacEmpty(c, c.enc(XorSeq(x, b)));
  }
}
