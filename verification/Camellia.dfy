/** Camellia of mbedtls/library/camellia.c: the reversed key schedule inverts the cipher for any F function. */
module Camellia {
  import opened Words

  // ---------------------------------------------------------------- halves

  datatype Half = Half(a: bv32, b: bv32)

  function XorHalf(x: Half, y: Half): Half {
    Half(Xor(x.a, y.a), Xor(x.b, y.b))
  }

  lemma XorHalfCancel(x: Half, y: Half)
    ensures XorHalf(XorHalf(x, y), y) == x
  {
    hide Xor;
    XorCancel(x.a, y.a);
    XorCancel(x.b, y.b);
  }

  function MaskRotate(x: bv32, k: bv32): bv32 {
    ((x & k) << 1) | ((x & k) >> 31)
  }

  function MaskOr(x: bv32, k: bv32): bv32 {
    x | k
  }

  function FL(x: Half, k: Half): Half {
    var r := Xor(MaskRotate(x.a, k.a), x.b);
    Half(Xor(MaskOr(r, k.b), x.a), r)
  }

  function FLInv(y: Half, k: Half): Half {
    var l := Xor(MaskOr(y.b, k.b), y.a);
    Half(l, Xor(MaskRotate(l, k.a), y.b))
  }

  /** The two layers undo each other. */
  lemma FLInverse(x: Half, k: Half)
    ensures FLInv(FL(x, k), k) == x && FL(FLInv(x, k), k) == x
  {
    hide Xor, MaskRotate, MaskOr;
    var r := Xor(MaskRotate(x.a, k.a), x.b);
    XorTwice(MaskOr(r, k.b), x.a);
    XorTwice(MaskRotate(x.a, k.a), x.b);
    var l := Xor(MaskOr(x.b, k.b), x.a);
    XorTwice(MaskOr(x.b, k.b), x.a);
    XorTwice(MaskRotate(l, k.a), x.b);
  }

  lemma XorTwice(v: bv32, w: bv32)
    ensures Xor(v, Xor(v, w)) == w
  {
    hide Xor;
    XorCancel(w, v);
    XorCancel(Xor(w, v), v);
    XorCancel(v, w);
    XorCancel(v, Xor(v, w));
  }

  // ---------------------------------------------------------------- rounds

  datatype Block = Block(l: Half, r: Half)

  function Swap(x: Block): Block {
    Block(x.r, x.l)
  }

  /** camellia_feistel with round function f on x and k: z ^= f(x ^ k). */
  function Feistel(f: Half -> Half, x: Half, k: Half, z: Half): Half {
    XorHalf(z, f(XorHalf(x, k)))
  }

  /** Two rounds. */
  function TwoRounds(f: Half -> Half, k: Half, k': Half, x: Block): Block {
    var r := Feistel(f, x.l, k, x.r);
    Block(Feistel(f, r, k', x.l), r)
  }

  /** The FL and FLInv layer. */
  function Layer(k: Half, k': Half, x: Block): Block {
    Block(FL(x.l, k), FLInv(x.r, k'))
  }

  /** Step t of the cipher body: two rounds, and a layer after every three of them. */
  function Step(f: Half -> Half, t: nat, k: Half, k': Half, x: Block): Block {
    if t % 4 == 3 then Layer(k, k', x) else TwoRounds(f, k, k', x)
  }

  function Steps(f: Half -> Half, ks: seq<Half>, n: nat, x: Block): Block
    requires 2 * n <= |ks|
    decreases n
  {
    if n == 0 then x else Step(f, n - 1, ks[2 * n - 2], ks[2 * n - 1], Steps(f, ks, n - 1, x))
  }

  /** A step with its two subkeys exchanged, on the exchanged halves, undoes the step. */
  lemma StepInverse(f: Half -> Half, t: nat, t': nat, k: Half, k': Half, x: Block)
    requires t % 4 == 3 <==> t' % 4 == 3
    ensures Step(f, t', k', k, Swap(Step(f, t, k, k', x))) == Swap(x)
  {
    hide XorHalf, FL, FLInv;
    if t % 4 == 3 {
      FLInverse(x.l, k);
      FLInverse(x.r, k');
    } else {
      var r := Feistel(f, x.l, k, x.r);
      XorHalfCancel(x.l, f(XorHalf(r, k')));
      XorHalfCancel(x.r, f(XorHalf(x.l, k)));
    }
  }

  ghost predicate Reversed(ks': seq<Half>, ks: seq<Half>) {
    |ks'| == |ks| && forall i :: 0 <= i < |ks| ==> ks'[i] == ks[|ks| - 1 - i]
  }

  /** With the subkeys reversed the body runs backwards. */
  lemma {:induction false} StepsInverse(f: Half -> Half, nr: nat, ks: seq<Half>, ks': seq<Half>, n: nat, x: Block)
    requires 0 < nr && |ks| == 8 * nr - 2 && Reversed(ks', ks) && n <= 4 * nr - 1
    ensures Steps(f, ks', n, Swap(Steps(f, ks, 4 * nr - 1, x))) == Swap(Steps(f, ks, 4 * nr - 1 - n, x))
    decreases n
  {
    hide Step, Swap, Steps;
    if n == 0 {
      StepsNothing(f, ks', Swap(Steps(f, ks, 4 * nr - 1, x)));
    } else {
      StepsInverse(f, nr, ks, ks', n - 1, x);
      var t := 4 * nr - 1 - n;
      SameKind(nr, t, n - 1);
      var y := Steps(f, ks, t, x);
      StepsNext(f, ks, t, x);
      StepsNext(f, ks', n - 1, Swap(Steps(f, ks, 4 * nr - 1, x)));
      StepInverse(f, t, n - 1, ks[2 * t], ks[2 * t + 1], y);
      assert ks'[2 * n - 2] == ks[2 * t + 1] && ks'[2 * n - 1] == ks[2 * t];
    }
  }

  lemma StepsNothing(f: Half -> Half, ks: seq<Half>, x: Block)
    ensures Steps(f, ks, 0, x) == x
  {
  }

  lemma StepsNext(f: Half -> Half, ks: seq<Half>, n: nat, x: Block)
    requires 2 * n + 2 <= |ks|
    ensures Steps(f, ks, n + 1, x) == Step(f, n, ks[2 * n], ks[2 * n + 1], Steps(f, ks, n, x))
  {
  }

  /** The pattern of rounds and layers reads the same backwards. */
  lemma SameKind(nr: nat, t: nat, t': nat)
    requires 0 < nr && t + t' == 4 * nr - 2
    ensures t % 4 == 3 <==> t' % 4 == 3
  {
  }

  // ---------------------------------------------------------------- blocks

  function Pair(rk: seq<bv32>, i: nat): Half
    requires 2 * i + 2 <= |rk|
  {
    Half(rk[2 * i], rk[2 * i + 1])
  }

  /** The subkeys between the two whitenings. */
  function BodyKeys(rk: seq<bv32>, nr: nat): (ks: seq<Half>)
    requires 0 < nr && |rk| == 16 * nr + 4
    ensures |ks| == 8 * nr - 2
  {
    seq(8 * nr - 2, i requires 0 <= i < 8 * nr - 2 => Pair(rk, i + 2))
  }

  function Whiten(x: Block, k: Half, k': Half): Block {
    Block(XorHalf(x.l, k), XorHalf(x.r, k'))
  }

  /** The whole cipher: the halves leave exchanged. */
  function Crypt(f: Half -> Half, nr: nat, rk: seq<bv32>, x: Block): Block
    requires 0 < nr && |rk| == 16 * nr + 4
  {
    var y := Steps(f, BodyKeys(rk, nr), 4 * nr - 1, Whiten(x, Pair(rk, 0), Pair(rk, 1)));
    Whiten(Swap(y), Pair(rk, 8 * nr), Pair(rk, 8 * nr + 1))
  }

  /** The schedule of setkey_dec: whitening keys exchanged, subkeys in reverse. */
  ghost predicate IsDecSchedule(dk: seq<bv32>, rk: seq<bv32>, nr: nat)
    requires 0 < nr && |rk| == 16 * nr + 4
  {
    && |dk| == 16 * nr + 4
    && Pair(dk, 0) == Pair(rk, 8 * nr) && Pair(dk, 1) == Pair(rk, 8 * nr + 1)
    && Pair(dk, 8 * nr) == Pair(rk, 0) && Pair(dk, 8 * nr + 1) == Pair(rk, 1)
    && forall i: nat :: 2 <= i < 8 * nr ==> Pair(dk, i) == Pair(rk, 8 * nr + 1 - i)
  }

  /** Section 2.3.3 of RFC 3713: decryption is encryption with the subkeys reversed. */
  lemma DecryptUndoesEncrypt(f: Half -> Half, nr: nat, rk: seq<bv32>, dk: seq<bv32>, x: Block)
    requires 0 < nr && |rk| == 16 * nr + 4 && IsDecSchedule(dk, rk, nr)
    ensures Crypt(f, nr, dk, Crypt(f, nr, rk, x)) == x
  {
    hide Pair, XorHalf, Steps;
    var ks, ks' := BodyKeys(rk, nr), BodyKeys(dk, nr);
    assert Reversed(ks', ks);
    var x1 := Whiten(x, Pair(rk, 0), Pair(rk, 1));
    var y := Steps(f, ks, 4 * nr - 1, x1);
    WhitenTwice(Swap(y), Pair(rk, 8 * nr), Pair(rk, 8 * nr + 1));
    StepsInverse(f, nr, ks, ks', 4 * nr - 1, x1);
    StepsNothing(f, ks, x1);
    WhitenTwice(x, Pair(rk, 0), Pair(rk, 1));
  }

  lemma WhitenTwice(x: Block, k: Half, k': Half)
    ensures Whiten(Whiten(x, k, k'), k, k') == x
  {
    hide XorHalf;
    XorHalfCancel(x.l, k);
    XorHalfCancel(x.r, k');
  }

  /** The layer word by word: section 2.4.2 of RFC 3713. */
  lemma FLIs(x: Half, k: Half)
    ensures var y := FL(x, k);
            y.b == Xor(((x.a & k.a) << 1) | ((x.a & k.a) >> 31), x.b) && y.a == Xor(y.b | k.b, x.a)
    ensures var z := FLInv(x, k);
            z.a == Xor(x.b | k.b, x.a) && z.b == Xor(((z.a & k.a) << 1) | ((z.a & k.a) >> 31), x.b)
  {
    hide Xor, MaskRotate, MaskOr;
    var y, z := FL(x, k), FLInv(x, k);
    MaskRaw(x.a, k.a);
    MaskRaw(z.a, k.a);
    MaskRaw(y.b, k.b);
    MaskRaw(x.b, k.b);
  }

  lemma MaskRaw(x: bv32, k: bv32)
    ensures MaskRotate(x, k) == ((x & k) << 1) | ((x & k) >> 31) && MaskOr(x, k) == x | k
  {
  }

  /** The cipher step by step, in the words of the schedule: whitening, */
  lemma CryptEnds(f: Half -> Half, nr: nat, rk: seq<bv32>, x: Block)
    requires 0 < nr && |rk| == 16 * nr + 4
    ensures var x0 := Block(Half(Xor(x.l.a, rk[0]), Xor(x.l.b, rk[1])), Half(Xor(x.r.a, rk[2]), Xor(x.r.b, rk[3])));
            var y := Steps(f, BodyKeys(rk, nr), 4 * nr - 1, x0);
            Crypt(f, nr, rk, x) == Block(
              Half(Xor(y.r.a, rk[16 * nr]), Xor(y.r.b, rk[16 * nr + 1])),
              Half(Xor(y.l.a, rk[16 * nr + 2]), Xor(y.l.b, rk[16 * nr + 3])))
  {
    hide Xor, Steps, BodyKeys;
  }

  /** and two rounds a step, with FL and FLInv in place of every fourth. */
  lemma CryptStep(f: Half -> Half, nr: nat, rk: seq<bv32>, t: nat, x0: Block)
    requires t < 4 * nr - 1 && |rk| == 16 * nr + 4
    ensures var x, y := Steps(f, BodyKeys(rk, nr), t, x0), Steps(f, BodyKeys(rk, nr), t + 1, x0);
            var k, k' := Half(rk[4 * t + 4], rk[4 * t + 5]), Half(rk[4 * t + 6], rk[4 * t + 7]);
            && (t % 4 == 3 ==> y.l == FL(x.l, k) && y.r == FLInv(x.r, k'))
            && (t % 4 != 3 ==>
                 var u := f(Half(Xor(x.l.a, k.a), Xor(x.l.b, k.b)));
                 var v := f(Half(Xor(y.r.a, k'.a), Xor(y.r.b, k'.b)));
                 && y.r == Half(Xor(x.r.a, u.a), Xor(x.r.b, u.b))
                 && y.l == Half(Xor(x.l.a, v.a), Xor(x.l.b, v.b)))
  {
    hide Xor, Steps, BodyKeys, FL, FLInv;
    BodyRounds(f, nr, rk, t, x0);
  }

  // ---------------------------------------------------------------- mbedtls_camellia_setkey_dec

  /** The first n pairs of the decryption schedule. */
  ghost predicate DecPrefix(dk: seq<bv32>, rk: seq<bv32>, nr: nat, n: nat)
    requires 0 < nr && |rk| == 16 * nr + 4
  {
    && 2 <= n <= 8 * nr && |dk| == 2 * n
    && Pair(dk, 0) == Pair(rk, 8 * nr) && Pair(dk, 1) == Pair(rk, 8 * nr + 1)
    && forall i: nat :: 2 <= i < n ==> Pair(dk, i) == Pair(rk, 8 * nr + 1 - i)
  }

  lemma PairKept(dk: seq<bv32>, i: nat, tail: seq<bv32>)
    requires 2 * i + 2 <= |dk|
    ensures Pair(dk + tail, i) == Pair(dk, i)
  {
  }

  lemma DecPrefixNext(dk: seq<bv32>, rk: seq<bv32>, nr: nat, n: nat)
    requires 0 < nr && |rk| == 16 * nr + 4 && DecPrefix(dk, rk, nr, n) && n < 8 * nr
    ensures var k := Pair(rk, 8 * nr + 1 - n); DecPrefix(dk + [k.a, k.b], rk, nr, n + 1)
  {
    var k := Pair(rk, 8 * nr + 1 - n);
    var dk' := dk + [k.a, k.b];
    forall i: nat | i < n ensures Pair(dk', i) == Pair(dk, i) { PairKept(dk, i, [k.a, k.b]); }
    assert Pair(dk', n) == k;
  }

  lemma DecPrefixEnd(dk: seq<bv32>, rk: seq<bv32>, nr: nat)
    requires 0 < nr && |rk| == 16 * nr + 4 && DecPrefix(dk, rk, nr, 8 * nr)
    ensures IsDecSchedule(dk + [rk[0], rk[1], rk[2], rk[3]], rk, nr)
  {
    var tail := [rk[0], rk[1], rk[2], rk[3]];
    var dk' := dk + tail;
    forall i: nat | i < 8 * nr ensures Pair(dk', i) == Pair(dk, i) { PairKept(dk, i, tail); }
    assert Pair(dk', 8 * nr) == Pair(rk, 0) && Pair(dk', 8 * nr + 1) == Pair(rk, 1);
  }

  /** The copying part of setkey_dec; sk is the encryption schedule of a context with nr groups of rounds. */
  method ReverseKeys(nr: nat, sk: seq<bv32>) returns (rk: seq<bv32>)
    requires (nr == 3 || nr == 4) && |sk| == 16 * nr + 4
    ensures IsDecSchedule(rk, sk, nr)
  {
    hide DecPrefix, Pair, IsDecSchedule;
    var idx := if nr == 4 then 1 else 0;
    var at := 24 * 2 + 8 * idx * 2;
    rk := [sk[at], sk[at + 1], sk[at + 2], sk[at + 3]];
    DecPrefixStart(rk, sk, nr);
    at := at + 4;
    var i := 22 + 8 * idx;
    at := at - 6;
    while i > 0
      invariant 0 <= i <= 8 * nr - 2 && at == 2 * i + 2
      invariant DecPrefix(rk, sk, nr, 8 * nr - i)
    {
      DecPrefixNext(rk, sk, nr, 8 * nr - i);
      PairIs(sk, i + 1);
      rk := rk + [sk[at], sk[at + 1]];
      at := at + 2;
      i := i - 1;
      at := at - 4;
    }
    at := at - 2;
    DecPrefixEnd(rk, sk, nr);
    rk := rk + [sk[at], sk[at + 1], sk[at + 2], sk[at + 3]];
  }

  lemma PairIs(rk: seq<bv32>, i: nat)
    requires 2 * i + 2 <= |rk|
    ensures Pair(rk, i) == Half(rk[2 * i], rk[2 * i + 1])
  {
  }

  lemma DecPrefixStart(dk: seq<bv32>, rk: seq<bv32>, nr: nat)
    requires 0 < nr && |rk| == 16 * nr + 4 && dk == [rk[16 * nr], rk[16 * nr + 1], rk[16 * nr + 2], rk[16 * nr + 3]]
    ensures DecPrefix(dk, rk, nr, 2)
  {
  }

  // ---------------------------------------------------------------- mbedtls_camellia_crypt_ecb

  lemma BodyRounds(f: Half -> Half, nr: nat, rk: seq<bv32>, t: nat, start: Block)
    requires t < 4 * nr - 1 && |rk| == 16 * nr + 4
    ensures var ks := BodyKeys(rk, nr);
            Steps(f, ks, t + 1, start) == Step(f, t, Pair(rk, 2 * t + 2), Pair(rk, 2 * t + 3), Steps(f, ks, t, start))
  {
    hide Step, Pair;
  }

  /** camellia_feistel twice, into the right half and into the left half. */
  method Rounds(f: Half -> Half, x0: Block, k: Half, k': Half) returns (x: Block)
    ensures x == TwoRounds(f, k, k', x0)
  {
    hide XorHalf;
    x := x0.(r := Feistel(f, x0.l, k, x0.r));
    x := x.(l := Feistel(f, x.r, k', x.l));
  }

  /** Six rounds. */
  method SixRounds(f: Half -> Half, nr: nat, rk: seq<bv32>, g: nat, x0: Block, ghost start: Block) returns (x: Block)
    requires g < nr && |rk| == 16 * nr + 4 && x0 == Steps(f, BodyKeys(rk, nr), 4 * g, start)
    ensures x == Steps(f, BodyKeys(rk, nr), 4 * g + 3, start)
  {
    hide Pair, TwoRounds, Steps, BodyKeys;
    var at := 8 * g + 2;
    x := Rounds(f, x0, Pair(rk, at), Pair(rk, at + 1));
    x := Rounds(f, x, Pair(rk, at + 2), Pair(rk, at + 3));
    x := Rounds(f, x, Pair(rk, at + 4), Pair(rk, at + 5));
    BodyRounds(f, nr, rk, 4 * g, start);
    BodyRounds(f, nr, rk, 4 * g + 1, start);
    BodyRounds(f, nr, rk, 4 * g + 2, start);
  }

  /** mbedtls_camellia_crypt_ecb on words: groups of six rounds with FL layers between them. */
  method CryptBlock(f: Half -> Half, nr0: nat, rk: seq<bv32>, x0: Block) returns (out: Block)
    requires 0 < nr0 && |rk| == 16 * nr0 + 4
    ensures out == Crypt(f, nr0, rk, x0)
  {
    hide Pair, FL, FLInv, Whiten, Steps, BodyKeys;
    var x := Whiten(x0, Pair(rk, 0), Pair(rk, 1));
    ghost var ks, start := BodyKeys(rk, nr0), x;
    StepsNothing(f, ks, x);
    var nr := nr0;
    while nr > 0
      invariant 0 <= nr <= nr0
      invariant x == Steps(f, ks, if nr > 0 then 4 * (nr0 - nr) else 4 * nr0 - 1, start)
    {
      var g := nr0 - nr;
      nr := nr - 1;
      x := SixRounds(f, nr0, rk, g, x, start);
      if nr > 0 {
        BodyRounds(f, nr0, rk, 4 * g + 3, start);
        x := x.(l := FL(x.l, Pair(rk, 8 * g + 8)));
        x := x.(r := FLInv(x.r, Pair(rk, 8 * g + 9)));
      }
    }
    out := Whiten(Swap(x), Pair(rk, 8 * nr0), Pair(rk, 8 * nr0 + 1));
  }
}
