/** Sliding-window modular exponentiation of mbedtls/library/bignum.c. */
module ExpMod {
  import opened Arith
  import opened Limbs
  import opened Mpis
  import opened MpiShift
  import opened MpiAdd
  import opened MpiDiv
  import opened Montgomery
  import NumberTheory

  const ERR_BAD_INPUT_DATA: int := -0x0004

  // ---------------------------------------------------------------- Montgomery form

  /** x is the reduced Montgomery form of v: v * R mod nv. */
  ghost predicate IsMont(x: nat, v: int, nv: nat, n: nat) {
    0 < nv && x < nv && Cong(x, v * BPow(n), nv)
  }

  lemma MontProduct(x: nat, v: int, y: nat, w: int, r: nat, nv: nat, n: nat)
    requires IsMont(x, v, nv, n) && IsMont(y, w, nv, n) && nv % 2 == 1
    requires r < nv && Cong(r * BPow(n), x * y, nv)
    ensures IsMont(r, v * w, nv, n)
  {
    hide Cong, BPow, Pow2;
    var R := BPow(n);
    CongMul(x, v * R, y, w * R, nv);
    CongTrans(r * R, x * y, v * R * (w * R), nv);
    assert v * R * (w * R) == v * w * R * R by { MulShuffle(v, R, w, R); MulAssoc(v * w, R, R); }
    BPowIsPow2(n);
    CongCancelPow2(r, v * w * R, 64 * n, nv);
  }

  lemma MontOut(x: nat, v: int, r: nat, nv: nat, n: nat)
    requires IsMont(x, v, nv, n) && nv % 2 == 1 && r < nv && Cong(r * BPow(n), x, nv)
    ensures r == v % nv
  {
    hide Cong, BPow, Pow2;
    CongTrans(r * BPow(n), x, v * BPow(n), nv);
    BPowIsPow2(n);
    CongCancelPow2(r, v, 64 * n, nv);
    CongResidue(r, v, nv);
  }

  /** Multiplying by R^2 mod nv enters Montgomery form. */
  lemma MontIn(a: nat, rr: nat, r: nat, nv: nat, n: nat)
    requires 0 < nv && nv % 2 == 1 && rr == BPow(2 * n) % nv && r < nv && Cong(r * BPow(n), a * rr, nv)
    ensures IsMont(r, a, nv, n)
  {
    CongMod(BPow(2 * n), nv);
    hide Cong, BPow, Pow2;
    var R := BPow(n);
    CongRefl(a, nv);
    CongMul(a, a, rr, BPow(2 * n), nv);
    CongTrans(r * R, a * rr, a * BPow(2 * n), nv);
    BPowAdd(n, n);
    MulAssoc(a, R, R);
    BPowIsPow2(n);
    CongCancelPow2(r, a * R, 64 * n, nv);
  }

  /** Montgomery form does not depend on the representative. */
  lemma MontRepresentative(x: nat, v: int, w: int, nv: nat, n: nat)
    requires IsMont(x, v, nv, n) && Cong(v, w, nv)
    ensures IsMont(x, w, nv, n)
  {
    hide BPow, Cong;
    CongRefl(BPow(n), nv);
    CongMul(v, w, BPow(n), BPow(n), nv);
    CongTrans(x, v * BPow(n), w * BPow(n), nv);
  }

  // ---------------------------------------------------------------- the bits of the exponent

  lemma HalvesAgain(v: nat, h: nat)
    requires 0 < h
    ensures v / h == 2 * (v / (2 * h)) + v / h % 2
  {
    DivDiv(v, h, 2);
  }

  /** Bit number bs of limb nb, on top of the higher bits, is the next prefix of the exponent. */
  lemma NextBit(e: seq<Limb>, nb: nat, bs: nat)
    requires nb < |e| && bs < BIL
    ensures Val(e[nb..]) / Pow2(bs) == 2 * (Val(e[nb..]) / Pow2(bs + 1)) + e[nb] / Pow2(bs) % 2
  {
    hide Val, Pow2;
    var h := Pow2(bs);
    Pow2Succ(bs);
    HalvesAgain(Val(e[nb..]), h);
    ValCons(e[nb..]);
    Pow2Bil();
    Pow2Add(bs, BIL - bs);
    Pow2Succ(BIL - bs - 1);
    BitOfSum(e[nb], Val(e[nb..][1..]), h, Pow2(BIL - bs - 1));
  }

  lemma BitOfSum(x: nat, hi: nat, h: nat, g: nat)
    requires 0 < h && h * (2 * g) == B
    ensures (x + B * hi) / h % 2 == x / h % 2
  {
    var q, r := x / h, x % h;
    assert B * hi == h * (2 * (g * hi)) by { MulAssoc(h, 2 * g, hi); MulAssoc(2, g, hi); }
    assert x + B * hi == h * (q + 2 * (g * hi)) + r;
    DivModUnique(x + B * hi, h, q + 2 * (g * hi), r);
  }

  /** A fresh limb: its 64 bits are below the prefix. */
  lemma NextLimb(e: seq<Limb>, nb: nat)
    requires nb < |e|
    ensures Val(e[nb..]) / Pow2(BIL) == Val(e[nb + 1..])
  {
    hide Val, Pow2;
    ValCons(e[nb..]);
    assert e[nb..][1..] == e[nb + 1..];
    Pow2Bil();
    DivModUnique(Val(e[nb..]), B, Val(e[nb + 1..]), e[nb]);
  }

  // ---------------------------------------------------------------- the window automaton

  /** P is the prefix of the exponent read so far, D the part of it already in X.
      State 0: only zero bits so far. State 1: between windows. State 2: in a window that
      began with a one bit; its nbits bits sit at the top of wbits. */
  ghost predicate Window(P: nat, D: nat, state: int, nbits: nat, wbits: nat, wsize: nat) {
    && nbits < wsize
    && (state == 0 || state == 1 ==> nbits == 0 && wbits == 0 && P == D)
    && (state == 0 ==> P == 0)
    && (state == 1 || state == 2 || state == 0)
    && (state == 2 ==>
          && 0 < nbits
          && Divides(Pow2(wsize - nbits), wbits)
          && Pow2(nbits - 1) <= wbits / Pow2(wsize - nbits) < Pow2(nbits)
          && P == D * Pow2(nbits) + wbits / Pow2(wsize - nbits))
  }

  /** The bits collected in an unfinished or just completed window. */
  ghost predicate Collected(w: nat, nbits: nat, wbits: nat, wsize: nat) {
    0 < nbits <= wsize && wbits == w * Pow2(wsize - nbits) && Pow2(nbits - 1) <= w < Pow2(nbits)
  }

  /** Adding one bit to the window. */
  lemma CollectBit(P: nat, D: nat, state: int, nbits: nat, wbits: nat, wsize: nat, ei: nat)
    requires Window(P, D, state, nbits, wbits, wsize) && ei <= 1 && (ei == 1 || state == 2)
    ensures var w := (if state == 2 then 2 * (wbits / Pow2(wsize - nbits)) else 0) + ei;
            && Collected(w, nbits + 1, BitOr(wbits, ei * Pow2(wsize - (nbits + 1))), wsize)
            && 2 * P + ei == D * Pow2(nbits + 1) + w
  {
    hide Pow2, BitOr;
    var h := Pow2(wsize - nbits - 1);
    Pow2Succ(wsize - nbits - 1);
    Pow2Succ(nbits);
    Pow2Succ(0);
    if state == 2 {
      var w := wbits / Pow2(wsize - nbits);
      Pow2Succ(nbits - 1);
      assert wbits == 2 * h * w;
      BitOrDisjoint(wbits, ei * h, wsize - nbits);
      assert (2 * w + ei) * h == 2 * h * w + ei * h;
      assert 2 * (D * Pow2(nbits)) == D * (2 * Pow2(nbits));
    } else {
      BitOrZero(h);
      assert D * (2 * 1) == 2 * D;
    }
  }

  /** An unfinished window is state 2. */
  lemma StayInWindow(P: nat, D: nat, w: nat, nbits: nat, wbits: nat, wsize: nat)
    requires Collected(w, nbits, wbits, wsize) && nbits < wsize && P == D * Pow2(nbits) + w
    ensures Window(P, D, 2, nbits, wbits, wsize)
  {
    hide Pow2;
    assert wbits == Pow2(wsize - nbits) * w;
    DivModUnique(wbits, Pow2(wsize - nbits), w, 0);
  }

  /** A completed window indexes the precomputed upper half of the table. */
  lemma CompletedIndex(w: nat, wbits: nat, wsize: nat)
    requires Collected(w, wsize, wbits, wsize)
    ensures wbits == w && Pow2(wsize - 1) <= wbits < Pow2(wsize)
  {
    Pow2Succ(0);
  }

  // ---------------------------------------------------------------- powers in Montgomery form

  ghost predicate Ready(N: Mpi, mm: Limb, T: Mpi)
    reads N, T
  {
    N != T && MontModulus(N.p, mm) && 2 * (|N.p| + 1) <= |T.p|
  }

  /** M holds a^d in Montgomery form, in a buffer as long as the modulus. */
  ghost predicate Holds(M: Mpi, a: int, d: nat, N: Mpi)
    reads M, N
  {
    0 < |N.p| <= |M.p| && M.s == 1 && IsMont(Val(M.p), Pow(a, d), Val(N.p), |N.p|)
  }

  lemma HoldsBounds(M: Mpi, a: int, d: nat, N: Mpi)
    requires Holds(M, a, d, N)
    ensures Val(M.p) < Val(N.p) < BPow(|N.p|) && 0 < |N.p| <= |M.p|
  {
    ValBound(N.p);
  }

  lemma HoldsProduct(M: Mpi, a: int, d: nat, k: nat, N: Mpi, x: nat, y: nat)
    requires 0 < |N.p| <= |M.p| && M.s == 1 && Val(N.p) % 2 == 1 && Val(M.p) < Val(N.p)
    requires IsMont(x, Pow(a, d), Val(N.p), |N.p|) && IsMont(y, Pow(a, k), Val(N.p), |N.p|)
    requires Cong(Val(M.p) * BPow(|N.p|), x * y, Val(N.p))
    ensures Holds(M, a, d + k, N)
  {
    hide Val, BPow, Cong;
    PowAdd(a, d, k);
    MontProduct(x, Pow(a, d), y, Pow(a, k), Val(M.p), Val(N.p), |N.p|);
  }

  /** X := X * D in Montgomery form; D may be X. */
  method Times(X: Mpi, D: Mpi, N: Mpi, mm: Limb, T: Mpi, ghost a: int, ghost d: nat, ghost k: nat)
    requires X != N && T != X && T != D && Ready(N, mm, T) && Holds(X, a, d, N) && Holds(D, a, k, N)
    modifies X, T
    ensures Holds(X, a, d + k, N) && |T.p| == |old(T.p)| && |X.p| == |old(X.p)|
  {
    HoldsBounds(X, a, d, N);
    HoldsBounds(D, a, k, N);
    ghost var x, y := Val(X.p), Val(D.p);
    ModulusPositive(N.p, mm);
    MontMul(X, D, N, mm, T);
    HoldsProduct(X, a, d, k, N, x, y);
  }

  /** X := X^(2^count) in Montgomery form. */
  method SquareRepeatedly(X: Mpi, N: Mpi, mm: Limb, T: Mpi, count: nat, ghost a: int, ghost d: nat)
    requires X != N && T != X && Ready(N, mm, T) && Holds(X, a, d, N)
    modifies X, T
    ensures Holds(X, a, d * Pow2(count), N) && |T.p| == |old(T.p)| && |X.p| == |old(X.p)|
  {
    hide Holds;
    Pow2Succ(0);
    for i := 0 to count
      invariant Holds(X, a, d * Pow2(i), N) && |T.p| == |old(T.p)| && |X.p| == |old(X.p)|
    {
      Pow2Succ(i);
      assert d * Pow2(i) + d * Pow2(i) == d * Pow2(i + 1) by { assert d * (2 * Pow2(i)) == 2 * (d * Pow2(i)); }
      Times(X, X, N, mm, T, a, d * Pow2(i), d * Pow2(i));
    }
  }

  // ---------------------------------------------------------------- the table of odd and even powers

  /** The table entries the code fills: W[1] and the upper half. */
  predicate Filled(k: nat, wsize: nat)
    requires 0 < wsize
  {
    k == 1 || Pow2(wsize - 1) <= k < Pow2(wsize)
  }

  ghost predicate Distinct(W: seq<Mpi>) {
    forall i, j :: 0 <= i < j < |W| ==> W[i] != W[j]
  }

  ghost predicate TableOk(W: seq<Mpi>, a: int, N: Mpi, wsize: nat)
    requires 0 < wsize
    reads W, N
  {
    |W| == Pow2(wsize) && forall k :: 0 <= k < |W| && Filled(k, wsize) ==> Holds(W[k], a, k, N)
  }

  method NewTable(count: nat) returns (W: seq<Mpi>)
    ensures |W| == count && Distinct(W)
    ensures forall k :: 0 <= k < |W| ==> fresh(W[k]) && W[k].s == 1 && W[k].p == []
  {
    W := [];
    for i := 0 to count
      invariant |W| == i && Distinct(W)
      invariant forall k :: 0 <= k < |W| ==> fresh(W[k]) && W[k].s == 1 && W[k].p == []
    {
      var M := new Mpi();
      W := W + [M];
    }
  }

  /** W[i] := copy of W[h], in a buffer of n + 1 limbs. */
  method CopyEntry(M: Mpi, S: Mpi, N: Mpi, ghost a: int, ghost d: nat)
    requires M != S && M != N && Holds(S, a, d, N) && M.Ok()
    modifies M
    ensures Holds(M, a, d, N)
  {
    hide Val, BPow;
    Grow(M, |N.p| + 1);
    Copy(M, S);
  }

  /** Fills the upper half of the table from W[1]. */
  method FillTable(W: seq<Mpi>, N: Mpi, mm: Limb, T: Mpi, wsize: nat, ghost a: int)
    requires 0 < wsize && |W| == Pow2(wsize) && Distinct(W) && Ready(N, mm, T)
    requires |W| > 1 && forall k :: 0 <= k < |W| ==> W[k] != N && W[k] != T && W[k].Ok()
    requires Holds(W[1], a, 1, N)
    modifies W, T
    ensures TableOk(W, a, N, wsize) && |T.p| == |old(T.p)|
  {
    hide Holds, Pow2;
    Pow2Succ(wsize - 1);
    Pow2Succ(0);
    if wsize > 1 {
      Pow2Succ(wsize - 2);
      var j := Pow2(wsize - 1);
      CopyEntry(W[j], W[1], N, a, 1);
      SquareRepeatedly(W[j], N, mm, T, wsize - 1, a, 1);
      var i := j + 1;
      while i < Pow2(wsize)
        invariant j < i <= Pow2(wsize)
        invariant Holds(W[1], a, 1, N)
        invariant forall k :: j <= k < i ==> Holds(W[k], a, k, N)
        invariant forall k :: i <= k < |W| ==> W[k].Ok()
        invariant Ready(N, mm, T) && |T.p| == |old(T.p)|
      {
        CopyEntry(W[i], W[i - 1], N, a, i - 1);
        Times(W[i], W[1], N, mm, T, a, i - 1, 1);
        i := i + 1;
      }
    }
  }

  // ---------------------------------------------------------------- the window loop

  /** One bit of the exponent: the body of the main loop after the bit has been read. */
  method WindowBit(X: Mpi, W: seq<Mpi>, N: Mpi, mm: Limb, T: Mpi, wsize: nat, ei: nat,
                   state0: int, nbits0: nat, wbits0: nat, ghost a: int, ghost P: nat, ghost D0: nat)
    returns (state: int, nbits: nat, wbits: nat, ghost D: nat)
    requires 0 < wsize && ei <= 1 && Window(P, D0, state0, nbits0, wbits0, wsize)
    requires X != N && T != X && X !in W && T !in W && Ready(N, mm, T)
    requires Holds(X, a, D0, N) && TableOk(W, a, N, wsize)
    modifies X, T
    ensures Holds(X, a, D, N) && TableOk(W, a, N, wsize)
    ensures |T.p| == |old(T.p)| && |X.p| == |old(X.p)|
    ensures Window(2 * P + ei, D, state, nbits, wbits, wsize)
  {
    hide Holds, Window, Collected, Pow2, BitOr, TableOk;
    state, nbits, wbits, D := state0, nbits0, wbits0, D0;
    OutsideWindow(P, D, state, nbits, wbits, wsize);
    if ei == 0 && state == 0 {
      return;
    }
    if ei == 0 && state == 1 {
      Times(X, X, N, mm, T, a, D, D);
      D := 2 * D;
      return;
    }
    ghost var w := (if state == 2 then 2 * (wbits / Pow2(wsize - nbits)) else 0) + ei;
    CollectBit(P, D, state, nbits, wbits, wsize, ei);
    state := 2;
    nbits := nbits + 1;
    wbits := BitOr(wbits, ei * Pow2(wsize - nbits));
    if nbits == wsize {
      CompletedIndex(w, wbits, wsize);
      TableEntry(W, a, N, wsize, wbits);
      SquareRepeatedly(X, N, mm, T, wsize, a, D);
      Times(X, W[wbits], N, mm, T, a, D * Pow2(wsize), wbits);
      D := 2 * P + ei;
      state := 1;
      nbits := 0;
      wbits := 0;
      BetweenWindows(D, wsize);
    } else {
      StayInWindow(2 * P + ei, D, w, nbits, wbits, wsize);
    }
  }

  /** Outside a window a zero bit doubles the prefix and changes nothing else. */
  lemma OutsideWindow(P: nat, D: nat, state: int, nbits: nat, wbits: nat, wsize: nat)
    requires Window(P, D, state, nbits, wbits, wsize)
    ensures nbits < wsize && state in {0, 1, 2}
    ensures state == 0 ==> 2 * P == P == D && Window(2 * P, D, state, nbits, wbits, wsize)
    ensures state == 1 ==> Window(2 * P, 2 * D, state, nbits, wbits, wsize)
  {
  }

  lemma TableEntry(W: seq<Mpi>, a: int, N: Mpi, wsize: nat, k: nat)
    requires 0 < wsize && TableOk(W, a, N, wsize) && Pow2(wsize - 1) <= k < Pow2(wsize)
    ensures k < |W| && Holds(W[k], a, k, N)
  {
    assert Filled(k, wsize);
  }

  lemma BetweenWindows(D: nat, wsize: nat)
    requires 0 < wsize
    ensures Window(D, D, 1, 0, 0, wsize)
  {
  }

  /** The main loop: reads the exponent from its top bit and leaves the last, unfinished window. */
  method WindowLoop(X: Mpi, W: seq<Mpi>, e: seq<Limb>, N: Mpi, mm: Limb, T: Mpi, wsize: nat, ghost a: int)
    returns (state: int, nbits: nat, wbits: nat, ghost D: nat)
    requires 0 < wsize && X != N && T != X && X !in W && T !in W && Ready(N, mm, T)
    requires Holds(X, a, 0, N) && TableOk(W, a, N, wsize)
    modifies X, T
    ensures Holds(X, a, D, N) && TableOk(W, a, N, wsize)
    ensures |T.p| == |old(T.p)| && |X.p| == |old(X.p)|
    ensures Window(Val(e), D, state, nbits, wbits, wsize)
  {
    hide Holds, TableOk, Pow2, Val;
    var nblimbs, bufsize := |e|, 0;
    state, nbits, wbits, D := 0, 0, 0, 0;
    ghost var P := 0;
    Pow2Succ(0);
    ValEmpty();
    assert e[nblimbs..] == [];
    hide Window;
    WindowStart(wsize);
    while true
      invariant 0 <= nblimbs <= |e| && 0 <= bufsize < BIL && (bufsize > 0 ==> nblimbs < |e|)
      invariant P == Val(e[nblimbs..]) / Pow2(bufsize)
      invariant Holds(X, a, D, N) && TableOk(W, a, N, wsize) && Ready(N, mm, T)
      invariant |T.p| == |old(T.p)| && |X.p| == |old(X.p)|
      invariant Window(P, D, state, nbits, wbits, wsize)
      decreases nblimbs * BIL + bufsize
    {
      if bufsize == 0 {
        if nblimbs == 0 {
          break;
        }
        nblimbs := nblimbs - 1;
        bufsize := BIL;
        Pow2Succ(0);
        NextLimb(e, nblimbs);
      }
      bufsize := bufsize - 1;
      NextBit(e, nblimbs, bufsize);
      var ei := e[nblimbs] / Pow2(bufsize) % 2;
      state, nbits, wbits, D := WindowBit(X, W, N, mm, T, wsize, ei, state, nbits, wbits, a, P, D);
      P := 2 * P + ei;
    }
    Pow2Succ(0);
    assert e[0..] == e;
  }

  lemma WindowStart(wsize: nat)
    requires 0 < wsize
    ensures Window(0, 0, 0, 0, 0, wsize)
  {
  }

  // ---------------------------------------------------------------- the remaining bits

  lemma CancelFactor(w: nat, c: nat, h: nat)
    requires 0 < c && 0 < h
    ensures 0 < c * h && w * c / (c * h) == w / h
  {
    DivDiv(w * c, c, h);
    DivModUnique(w * c, c, w, 0);
  }

  /** Bit wsize of the shifted window is the next bit of the unfinished window. */
  lemma RemainingBit(w: nat, wsize: nat, nbits: nat, i: nat)
    requires i < nbits < wsize
    ensures var t := w / Pow2(nbits - i - 1);
            && t == 2 * (w / Pow2(nbits - i)) + t % 2
            && w * Pow2(wsize - nbits + i + 1) / Pow2(wsize) == t
  {
    hide Pow2;
    var h := Pow2(nbits - i - 1);
    Pow2Succ(nbits - i - 1);
    HalvesAgain(w, h);
    Pow2Add(wsize - nbits + i + 1, nbits - i - 1);
    CancelFactor(w, Pow2(wsize - nbits + i + 1), h);
  }

  lemma UnfinishedWindow(P: nat, D: nat, state: int, nbits: nat, wbits: nat, wsize: nat) returns (w: nat)
    requires Window(P, D, state, nbits, wbits, wsize)
    ensures nbits < wsize && wbits == w * Pow2(wsize - nbits) && w < Pow2(nbits)
    ensures P == D * Pow2(nbits) + w
  {
    hide Pow2;
    Pow2Succ(0);
    w := if state == 2 then wbits / Pow2(wsize - nbits) else 0;
    assert D * 1 == D;
    assert 0 * Pow2(wsize - nbits) == 0;
  }

  /** The exponent in X when i bits of the unfinished window w have been used. */
  ghost function Used(D: nat, w: nat, nbits: nat, i: nat): nat
    requires i <= nbits
  {
    D * Pow2(i) + w / Pow2(nbits - i)
  }

  lemma UsedStep(D: nat, w: nat, wsize: nat, nbits: nat, wbits: nat, i: nat)
    requires i < nbits < wsize && wbits == w * Pow2(wsize - nbits + i)
    ensures 2 * wbits == w * Pow2(wsize - nbits + (i + 1))
    ensures Used(D, w, nbits, i + 1) == 2 * Used(D, w, nbits, i) + 2 * wbits / Pow2(wsize) % 2
  {
    hide Pow2;
    RemainingBit(w, wsize, nbits, i);
    Pow2Succ(i);
    Pow2Succ(wsize - nbits + i);
    assert w * (2 * Pow2(wsize - nbits + i)) == 2 * (w * Pow2(wsize - nbits + i));
    assert D * (2 * Pow2(i)) == 2 * (D * Pow2(i));
  }

  lemma UsedEnds(D: nat, w: nat, nbits: nat)
    requires w < Pow2(nbits)
    ensures Used(D, w, nbits, 0) == D && Used(D, w, nbits, nbits) == D * Pow2(nbits) + w
  {
    hide Pow2;
    Pow2Succ(0);
    DivModUnique(w, Pow2(nbits), 0, w);
    DivModUnique(w, 1, w, 0);
  }

  method RemainingBits(X: Mpi, W1: Mpi, N: Mpi, mm: Limb, T: Mpi, wsize: nat, nbits: nat, wbits0: nat,
                       ghost a: int, ghost P: nat, ghost D: nat, ghost state: int)
    requires X != N && T != X && T != W1 && X != W1 && Ready(N, mm, T)
    requires Window(P, D, state, nbits, wbits0, wsize)
    requires Holds(X, a, D, N) && Holds(W1, a, 1, N)
    modifies X, T
    ensures Holds(X, a, P, N) && |T.p| == |old(T.p)| && |X.p| == |old(X.p)|
  {
    hide Holds, Window, Pow2, Used;
    ghost var w := UnfinishedWindow(P, D, state, nbits, wbits0, wsize);
    UsedEnds(D, w, nbits);
    var wbits := wbits0;
    for i := 0 to nbits
      invariant |T.p| == |old(T.p)| && |X.p| == |old(X.p)|
      invariant Holds(W1, a, 1, N)
      invariant wbits == w * Pow2(wsize - nbits + i)
      invariant Holds(X, a, Used(D, w, nbits, i), N)
    {
      UsedStep(D, w, wsize, nbits, wbits, i);
      ghost var d := Used(D, w, nbits, i);
      Times(X, X, N, mm, T, a, d, d);
      wbits := 2 * wbits;
      if wbits / Pow2(wsize) % 2 != 0 {
        Times(X, W1, N, mm, T, a, 2 * d, 1);
      }
    }
  }

  // ---------------------------------------------------------------- exp_mod

  /** Window size as a function of the exponent's bit length. */
  function WindowSize(bits: nat): nat {
    if bits > 671 then 6 else if bits > 239 then 5 else if bits > 79 then 4 else if bits > 23 then 3 else 1
  }

  /** R^2 mod N, the value that may be cached between calls. */
  ghost predicate IsRR(M: Mpi, N: Mpi)
    reads M, N
  {
    M.s == 1 && |M.p| > 0 && 0 < Val(N.p) && Val(M.p) == BPow(2 * |N.p|) % Val(N.p)
  }

  method ComputeRR(N: Mpi) returns (RR: Mpi)
    requires N.s == 1 && |N.p| > 0 && 0 < Val(N.p)
    ensures fresh(RR) && IsRR(RR, N)
  {
    hide Val, BPow, Pow2;
    RR := new Mpi();
    Lset(RR, 1);
    ShiftL(RR, |N.p| * 2 * BIL);
    BPowIsPow2(2 * |N.p|);
    assert 1 * Pow2(64 * (2 * |N.p|)) == BPow(2 * |N.p|);
    var ret := ModMpi(RR, RR, N);
  }

  /** What exp_mod leaves in X: the power of |A|, and N minus it for a negative A and odd E. */
  function ExpResult(neg: bool, a: nat, e: nat, nv: nat): int
    requires 0 < nv
  {
    var r := Pow(a, e) % nv;
    if neg && e % 2 == 1 then nv - r else r
  }

  /** W[1] := A * R mod N. */
  method FirstEntry(M: Mpi, A: Mpi, RR: Mpi, N: Mpi, mm: Limb, T: Mpi, ghost a: nat)
    requires M != A && M != N && M != RR && M != T && T != N && T != RR && M.Ok()
    requires A.s == 1 && N.s == 1 && |A.p| > 0 && Val(A.p) == a
    requires Ready(N, mm, T) && IsRR(RR, N) && |M.p| > |N.p|
    modifies M, T
    ensures Holds(M, a, 1, N) && M.s == 1 && |T.p| == |old(T.p)|
  {
    hide Val, BPow, IsMont, Cong, IsMontInverse;
    ModulusPositive(N.p, mm);
    ValBound(N.p);
    var c := CmpMpi(A, N);
    if c >= 0 {
      var ret := ModMpi(M, A, N);
    } else {
      Copy(M, A);
      WithinModulus(a, Val(N.p));
    }
    ghost var m := Val(M.p);
    CongMod(a, Val(N.p));
    CongMod(BPow(2 * |N.p|), Val(N.p));
    MontMul(M, RR, N, mm, T);
    EnterMont(m, a, Val(RR.p), Val(M.p), Val(N.p), |N.p|);
  }

  lemma WithinModulus(a: nat, nv: nat)
    requires a < nv
    ensures a % nv == a
  {
    DivModUnique(a, nv, 0, a);
  }

  lemma EnterMont(m: nat, a: int, rr: nat, r: nat, nv: nat, n: nat)
    requires 0 < nv && nv % 2 == 1 && m == a % nv && rr == BPow(2 * n) % nv
    requires r < nv && Cong(r * BPow(n), m * rr, nv)
    ensures IsMont(r, Pow(a, 1), nv, n)
  {
    CongMod(a, nv);
    hide BPow, Cong;
    MontIn(m, rr, r, nv, n);
    MontRepresentative(r, m, a, nv, n);
    assert Pow(a, 1) == a * Pow(a, 0);
  }

  /** X := R mod N, the Montgomery form of 1. */
  method StartValue(X: Mpi, RR: Mpi, N: Mpi, mm: Limb, T: Mpi, ghost a: int)
    requires X != RR && X != N && X != T && T != N && T != RR
    requires Ready(N, mm, T) && IsRR(RR, N) && |X.p| > |N.p|
    modifies X, T
    ensures Holds(X, a, 0, N) && |T.p| == |old(T.p)|
  {
    hide Val, BPow, IsMont, Cong, IsMontInverse;
    ModulusPositive(N.p, mm);
    ValBound(N.p);
    CongMod(BPow(2 * |N.p|), Val(N.p));
    Copy(X, RR);
    MontRed(X, N, mm, T);
    MontIn(1, Val(RR.p), Val(X.p), Val(N.p), |N.p|);
  }

  /** The cached R^2 mod N if there is one; otherwise computed, and cached if asked. */
  method LoadRR(N: Mpi, RRc: Mpi?) returns (RR: Mpi)
    requires N.s == 1 && |N.p| > 0 && 0 < Val(N.p) && RRc != N
    requires RRc != null && |RRc.p| > 0 ==> IsRR(RRc, N)
    modifies if RRc == null then {} else {RRc}
    ensures fresh(RR) && IsRR(RR, N) && (RRc != null ==> IsRR(RRc, N))
  {
    hide Val, BPow;
    if RRc == null || |RRc.p| == 0 {
      RR := ComputeRR(N);
      if RRc != null {
        RRc.s, RRc.p := RR.s, RR.p;
      }
    } else {
      RR := new Mpi();
      RR.s, RR.p := RRc.s, RRc.p;
    }
  }

  /** X := A^E mod N for A >= 0, with a window of any size. */
  method PowerMod(X: Mpi, A: Mpi, E: Mpi, N: Mpi, RR: Mpi, wsize: nat)
    requires 0 < wsize && X.Ok() && A.s == 1 && |A.p| > 0 && N.s == 1
    requires |N.p| > 0 && N.p[0] % 2 == 1 && |X.p| > |N.p|
    requires X != E && X != N && X != RR && IsRR(RR, N)
    modifies X
    ensures X.s == 1 && |X.p| > 0 && Val(N.p) > 0
    ensures Val(X.p) == Pow(old(Val(A.p)), Val(E.p)) % Val(N.p)
  {
    hide Val, BPow, Pow2, IsMontInverse, Holds, TableOk, Window, IsRR, Pow;
    ghost var a := Val(A.p);
    var mm := MontgInit(N.p[0]);
    var T := new Mpi();
    Grow(T, (|N.p| + 1) * 2);
    TableSize(wsize);
    var W := NewTable(Pow2(wsize));
    Grow(W[1], |N.p| + 1);
    FirstEntry(W[1], A, RR, N, mm, T, a);
    StartValue(X, RR, N, mm, T, a);
    FillTable(W, N, mm, T, wsize, a);
    var state, nbits, wbits; ghost var D;
    state, nbits, wbits, D := WindowLoop(X, W, E.p, N, mm, T, wsize, a);
    FirstOfTable(W, a, N, wsize);
    RemainingBits(X, W[1], N, mm, T, wsize, nbits, wbits, a, Val(E.p), D, state);
    FinishPower(X, N, mm, T, a, Val(E.p));
  }

  /** X := N - X, the correction for a negative base and an odd exponent. */
  method NegateModulo(X: Mpi, N: Mpi)
    requires X != N && X.s == 1 && N.s == 1 && |X.p| > 0 && |N.p| > 0
    modifies X
    ensures X.Ok() && X.Int() == Val(N.p) - old(Val(X.p)) && |X.p| > 0
  {
    hide Val;
    X.s := -1;
    AddMpi(X, N, X);
  }

  /** Base with its sign dropped; the caller's object when there was none. */
  method Magnitude(A: Mpi) returns (neg: bool, M: Mpi)
    requires A.Ok() && |A.p| > 0
    ensures neg == (A.s == -1) && M.s == 1 && |M.p| > 0 && Val(M.p) == Val(A.p)
    ensures neg ==> fresh(M)
    ensures !neg ==> M == A
  {
    hide Val;
    neg := A.s == -1;
    M := A;
    if neg {
      M := new Mpi();
      Copy(M, A);
      M.s := 1;
    }
  }

  /** X = A^E mod N. RRc, when given, caches R^2 mod N: an empty one is filled. */
  method ExpMod(X: Mpi, A: Mpi, E: Mpi, N: Mpi, RRc: Mpi?) returns (ret: int)
    requires X.Ok() && A.Ok() && E.Ok() && N.Ok() && |A.p| > 0
    requires X != E && X != N
    requires RRc != null ==> RRc != X && RRc != A && RRc != E && RRc != N
    requires RRc != null && |RRc.p| > 0 && 0 < Val(N.p) ==> IsRR(RRc, N)
    modifies X, if RRc == null then {} else {RRc}
    ensures ret == if N.Int() <= 0 || N.Int() % 2 == 0 || E.Int() < 0 then ERR_BAD_INPUT_DATA else 0
    ensures ret == 0 ==> X.Ok() && X.Int() == ExpResult(old(A.s) == -1, old(Val(A.p)), Val(E.p), Val(N.p))
    ensures ret == 0 && RRc != null ==> IsRR(RRc, N)
    ensures ret == 0 ==> |X.p| > 0
    ensures ret != 0 ==> X.s == old(X.s) && X.p == old(X.p)
    ensures ret != 0 && RRc != null ==> RRc.s == old(RRc.s) && RRc.p == old(RRc.p)
  {
    hide Val, BPow, IsRR, ExpResult, Pow, BitLen;
    ghost var a := Val(A.p);
    var c := CmpInt(N, 0);
    ParityOfInt(N);
    if c <= 0 || N.p[0] % 2 == 0 {
      return ERR_BAD_INPUT_DATA;
    }
    c := CmpInt(E, 0);
    if c < 0 {
      return ERR_BAD_INPUT_DATA;
    }
    var bits := Bitlen(E);
    Grow(X, |N.p| + 1);
    var neg, A' := Magnitude(A);
    var RR := LoadRR(N, RRc);
    PowerMod(X, A', E, N, RR, WindowSize(bits));
    ParityOfInt(E);
    ResultIs(neg, a, Val(E.p), Val(N.p));
    if neg && |E.p| != 0 && E.p[0] % 2 != 0 {
      NegateModulo(X, N);
    }
    return 0;
  }

  /** Leaving Montgomery form: X becomes the plain residue. */
  method FinishPower(X: Mpi, N: Mpi, mm: Limb, T: Mpi, ghost a: int, ghost e: nat)
    requires X != N && T != X && Ready(N, mm, T) && Holds(X, a, e, N)
    modifies X, T
    ensures X.s == 1 && |X.p| > 0 && Val(N.p) > 0 && Val(X.p) == Pow(a, e) % Val(N.p)
  {
    hide Val, BPow, Cong;
    HoldsBounds(X, a, e, N);
    ModulusPositive(N.p, mm);
    ghost var x := Val(X.p);
    MontRed(X, N, mm, T);
    MontOut(x, Pow(a, e), Val(X.p), Val(N.p), |N.p|);
  }

  lemma TableSize(wsize: nat)
    requires 0 < wsize
    ensures Pow2(wsize) > 1
  {
    Pow2Succ(wsize - 1);
  }

  lemma FirstOfTable(W: seq<Mpi>, a: int, N: Mpi, wsize: nat)
    requires 0 < wsize && TableOk(W, a, N, wsize) && |W| > 1
    ensures Holds(W[1], a, 1, N)
  {
    assert Filled(1, wsize);
  }

  lemma ResultIs(neg: bool, a: nat, e: nat, nv: nat)
    requires 0 < nv
    ensures ExpResult(neg, a, e, nv)
         == if neg && e % 2 == 1 then nv - Pow(a, e) % nv else Pow(a, e) % nv
  {
  }

  // ---------------------------------------------------------------- what the result is

  lemma {:induction false} PowNegated(a: int, e: nat)
    ensures Pow(-a, e) == if e % 2 == 1 then -Pow(a, e) else Pow(a, e)
  {
    if e > 0 {
      PowNegated(a, e - 1);
      var p := Pow(a, e - 1);
      assert -a * p == -(a * p) && -a * -p == a * p;
    }
  }

  /** exp_mod returns a residue of the true power in [0, N]. It is the canonical residue
      except in one case: a negative base, an odd exponent and N dividing the power, when
      it is N instead of 0. */
  lemma ExpResultMeaning(neg: bool, a: nat, e: nat, nv: nat)
    requires 0 < nv
    ensures var base := if neg then -(a as int) else a;
            && 0 <= ExpResult(neg, a, e, nv) <= nv
            && Cong(ExpResult(neg, a, e, nv), Pow(base, e), nv)
            && (ExpResult(neg, a, e, nv) == Pow(base, e) % nv
                <==> !(neg && e % 2 == 1 && Divides(nv, Pow(a, e))))
  {
    var p := Pow(a, e);
    PowNegated(a, e);
    CongMod(p, nv);
    if neg && e % 2 == 1 {
      var k := p / nv;
      assert nv - p % nv - (-p) == nv * (1 + k);
      DividesBy(nv, nv - p % nv - (-p), 1 + k);
      if p % nv == 0 {
        DivModUnique(-p, nv, -k, 0);
      } else {
        CongResidue(nv - p % nv, -p, nv);
      }
    }
  }

  /** For a modulus above 1 that is coprime to the base the result is the reduced residue. */
  lemma ExpResultCoprime(neg: bool, a: nat, e: nat, nv: nat)
    requires 1 < nv && IsGcd(1, a, nv)
    ensures ExpResult(neg, a, e, nv) == Pow(if neg then -(a as int) else a, e) % nv
  {
    hide IsGcd, ExpResult;
    ExpResultMeaning(neg, a, e, nv);
    NumberTheory.CoprimeDividesNoPower(nv, a, e);
  }

  /** The smallest failing case: (-1)^1 mod 1 is stored as 1. */
  lemma ExpResultNotReduced()
    ensures ExpResult(true, 1, 1, 1) == 1 && Pow(-1, 1) % 1 == 0
  {
  }
}
