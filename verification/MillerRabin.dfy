/** The Miller-Rabin test of mbedtls/library/bignum.c. The random generator is a parameter:
    draw number k of X->n limbs is rng(k). */
module MillerRabin {
  import opened Arith
  import opened Limbs
  import opened Mpis
  import opened MpiShift
  import opened MpiAdd
  import opened MpiMul
  import opened MpiDiv
  import opened ExpMod
  import opened NumberTheory

  const ERR_NOT_ACCEPTABLE: int := -0x000E

  // ---------------------------------------------------------------- choosing a base

  lemma ShrinkLimb(x: Limb, k: nat)
    ensures x % Pow2(k) < B
  {
    if x < Pow2(k) { DivModUnique(x, Pow2(k), 0, x); }
  }

  /** The low k bits of a limb. */
  function LowBits(x: Limb, k: nat): Limb {
    ShrinkLimb(x, k);
    x % Pow2(k)
  }

  /** A draw whose bit length exceeds that of W has its top limb cut to one bit less. */
  function Masked(p: seq<Limb>, w: nat): seq<Limb>
    requires |p| > 0 && (|p| - 1) * BIL < BitLen(w)
  {
    if BitLen(Val(p)) > BitLen(w) then
      p[|p| - 1 := LowBits(p[|p| - 1], BitLen(w) - (|p| - 1) * BIL - 1)]
    else p
  }

  /** The draws the loop accepts: 1 < A < W after masking. */
  ghost predicate Accepted(p: seq<Limb>, w: nat)
    requires |p| > 0 && (|p| - 1) * BIL < BitLen(w)
  {
    1 < Val(Masked(p, w)) < w
  }

  /** Draws until a base is accepted; the 32nd draw in a row gives up without looking at it. */
  method PickBase(A: Mpi, W: Mpi, n: nat, rng: nat -> seq<Limb>, draw0: nat)
    returns (ok: bool, draw: nat)
    requires A != W && W.s == 1 && 0 < n && (n - 1) * BIL < BitLen(Val(W.p))
    requires forall k: nat :: |rng(k)| == n
    modifies A
    ensures ok ==> A.s == 1 && |A.p| == n && 1 < Val(A.p) < Val(W.p)
    ensures ok ==> draw0 < draw && A.p == Masked(rng(draw - 1), Val(W.p))
    ensures !ok ==> draw == draw0 + 32
                    && forall k :: draw0 <= k < draw0 + 31 ==> !Accepted(rng(k), Val(W.p))
  {
    hide Val, BitLen, Pow2, LowBits;
    draw := draw0;
    var count := 0;
    var again := true;
    while again
      invariant count <= 32 && draw == draw0 + count && (again ==> count <= 31)
      invariant again ==> forall k :: draw0 <= k < draw ==> !Accepted(rng(k), Val(W.p))
      invariant !again ==> count > 0 && A.s == 1 && A.p == Masked(rng(draw - 1), Val(W.p)) && |A.p| == n
      invariant !again ==> 1 < Val(A.p) < Val(W.p)
      decreases if again then 33 - count else 0
    {
      A.s := 1;
      A.p := rng(draw);
      draw := draw + 1;
      var j := Bitlen(A);
      var k := Bitlen(W);
      if j > k {
        A.p := A.p[n - 1 := LowBits(A.p[n - 1], k - (n - 1) * BIL - 1)];
      }
      if count > 30 {
        count := count + 1;
        return false, draw;
      }
      count := count + 1;
      var c := CmpMpi(A, W);
      var d := CmpInt(A, 1);
      again := c >= 0 || d <= 0;
    }
    ok := true;
  }

  // ---------------------------------------------------------------- one round

  lemma ResidueSquare(y: int, x: int)
    requires 0 < x
    ensures (y % x) * (y % x) % x == y * y % x
  {
    CongMod(y, x);
    CongMul(y % x, y, y % x, y, x);
    CongModEq(y % x * (y % x), y * y, x);
  }

  /** Once the chain reaches 1 it stays there. */
  lemma {:induction false} ChainStaysOne(x: int, b: int, r: nat, i: nat, k: nat)
    requires 1 < x && i <= k && Chain(b, r, i) % x == 1
    ensures Chain(b, r, k) % x == 1
    decreases k
  {
    if i < k {
      ChainStaysOne(x, b, r, i, k - 1);
      ChainSquare(b, r, k - 1);
      hide Chain;
      ResidueSquare(Chain(b, r, k - 1), x);
      DivModUnique(1, x, 0, 1);
    }
  }

  /** No element of the chain before i is -1. */
  ghost predicate NoMinusOne(x: int, b: int, r: nat, i: nat)
    requires 0 < x
  {
    forall k: nat :: k < i ==> Chain(b, r, k) % x != x - 1
  }

  /** The squaring loop has stopped at element i of the chain: the verdict is right. */
  lemma Verdict(x: int, b: int, r: nat, s: nat, i: nat, y: int)
    requires 2 < x && i < s && y == Chain(b, r, i) % x && Chain(b, r, 0) % x != 1
    requires NoMinusOne(x, b, r, i) && (i + 1 == s || y == x - 1 || y == 1)
    ensures StrongProbable(x, b, r, s) <==> y == x - 1
  {
    hide Chain;
    if y != x - 1 && StrongProbable(x, b, r, s) {
      var k: nat :| k < s && Chain(b, r, k) % x == x - 1;
      if y == 1 { ChainStaysOne(x, b, r, i, k); }
    }
  }

  /** A := A * A mod X. */
  method SquareMod(A: Mpi, T: Mpi, X: Mpi)
    requires A != T && A != X && T != X && A.Ok() && T.Ok() && X.s == 1 && |X.p| > 0 && 0 < Val(X.p)
    modifies A, T
    ensures A.Ok() && T.Ok() && |A.p| > 0 && A.Int() == old(A.Int()) * old(A.Int()) % X.Int()
  {
    hide Val;
    MulMpi(T, A, A);
    var ret := ModMpi(A, T, X);
  }

  /** One round with base A: passes exactly when X is a strong probable prime to that base. */
  method Round(A: Mpi, W: Mpi, R: Mpi, s: nat, X: Mpi, RR: Mpi, T: Mpi) returns (pass: bool)
    requires A != W && A != R && A != X && A != RR && A != T && T != W && T != R && T != X && T != RR
    requires RR != R && RR != X && RR != W
    requires A.s == 1 && W.s == 1 && R.s == 1 && X.s == 1 && T.Ok() && |A.p| > 0 && |X.p| > 0 && 0 < s
    requires 3 < Val(X.p) && Val(X.p) % 2 == 1 && Val(W.p) == Val(X.p) - 1
    requires |RR.p| > 0 ==> IsRR(RR, X)
    modifies A, RR, T
    ensures A.Ok() && T.Ok() && IsRR(RR, X)
    ensures pass <==> StrongProbable(Val(X.p), old(Val(A.p)), Val(R.p), s)
    ensures pass <==> Pow(old(Val(A.p)), Val(R.p)) % Val(X.p) == 1
                      || exists i: nat :: i < s && Pow(old(Val(A.p)), Val(R.p) * Pow2(i)) % Val(X.p) == Val(X.p) - 1
  {
    hide *;
    ghost var x, b, r := Val(X.p), Val(A.p), Val(R.p);
    pass := StrongRound(A, W, R, s, X, RR, T);
    StrongProbableIs(x, b, r, s);
  }

  method StrongRound(A: Mpi, W: Mpi, R: Mpi, s: nat, X: Mpi, RR: Mpi, T: Mpi) returns (pass: bool)
    requires A != W && A != R && A != X && A != RR && A != T && T != W && T != R && T != X && T != RR
    requires RR != R && RR != X && RR != W
    requires A.s == 1 && W.s == 1 && R.s == 1 && X.s == 1 && T.Ok() && |A.p| > 0 && |X.p| > 0 && 0 < s
    requires 3 < Val(X.p) && Val(X.p) % 2 == 1 && Val(W.p) == Val(X.p) - 1
    requires |RR.p| > 0 ==> IsRR(RR, X)
    modifies A, RR, T
    ensures A.Ok() && T.Ok() && IsRR(RR, X)
    ensures pass <==> StrongProbable(Val(X.p), old(Val(A.p)), Val(R.p), s)
  {
    hide Val, Pow2, BPow, Pow, Chain, StrongProbable, IsRR, NoMinusOne;
    ghost var x: int, b, r := Val(X.p), Val(A.p), Val(R.p);
    var ret := ExpMod.ExpMod(A, A, R, X, RR);
    PlainResult(b, r, x);
    ChainSquare(b, r, 0);
    var c := CmpMpi(A, W);
    var d := CmpInt(A, 1);
    if c == 0 || d == 0 {
      FirstPasses(x, b, r, s);
      return true;
    }
    var j := 1;
    NoneBefore(x, b, r);
    while j < s && c != 0
      invariant 1 <= j <= s && A.Ok() && T.Ok() && |A.p| > 0 && IsRR(RR, X)
      invariant A.Int() == Chain(b, r, j - 1) % x && A.Int() != 1
      invariant c == Sgn(A.Int() - W.Int()) && d == Sgn(A.Int() - 1)
      invariant NoMinusOne(x, b, r, j - 1)
    {
      NoneSo(x, b, r, j - 1);
      SquareMod(A, T, X);
      ResidueSquare(Chain(b, r, j - 1), x);
      ChainSquare(b, r, j - 1);
      c := CmpMpi(A, W);
      d := CmpInt(A, 1);
      if d == 0 {
        Verdict(x, b, r, s, j, A.Int());
        break;
      }
      j := j + 1;
    }
    if d != 0 {
      Verdict(x, b, r, s, j - 1, A.Int());
    }
    pass := !(c != 0 || d == 0);
  }

  lemma PlainResult(b: nat, e: nat, x: nat)
    requires 0 < x
    ensures ExpResult(false, b, e, x) == Pow(b, e) % x
  {
  }

  lemma FirstPasses(x: int, b: int, r: nat, s: nat)
    requires 0 < x && 0 < s && (Chain(b, r, 0) % x == 1 || Chain(b, r, 0) % x == x - 1)
    ensures StrongProbable(x, b, r, s)
  {
    hide Chain;
  }

  lemma NoneBefore(x: int, b: int, r: nat)
    requires 0 < x
    ensures NoMinusOne(x, b, r, 0)
  {
  }

  lemma NoneSo(x: int, b: int, r: nat, i: nat)
    requires 0 < x && NoMinusOne(x, b, r, i) && Chain(b, r, i) % x != x - 1
    ensures NoMinusOne(x, b, r, i + 1)
  {
    hide Chain;
  }

  // ---------------------------------------------------------------- the test

  /** X - 1 = r * 2^s with s > 0 for odd X. */
  lemma OddPart(w: nat, s: nat)
    requires 0 < w && w % 2 == 0 && IsLsb(s, w)
    ensures 0 < s && w == w / Pow2(s) * Pow2(s)
  {
    Pow2Succ(0);
    assert w == Pow2(s) * (w / Pow2(s));
    if s == 0 { DivModUnique(w, 1, w, 0); }
  }

  /** The top limb of X - 1 is not zero either, so the mask is well defined. */
  lemma TopLimbKept(p: seq<Limb>)
    requires |p| > 0 && p[|p| - 1] != 0 && Val(p) % 2 == 1 && 3 < Val(p)
    ensures (|p| - 1) * BIL < BitLen(Val(p) - 1)
  {
    hide Val, BPow, Pow2, BitLen;
    var n := |p| - 1;
    ValPositive(p, n);
    BPowIsPow2(n);
    if n > 0 { Pow2Succ(64 * n - 1); } else { Pow2Succ(0); }
    BitLenBound(Val(p) - 1, 64 * n);
  }

  /** W = X - 1 and its odd part R. */
  method Decompose(X: Mpi) returns (s: nat, W: Mpi, R: Mpi)
    requires X.s == 1 && |X.p| > 0 && Val(X.p) % 2 == 1 && 3 < Val(X.p)
    ensures fresh(W) && fresh(R) && W != R && W.s == 1 && R.s == 1 && 0 < s
    ensures Val(W.p) == Val(X.p) - 1 && Val(W.p) == Val(R.p) * Pow2(s) && Val(R.p) % 2 == 1
  {
    hide Val, Pow2;
    W := new Mpi();
    R := new Mpi();
    SubInt(W, X, 1);
    s := Lsb(W);
    Copy(R, W);
    ShiftR(R, s);
    OddPart(Val(W.p), s);
  }

  /** What a run of the test establishes. bases are the accepted bases in order; exhausted
      says that the run ended in the retry limit. */
  ghost predicate Outcome(x: nat, ret: int, rounds: nat, bases: seq<nat>, exhausted: bool, r: nat, s: nat)
    requires 0 < x
  {
    && (forall i :: 0 <= i < |bases| ==> 1 < bases[i] < x - 1)
    && (ret == 0 ==> !exhausted && |bases| == rounds
                     && forall i :: 0 <= i < |bases| ==> StrongProbable(x, bases[i], r, s))
    && (ret != 0 ==> ret == ERR_NOT_ACCEPTABLE)
    && (ret != 0 && !exhausted ==> |bases| > 0 && !StrongProbable(x, bases[|bases| - 1], r, s))
  }

  method Test(X: Mpi, rounds: nat, rng: nat -> seq<Limb>)
    returns (ret: int, ghost bases: seq<nat>, ghost exhausted: bool, ghost r: nat, ghost s: nat, ghost last: nat)
    requires X.s == 1 && |X.p| > 0 && X.p[|X.p| - 1] != 0 && Val(X.p) % 2 == 1 && 3 < Val(X.p)
    requires forall k: nat :: |rng(k)| == |X.p|
    ensures Val(X.p) - 1 == r * Pow2(s) && r % 2 == 1
    ensures Outcome(Val(X.p), ret, rounds, bases, exhausted, r, s)
    ensures (|X.p| - 1) * BIL < BitLen(Val(X.p) - 1)
    ensures exhausted ==> forall k :: last <= k < last + 31 ==> !Accepted(rng(k), Val(X.p) - 1)
    ensures IsPrime(Val(X.p)) && ret != 0 ==> exhausted
    ensures ret == 0 ==> |bases| == rounds && forall j :: 0 <= j < rounds ==>
      1 < bases[j] < Val(X.p) - 1
      && (Pow(bases[j], r) % Val(X.p) == 1 || exists i: nat :: i < s && Pow(bases[j], r * Pow2(i)) % Val(X.p) == Val(X.p) - 1)
  {
    hide *;
    ret, bases, exhausted, r, s, last := Rounds(X, rounds, rng);
    if ret == 0 { AllPassed(Val(X.p), rounds, bases, r, s); }
  }

  lemma AllPassed(x: nat, rounds: nat, bases: seq<nat>, r: nat, s: nat)
    requires 0 < x && Outcome(x, 0, rounds, bases, false, r, s)
    ensures |bases| == rounds && forall j :: 0 <= j < rounds ==>
      1 < bases[j] < x - 1
      && (Pow(bases[j], r) % x == 1 || exists i: nat :: i < s && Pow(bases[j], r * Pow2(i)) % x == x - 1)
  {
    hide StrongProbable, Pow, Pow2;
    forall j | 0 <= j < rounds
      ensures Pow(bases[j], r) % x == 1 || exists i: nat :: i < s && Pow(bases[j], r * Pow2(i)) % x == x - 1
    {
      StrongProbableIs(x, bases[j], r, s);
    }
  }

  /** The loop over the rounds. */
  method Rounds(X: Mpi, rounds: nat, rng: nat -> seq<Limb>)
    returns (ret: int, ghost bases: seq<nat>, ghost exhausted: bool, ghost r: nat, ghost s: nat, ghost last: nat)
    requires X.s == 1 && |X.p| > 0 && X.p[|X.p| - 1] != 0 && Val(X.p) % 2 == 1 && 3 < Val(X.p)
    requires forall k: nat :: |rng(k)| == |X.p|
    ensures Val(X.p) - 1 == r * Pow2(s) && r % 2 == 1
    ensures Outcome(Val(X.p), ret, rounds, bases, exhausted, r, s)
    ensures ret == 0 ==> !exhausted
    ensures (|X.p| - 1) * BIL < BitLen(Val(X.p) - 1)
    ensures exhausted ==> forall k :: last <= k < last + 31 ==> !Accepted(rng(k), Val(X.p) - 1)
    ensures IsPrime(Val(X.p)) && ret != 0 ==> exhausted
  {
    hide Val, Pow2, BitLen, StrongProbable, IsRR, Masked;
    ghost var x := Val(X.p);
    TopLimbKept(X.p);
    var shift, W, R := Decompose(X);
    s := shift;
    r := Val(R.p);
    var T := new Mpi();
    var A := new Mpi();
    var RR := new Mpi();
    bases, exhausted, last := [], false, 0;
    ret := 0;
    var draw, i := 0, 0;
    while i < rounds
      invariant 0 <= i <= rounds && |bases| == i && ret == 0
      invariant {A, W, R, T, RR} !! {X} && fresh({A, W, R, T, RR})
      invariant A != W && A != R && A != RR && A != T && T != W && T != R && T != RR && RR != R && RR != W
      invariant T.Ok() && W.s == 1 && R.s == 1 && Val(W.p) == x - 1 && Val(R.p) == r
      invariant |RR.p| > 0 ==> IsRR(RR, X)
      invariant Outcome(x, 0, i, bases, false, r, s)
    {
      var ok;
      last := draw;
      ok, draw := PickBase(A, W, |X.p|, rng, draw);
      if !ok {
        exhausted := true;
        return ERR_NOT_ACCEPTABLE, bases, exhausted, r, s, last;
      }
      bases := bases + [Val(A.p)];
      var pass := Round(A, W, R, shift, X, RR, T);
      if !pass {
        CompositeFound(x, bases[i], r, s);
        return ERR_NOT_ACCEPTABLE, bases, false, r, s, last;
      }
      i := i + 1;
    }
  }

  /** A failed strong test refutes primality. */
  lemma CompositeFound(x: nat, b: nat, r: nat, s: nat)
    requires 0 < b < x && x - 1 == r * Pow2(s) && !StrongProbable(x, b, r, s)
    ensures !IsPrime(x)
  {
    hide StrongProbable, Pow2;
    if IsPrime(x) { PrimeIsStrongProbable(x, b, r, s); }
  }
}
