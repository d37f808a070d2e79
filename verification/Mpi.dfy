/**
 The multi-precision integer object of mbedtls/library/bignum.c and the operations
 that move, size, inspect and compare it. A number is a sign and a limb sequence;
 leading zero limbs are allowed, and so is a zero with sign -1.

 Each operation takes the object it writes as its first argument, as the C
 functions do, and may be called with that object as an operand as well unless its
 precondition says otherwise. Allocation always succeeds.
 */
module Mpis {
  import opened Arith
  import opened Limbs

  /** Values of a signed limb. The negation of the lowest one is taken to wrap, so that as a limb it is 2^63. */
  type Sint = z: int | -0x8000_0000_0000_0000 <= z < 0x8000_0000_0000_0000

  function Sgn(x: int): int { if x < 0 then -1 else if x > 0 then 1 else 0 }
  function AbsInt(x: int): nat { if x < 0 then -x else x }
  function Max(a: nat, b: nat): nat { if a < b then b else a }

  function Zeros(n: nat): (z: seq<Limb>)
    ensures |z| == n
  {
    seq(n, i => 0)
  }

  class Mpi {
    var s: int
    var p: seq<Limb>

    ghost predicate Ok()
      reads this
    {
      s == 1 || s == -1
    }

    ghost function Int(): int
      reads this
    {
      if s < 0 then -(Val(p) as int) else Val(p)
    }

    constructor ()
      ensures s == 1 && p == []
    {
      s := 1;
      p := [];
    }

    /** A one-limb number, as the functions taking a C integer build on the stack. */
    constructor FromLimb(sign: int, x: Limb)
      ensures s == sign && p == [x]
    {
      s := sign;
      p := [x];
    }
  }

  // ---------------------------------------------------------------- significant limbs

  /** Number of limbs up to and including the highest nonzero one. */
  ghost function SigLen(s: seq<Limb>): (n: nat)
    ensures n <= |s|
  {
    if |s| == 0 then 0
    else if s[|s| - 1] != 0 then |s|
    else SigLen(s[..|s| - 1])
  }

  lemma {:induction false} SigLenProps(s: seq<Limb>)
    ensures forall j :: SigLen(s) <= j < |s| ==> s[j] == 0
    ensures SigLen(s) > 0 ==> s[SigLen(s) - 1] != 0 && Val(s) >= BPow(SigLen(s) - 1)
    ensures Val(s[..SigLen(s)]) == Val(s) && Val(s) < BPow(SigLen(s))
    ensures SigLen(s) == 0 <==> Val(s) == 0
  {
    var n := SigLen(s);
    if |s| > 0 && s[|s| - 1] == 0 {
      SigLenProps(s[..|s| - 1]);
    }
    ValHighZeros(s, n);
    ValBound(s[..n]);
    if n > 0 { ValPositive(s, n - 1); }
  }

  /** A number below B^k has at most k significant limbs, and conversely. */
  lemma SigLenBound(s: seq<Limb>, k: nat)
    ensures SigLen(s) <= k <==> Val(s) < BPow(k)
  {
    SigLenProps(s);
    var n := SigLen(s);
    if n <= k { BPowMono(n, k); } else { BPowMono(k, n - 1); }
  }

  method SignificantLimbs(p: seq<Limb>) returns (i: nat)
    ensures i == SigLen(p)
  {
    i := |p|;
    ValFull(p);
    while i > 0 && p[i - 1] == 0
      invariant i <= |p|
      invariant SigLen(p) == SigLen(p[..i])
    {
      assert p[..i][..i - 1] == p[..i - 1];
      i := i - 1;
    }
  }

  /** The lowest bit of the lowest limb is the parity of the number. */
  lemma ParityOfInt(M: Mpi)
    requires M.Ok()
    ensures |M.p| > 0 ==> M.p[0] % 2 == Val(M.p) % 2 == M.Int() % 2
    ensures |M.p| == 0 ==> Val(M.p) == 0
  {
    if |M.p| > 0 {
      ValCons(M.p);
      hide Val;
      ParityInts(M.p[0], Val(M.p[1..]));
    }
  }

  lemma ParityInts(x: nat, y: nat)
    ensures (x + B * y) % 2 == x % 2 == (-(x + B * y)) % 2
  {
  }

  // ---------------------------------------------------------------- size and assignment

  method Grow(X: Mpi, nblimbs: nat)
    modifies X
    ensures X.s == old(X.s)
    ensures X.p == old(X.p) + Zeros(Max(nblimbs, |old(X.p)|) - |old(X.p)|)
    ensures Val(X.p) == old(Val(X.p))
  {
    if |X.p| < nblimbs {
      ghost var p0 := X.p;
      X.p := X.p + Zeros(nblimbs - |X.p|);
      ValHighZeros(X.p, |p0|);
      assert X.p[..|p0|] == p0;
    }
  }

  method Free(X: Mpi)
    modifies X
    ensures X.s == 1 && X.p == []
  {
    X.s := 1;
    X.p := [];
  }

  /** X := Y. The limb buffer of X is kept when it is long enough, so limbs above
      the significant ones of Y become zero; an empty Y empties X. */
  method Copy(X: Mpi, Y: Mpi)
    modifies X
    ensures X == Y ==> X.s == old(X.s) && X.p == old(X.p)
    ensures X != Y && |Y.p| == 0 ==> X.s == 1 && X.p == []
    ensures X != Y && |Y.p| > 0 ==>
              X.s == Y.s && |X.p| == Max(|old(X.p)|, Max(SigLen(Y.p), 1))
    ensures Val(X.p) == old(Val(Y.p)) && X.Int() == old(Y.Int())
    ensures old(X.Ok() && Y.Ok()) ==> X.Ok()
  {
    hide Val, BPow;
    if X == Y {
      return;
    }
    ValEmpty();
    if |Y.p| == 0 {
      Free(X);
      return;
    }
    var y := Y.p;
    var i := |y| - 1;
    ValFull(y);
    while i > 0 && y[i] == 0
      invariant 0 <= i < |y|
      invariant SigLen(y) == SigLen(y[..i + 1])
    {
      assert y[..i + 1][..i] == y[..i];
      i := i - 1;
    }
    assert y[..i + 1][..i] == y[..i];
    i := i + 1;
    assert i == Max(SigLen(y), 1) by {
      if y[i - 1] == 0 { assert i == 1 && y[..0] == []; }
    }
    X.s := Y.s;
    if |X.p| < i {
      Grow(X, i);
      X.p := y[..i];
    } else {
      X.p := y[..i] + Zeros(|X.p| - i);
    }
    SigLenProps(y);
    ValHighZeros(y, i);
    ValHighZeros(X.p, i);
    assert X.p[..i] == y[..i];
  }

  method Lset(X: Mpi, z: Sint)
    modifies X
    ensures X.Int() == z && Val(X.p) == AbsInt(z)
    ensures X.s == if z < 0 then -1 else 1
    ensures |X.p| == Max(|old(X.p)|, 1)
  {
    Grow(X, 1);
    X.p := [AbsInt(z)] + Zeros(|X.p| - 1);
    X.s := if z < 0 then -1 else 1;
    ValHighZeros(X.p, 1);
    assert X.p[..1] == [AbsInt(z)];
    ValSingle(AbsInt(z));
  }

  // ---------------------------------------------------------------- bit counting

  /** Number of bits of v; 0 has none. */
  function BitLen(v: nat): nat
  {
    if v == 0 then 0 else 1 + BitLen(v / 2)
  }

  lemma {:induction false} BitLenProps(v: nat)
    ensures v < Pow2(BitLen(v)) && (v == 0 <==> BitLen(v) == 0)
    ensures v > 0 ==> BitLen(v) > 0 && Pow2(BitLen(v) - 1) <= v
    decreases v
  {
    if v > 0 {
      BitLenProps(v / 2);
      if v / 2 > 0 {
        assert Pow2(BitLen(v) - 1) == 2 * Pow2(BitLen(v) - 2);
      }
    }
  }

  /** The bracketing by powers of two determines the bit count. */
  lemma BitLenUnique(v: nat, n: nat)
    requires v < Pow2(n) && (n > 0 ==> Pow2(n - 1) <= v)
    ensures BitLen(v) == n
  {
    hide BitLen;
    BitLenProps(v);
    if BitLen(v) < n { PowMono(2, BitLen(v), n - 1); }
    if n < BitLen(v) { PowMono(2, n, BitLen(v) - 1); }
  }

  /** A number has at most n bits exactly when it is below 2^n. */
  lemma BitLenBound(v: nat, n: nat)
    ensures BitLen(v) <= n <==> v < Pow2(n)
  {
    hide BitLen;
    BitLenProps(v);
    if BitLen(v) <= n { PowMono(2, BitLen(v), n); } else { PowMono(2, n, BitLen(v) - 1); }
  }

  lemma BitLenShift(v: nat, k: nat)
    requires v > 0
    ensures BitLen(v * Pow2(k)) == BitLen(v) + k
  {
    hide BitLen, Pow2;
    BitLenProps(v);
    var n := BitLen(v);
    Pow2Add(n, k);
    Pow2Add(n - 1, k);
    MulMonoStrict(v, Pow2(n), Pow2(k));
    MulMono(Pow2(n - 1), v, Pow2(k));
    BitLenUnique(v * Pow2(k), n + k);
  }

  /** Leading zero bits of a limb, found with a mask moving down from bit 63. */
  method Clz(x: Limb) returns (j: nat)
    ensures j <= BIL && BIL - j == BitLen(x)
  {
    hide Pow2, BitLen;
    Pow2Bil();
    Pow2Succ(63);
    var mask: nat := 0x8000_0000_0000_0000;
    j := 0;
    while j < BIL
      invariant j <= BIL
      invariant x < Pow2(BIL - j)
      invariant mask == if j < BIL then Pow2(BIL - 1 - j) else 0
    {
      Pow2Succ(BIL - 1 - j);
      MaskTest(x, mask);
      if x / mask % 2 == 1 {
        BitLenUnique(x, BIL - j);
        return;
      }
      if j + 1 < BIL { Pow2Succ(BIL - 2 - j); } else { Pow2Succ(0); }
      mask := mask / 2;
      j := j + 1;
    }
    Pow2Succ(0);
    BitLenUnique(x, 0);
  }

  /** The top bit of a number below 2m is set exactly when it is at least m. */
  lemma MaskTest(x: nat, m: nat)
    requires 0 < m && x < 2 * m
    ensures x / m % 2 == 1 <==> m <= x
  {
    if x < m {
      DivModUnique(x, m, 0, x);
    } else {
      DivModUnique(x, m, 1, x - m);
    }
  }

  method Bitlen(X: Mpi) returns (r: nat)
    ensures r == BitLen(Val(X.p))
  {
    if |X.p| == 0 {
      return 0;
    }
    var i := |X.p| - 1;
    while i > 0 && X.p[i] == 0
      invariant 0 <= i < |X.p|
      invariant forall j :: i < j < |X.p| ==> X.p[j] == 0
    {
      i := i - 1;
    }
    var z := Clz(X.p[i]);
    r := i * BIL + (BIL - z);
    TopLimbBits(X.p, i);
  }

  lemma TopLimbBits(s: seq<Limb>, i: nat)
    requires i < |s| && forall j :: i < j < |s| ==> s[j] == 0
    requires s[i] != 0 || i == 0
    ensures BitLen(Val(s)) == i * BIL + BitLen(s[i])
  {
    hide Pow2, BitLen, BPow;
    ValHighZeros(s, i + 1);
    ValSnoc(s, i);
    ValBound(s[..i]);
    if s[i] == 0 {
      assert s[..0] == [];
    } else {
      BPowIsPow2(i);
      BitLenTop(Val(s[..i]), s[i], 64 * i);
    }
  }

  lemma BitLenTop(lo: nat, x: nat, k: nat)
    requires lo < Pow2(k) && 0 < x
    ensures BitLen(lo + x * Pow2(k)) == k + BitLen(x)
  {
    hide Pow2, BitLen;
    var n := BitLen(x);
    BitLenProps(x);
    Pow2Add(n, k);
    Pow2Add(n - 1, k);
    MulMono(Pow2(n - 1), x, Pow2(k));
    MulMono(x + 1, Pow2(n), Pow2(k));
    assert (x + 1) * Pow2(k) == x * Pow2(k) + Pow2(k);
    BitLenUnique(lo + x * Pow2(k), k + n);
  }

  /** 2^k is the highest power of two dividing v. */
  ghost predicate IsLsb(k: nat, v: nat) {
    Divides(Pow2(k), v) && v / Pow2(k) % 2 == 1
  }

  /** Index of the lowest set bit; 0 for the number 0. */
  method Lsb(X: Mpi) returns (count: nat)
    ensures Val(X.p) == 0 ==> count == 0
    ensures Val(X.p) != 0 ==> IsLsb(count, Val(X.p))
  {
    Pow2Bil();
    count := 0;
    var i := 0;
    while i < |X.p|
      invariant i <= |X.p| && count == i * BIL
      invariant forall j :: 0 <= j < i ==> X.p[j] == 0
    {
      var j := 0;
      assert Pow2(0) == 1;
      while j < BIL
        invariant j <= BIL && count == i * BIL + j
        invariant X.p[i] % Pow2(j) == 0
      {
        if X.p[i] / Pow2(j) % 2 == 1 {
          LowestLimbBit(X.p, i, j);
          return;
        }
        var q := X.p[i] / Pow2(j);
        assert X.p[i] == Pow2(j) * (2 * (q / 2));
        MulAssoc(Pow2(j), 2, q / 2);
        DividesBy(Pow2(j + 1), X.p[i], q / 2);
        j := j + 1;
        count := count + 1;
      }
      WExact(X.p[i]);
      i := i + 1;
    }
    ValZeros(X.p);
    count := 0;
  }

  lemma LowestLimbBit(s: seq<Limb>, i: nat, j: nat)
    requires i < |s| && j < BIL && forall k :: 0 <= k < i ==> s[k] == 0
    requires s[i] % Pow2(j) == 0 && s[i] / Pow2(j) % 2 == 1
    ensures IsLsb(i * BIL + j, Val(s)) && Val(s) != 0
  {
    hide Val, Pow2, BPow;
    ValSplit(s, i);
    ValZeros(s[..i]);
    ValCons(s[i..]);
    BPowIsPow2(i);
    LowestBit(s[i], Val(s[i..][1..]), j, 64 * i);
    ValPositive(s, i);
  }

  /** Below a limb, only the lowest set bit of that limb matters. */
  lemma LowestBit(x: nat, hi: nat, j: nat, k: nat)
    requires j < BIL && Divides(Pow2(j), x) && x / Pow2(j) % 2 == 1
    ensures IsLsb(k + j, Pow2(k) * (x + B * hi))
  {
    hide Pow2;
    var q, h := x / Pow2(j), Pow2(BIL - 1 - j);
    Pow2Bil();
    Pow2Add(j, BIL - j);
    Pow2Succ(BIL - 1 - j);
    var odd := q + 2 * (h * hi);
    assert x + B * hi == Pow2(j) * odd by {
      MulAssoc(Pow2(j), 2 * h, hi);
      MulAssoc(2, h, hi);
    }
    Pow2Add(k, j);
    MulAssoc(Pow2(k), Pow2(j), odd);
    DivModUnique(Pow2(k + j) * odd, Pow2(k + j), odd, 0);
  }

  // ---------------------------------------------------------------- comparison

  method CmpAbs(X: Mpi, Y: Mpi) returns (r: int)
    ensures r == Sgn(Val(X.p) - Val(Y.p))
  {
    hide Val, BPow;
    var i := SignificantLimbs(X.p);
    var j := SignificantLimbs(Y.p);
    SigLenProps(X.p);
    SigLenProps(Y.p);
    if i == 0 && j == 0 {
      return 0;
    }
    if i > j {
      BPowMono(j, i - 1);
      return 1;
    }
    if j > i {
      BPowMono(i, j - 1);
      return -1;
    }
    while i > 0
      invariant 0 <= i <= |X.p| && i <= |Y.p|
      invariant Sgn(Val(X.p) - Val(Y.p)) == Sgn(Val(X.p[..i]) - Val(Y.p[..i]))
    {
      ValSnoc(X.p, i - 1);
      ValSnoc(Y.p, i - 1);
      if X.p[i - 1] > Y.p[i - 1] {
        ValTopLess(Y.p, X.p, i - 1);
        return 1;
      }
      if X.p[i - 1] < Y.p[i - 1] {
        ValTopLess(X.p, Y.p, i - 1);
        return -1;
      }
      i := i - 1;
    }
    assert X.p[..0] == [] && Y.p[..0] == [];
    return 0;
  }

  method CmpMpi(X: Mpi, Y: Mpi) returns (r: int)
    requires X.Ok() && Y.Ok()
    ensures r == Sgn(X.Int() - Y.Int())
  {
    hide Val, BPow;
    var i := SignificantLimbs(X.p);
    var j := SignificantLimbs(Y.p);
    SigLenProps(X.p);
    SigLenProps(Y.p);
    if i == 0 && j == 0 {
      return 0;
    }
    if i > j {
      BPowMono(j, i - 1);
      return X.s;
    }
    if j > i {
      BPowMono(i, j - 1);
      return -Y.s;
    }
    if X.s > 0 && Y.s < 0 {
      return 1;
    }
    if Y.s > 0 && X.s < 0 {
      return -1;
    }
    while i > 0
      invariant 0 <= i <= |X.p| && i <= |Y.p|
      invariant Sgn(Val(X.p) - Val(Y.p)) == Sgn(Val(X.p[..i]) - Val(Y.p[..i]))
    {
      ValSnoc(X.p, i - 1);
      ValSnoc(Y.p, i - 1);
      if X.p[i - 1] > Y.p[i - 1] {
        ValTopLess(Y.p, X.p, i - 1);
        return X.s;
      }
      if X.p[i - 1] < Y.p[i - 1] {
        ValTopLess(X.p, Y.p, i - 1);
        return -X.s;
      }
      i := i - 1;
    }
    assert X.p[..0] == [] && Y.p[..0] == [];
    return 0;
  }

  method CmpInt(X: Mpi, z: Sint) returns (r: int)
    requires X.Ok()
    ensures r == Sgn(X.Int() - z)
  {
    var Y := new Mpi.FromLimb(if z < 0 then -1 else 1, AbsInt(z));
    ValSingle(AbsInt(z));
    r := CmpMpi(X, Y);
  }
}
