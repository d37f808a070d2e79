/** Greatest common divisor of mbedtls/library/bignum.c. */
module MpiGcd {
  import opened Arith
  import opened Limbs
  import opened Mpis
  import opened MpiShift
  import opened MpiAdd

  // ---------------------------------------------------------------- gcd facts

  lemma OddDivisor(d: int, y: int)
    requires 0 < d && Divides(d, y) && y % 2 == 1
    ensures d % 2 == 1
  {
    if d % 2 == 0 {
      var h, k := d / 2, y / d;
      assert y == 2 * (h * k) by { MulAssoc(2, h, k); }
    }
  }

  lemma GcdSym(g: nat, x: nat, y: nat)
    requires IsGcd(g, x, y)
    ensures IsGcd(g, y, x)
  {
  }

  /** Factors of two of one operand do not matter when the other is odd. */
  lemma GcdOddPart(g: nat, x: nat, k: nat, y: nat)
    requires y % 2 == 1 && Divides(Pow2(k), x) && IsGcd(g, x / Pow2(k), y)
    ensures IsGcd(g, x, y)
  {
    hide Pow2;
    var z := x / Pow2(k);
    assert x == Pow2(k) * z;
    DividesTimes(g, z, Pow2(k));
    forall d: nat | 0 < d && Divides(d, x) && Divides(d, y)
      ensures Divides(d, g)
    {
      OddDivisor(d, y);
      OddDividesPow2(d, k, z);
    }
  }

  /** Subtracting one operand from the other keeps the gcd. */
  lemma GcdSubtract(g: nat, x: nat, y: nat)
    requires y <= x && 0 < y && IsGcd(g, x - y, y)
    ensures IsGcd(g, x, y)
  {
    DividesAdd(g, x - y, y);
    forall d: nat | 0 < d && Divides(d, x) && Divides(d, y)
      ensures Divides(d, g)
    {
      DividesAdd(d, x, y);
    }
  }

  lemma GcdDouble(g: nat, x: nat, y: nat)
    requires IsGcd(g, x, y)
    ensures IsGcd(2 * g, 2 * x, 2 * y)
  {
    if x != 0 || y != 0 {
      DividesDouble(g, x);
      DividesDouble(g, y);
      forall d: nat | 0 < d && Divides(d, 2 * x) && Divides(d, 2 * y)
        ensures Divides(d, 2 * g)
      {
        if d % 2 == 1 {
          OddDividesHalf(d, x);
          OddDividesHalf(d, y);
          DividesTimes(d, g, 2);
        } else {
          HalfDivides(d / 2, x);
          HalfDivides(d / 2, y);
          DividesDouble(d / 2, g);
        }
      }
    }
  }

  lemma DividesDouble(d: int, x: int)
    requires 0 < d && Divides(d, x)
    ensures Divides(2 * d, 2 * x)
  {
    MulAssoc(2, d, x / d);
    DividesBy(2 * d, 2 * x, x / d);
  }

  lemma HalfDivides(d: int, x: int)
    requires 0 < d && Divides(2 * d, 2 * x)
    ensures Divides(d, x)
  {
    hide Divides;
    var k := ExactQuotient(2 * d, 2 * x);
    MulAssoc(2, d, k);
    DividesBy(d, x, k);
  }

  lemma {:induction false} GcdScale(g: nat, x: nat, y: nat, k: nat)
    requires IsGcd(g, x, y)
    ensures IsGcd(g * Pow2(k), x * Pow2(k), y * Pow2(k))
  {
    Pow2Succ(0);
    if k > 0 {
      hide IsGcd;
      Pow2Succ(k - 1);
      GcdScale(g, x, y, k - 1);
      GcdDouble(g * Pow2(k - 1), x * Pow2(k - 1), y * Pow2(k - 1));
      TwiceScaled(g, Pow2(k - 1));
      TwiceScaled(x, Pow2(k - 1));
      TwiceScaled(y, Pow2(k - 1));
    }
  }

  lemma TwiceScaled(x: nat, h: nat)
    ensures 2 * (x * h) == x * (2 * h)
  {
  }

  // ---------------------------------------------------------------- the algorithm

  /** Every gcd of the working pair, scaled back by c, is a gcd of the operands. */
  ghost predicate Lifts(x: nat, y: nat, c: nat, a: nat, d: nat) {
    forall g: nat :: IsGcd(g, x, y) ==> IsGcd(g * c, a, d)
  }

  lemma LiftStart(a: nat, d: nat, lz: nat)
    requires Divides(Pow2(lz), a) && Divides(Pow2(lz), d)
    ensures Lifts(a / Pow2(lz), d / Pow2(lz), Pow2(lz), a, d)
  {
    hide Pow2, IsGcd;
    var x, y := a / Pow2(lz), d / Pow2(lz);
    assert a == x * Pow2(lz) && d == y * Pow2(lz);
    forall g: nat | IsGcd(g, x, y)
      ensures IsGcd(g * Pow2(lz), a, d)
    {
      GcdScale(g, x, y, lz);
    }
  }

  lemma LiftOddPart(x: nat, k: nat, y: nat, c: nat, a: nat, d: nat)
    requires y % 2 == 1 && Divides(Pow2(k), x) && Lifts(x, y, c, a, d)
    ensures Lifts(x / Pow2(k), y, c, a, d)
  {
    hide Pow2;
    forall g: nat | IsGcd(g, x / Pow2(k), y)
      ensures IsGcd(g * c, a, d)
    {
      GcdOddPart(g, x, k, y);
      hide IsGcd;
    }
  }

  lemma LiftSym(x: nat, y: nat, c: nat, a: nat, d: nat)
    requires Lifts(x, y, c, a, d)
    ensures Lifts(y, x, c, a, d)
  {
    forall g: nat | IsGcd(g, y, x)
      ensures IsGcd(g * c, a, d)
    {
      GcdSym(g, y, x);
    }
  }

  /** (x - y) / 2 for odd x and y. */
  lemma LiftHalfDifference(x: nat, y: nat, c: nat, a: nat, d: nat)
    requires y <= x && x % 2 == 1 && y % 2 == 1 && Lifts(x, y, c, a, d)
    ensures Lifts((x - y) / 2, y, c, a, d)
  {
    assert Lifts(x - y, y, c, a, d) by {
      forall g: nat | IsGcd(g, x - y, y)
        ensures IsGcd(g * c, a, d)
      {
        GcdSubtract(g, x, y);
      }
    }
    Pow2Succ(0);
    DividesBy(2, x - y, (x - y) / 2);
    LiftOddPart(x - y, 1, y, c, a, d);
  }

  lemma LiftEnd(y: nat, c: nat, a: nat, d: nat)
    requires Lifts(0, y, c, a, d)
    ensures IsGcd(y * c, a, d)
  {
    if y != 0 {
      DividesBy(y, 0, 0);
      DividesBy(y, y, 1);
    }
    assert IsGcd(y, 0, y);
  }

  /** The working pair in the loop: at least one of the two is odd while the first is not 0. */
  ghost predicate Pair(x: nat, y: nat, c: nat, a: nat, d: nat) {
    && (d == 0 <==> y == 0)
    && (d != 0 ==> (x == 0 || x % 2 == 1 || y % 2 == 1) && Lifts(x, y, c, a, d))
  }

  /** Dropping the factors of two of both numbers. */
  lemma PairShift(x: nat, y: nat, i: nat, j: nat, c: nat, a: nat, d: nat)
    requires Pair(x, y, c, a, d) && 0 < x && IsLsb(i, x)
    requires if y == 0 then j == 0 else IsLsb(j, y)
    ensures var x', y' := x / Pow2(i), y / Pow2(j);
            && Pair(x', y', c, a, d) && 0 < x' <= x && y' <= y
            && x' % 2 == 1 && (d != 0 ==> y' % 2 == 1)
  {
    hide Lifts, Pow2;
    Pow2Succ(0);
    ShrinkByPow2(x, i);
    ShrinkByPow2(y, j);
    if d != 0 {
      if y % 2 == 1 {
        LiftOddPart(x, i, y, c, a, d);
      } else {
        OddHasNoShift(x, i);
      }
      var x' := x / Pow2(i);
      LiftSym(x', y, c, a, d);
      LiftOddPart(y, j, x', c, a, d);
      LiftSym(y / Pow2(j), x', c, a, d);
    }
  }

  lemma ShrinkByPow2(x: nat, i: nat)
    ensures 0 <= x / Pow2(i) <= x
  {
    DivMono(0, x, Pow2(i));
    MulMono(1, Pow2(i), x / Pow2(i));
    DivModUnique(0, Pow2(i), 0, 0);
  }

  lemma OddHasNoShift(x: nat, i: nat)
    requires x % 2 == 1 && Divides(Pow2(i), x)
    ensures x / Pow2(i) == x
  {
    if i > 0 { ShiftedIsEven(x, i); }
  }

  lemma ShiftedIsEven(x: nat, i: nat)
    requires 0 < i && Divides(Pow2(i), x)
    ensures x % 2 == 0
  {
    Pow2Succ(i - 1);
    hide Pow2;
    MulAssoc(2, Pow2(i - 1), x / Pow2(i));
    assert x == 2 * (Pow2(i - 1) * (x / Pow2(i)));
  }

  lemma PairSubtract(x: nat, y: nat, c: nat, a: nat, d: nat)
    requires Pair(x, y, c, a, d) && x % 2 == 1 && (d != 0 ==> y % 2 == 1)
    ensures x >= y ==> Pair((x - y) / 2, y, c, a, d)
    ensures x < y ==> Pair(x, (y - x) / 2, c, a, d)
  {
    hide Lifts;
    if d != 0 {
      if x >= y {
        LiftHalfDifference(x, y, c, a, d);
      } else {
        LiftSym(x, y, c, a, d);
        LiftHalfDifference(y, x, c, a, d);
        LiftSym((y - x) / 2, x, c, a, d);
        assert y - x >= 2;
      }
    }
  }

  /** The common power of two, removed before the loop. For a zero operand lsb reports 0. */
  lemma CommonShift(a: nat, d: nat, i: nat, j: nat, lz: nat)
    requires if a == 0 then i == 0 else IsLsb(i, a)
    requires if d == 0 then j == 0 else IsLsb(j, d)
    requires lz == if j < i then j else i
    ensures Divides(Pow2(lz), a) && Divides(Pow2(lz), d)
    ensures Pair(a / Pow2(lz), d / Pow2(lz), Pow2(lz), a, d)
  {
    hide Pow2, Lifts;
    Pow2Succ(0);
    LowerPower(a, i, lz);
    LowerPower(d, j, lz);
    LiftStart(a, d, lz);
    assert d == Pow2(lz) * (d / Pow2(lz)) && Pow2(lz) * 0 == 0;
    if a == 0 { DivModUnique(0, Pow2(lz), 0, 0); }
    if d == 0 { DivModUnique(0, Pow2(lz), 0, 0); }
  }

  lemma LowerPower(a: nat, i: nat, lz: nat)
    requires lz <= i && Divides(Pow2(i), a)
    ensures Divides(Pow2(lz), a)
  {
    Pow2Add(lz, i - lz);
    DividesBy(Pow2(lz), Pow2(i), Pow2(i - lz));
    DividesTrans(Pow2(lz), Pow2(i), a);
  }

  /** One pass of the loop body. */
  method GcdStep(TA: Mpi, TB: Mpi, ghost c: nat, ghost a: nat, ghost d: nat)
    requires TA != TB && TA.s == 1 && TB.s == 1 && 0 < Val(TA.p)
    requires Pair(Val(TA.p), Val(TB.p), c, a, d)
    modifies TA, TB
    ensures TA.s == 1 && TB.s == 1 && Pair(Val(TA.p), Val(TB.p), c, a, d)
    ensures Val(TA.p) + Val(TB.p) < old(Val(TA.p)) + old(Val(TB.p))
  {
    hide Val, BPow, Pow2, Pair;
    ghost var x, y := Val(TA.p), Val(TB.p);
    var i := Lsb(TA);
    var j := Lsb(TB);
    PairShift(x, y, i, j, c, a, d);
    ShiftR(TA, i);
    ShiftR(TB, j);
    PairSubtract(Val(TA.p), Val(TB.p), c, a, d);
    Pow2Succ(0);
    var cmp := CmpMpi(TA, TB);
    if cmp >= 0 {
      CopiedEnough(TA, TA, TB);
      var ret := SubAbs(TA, TA, TB);
      ShiftR(TA, 1);
    } else {
      CopiedEnough(TB, TB, TA);
      var ret := SubAbs(TB, TB, TA);
      ShiftR(TB, 1);
    }
  }

  /** The result is the gcd exactly when B is not zero or both operands are; gcd(A, 0) gives 0. */
  method Gcd(G: Mpi, A: Mpi, D: Mpi)
    requires G.Ok() && A.Ok() && D.Ok()
    modifies G
    ensures G.s == 1
    ensures IsGcd(Val(G.p), old(Val(A.p)), old(Val(D.p))) <==> old(Val(D.p)) != 0 || old(Val(A.p)) == 0
    ensures old(Val(D.p)) == 0 ==> Val(G.p) == 0
  {
    hide Val, BPow, Pow2, Pair;
    ghost var a, d := Val(A.p), Val(D.p);
    var TA := new Mpi();
    var TB := new Mpi();
    Copy(TA, A);
    Copy(TB, D);
    var lz := Lsb(TA);
    var lzt := Lsb(TB);
    ghost var i := lz;
    if lzt < lz {
      lz := lzt;
    }
    CommonShift(a, d, i, lzt, lz);
    ShiftR(TA, lz);
    ShiftR(TB, lz);
    TA.s, TB.s := 1, 1;
    var c := CmpInt(TA, 0);
    while c != 0
      invariant TA.s == 1 && TB.s == 1 && fresh(TA) && fresh(TB) && TA != TB
      invariant c == Sgn(TA.Int() - 0)
      invariant Pair(Val(TA.p), Val(TB.p), Pow2(lz), a, d)
      decreases Val(TA.p) + Val(TB.p)
    {
      GcdStep(TA, TB, Pow2(lz), a, d);
      c := CmpInt(TA, 0);
    }
    PairEnd(Val(TB.p), Pow2(lz), a, d);
    ShiftL(TB, lz);
    Copy(G, TB);
  }

  lemma PairEnd(y: nat, c: nat, a: nat, d: nat)
    requires Pair(0, y, c, a, d)
    ensures d == 0 ==> y * c == 0
    ensures IsGcd(y * c, a, d) <==> d != 0 || a == 0
  {
    if d != 0 { LiftEnd(y, c, a, d); }
  }
}
