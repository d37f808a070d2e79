/** Long division and reduction of mbedtls/library/bignum.c. */
module MpiDiv {
  import opened Arith
  import opened Limbs
  import opened Mpis
  import opened MpiShift
  import opened MpiAdd
  import opened MpiMul
  import IntDiv

  const ERR_DIVISION_BY_ZERO: int := -0x000C

  // ---------------------------------------------------------------- what division means

  /** Quotient truncated towards zero and the remainder that goes with it. */
  function Quot(a: int, d: int): int
    requires d != 0
  {
    var q := AbsInt(a) / AbsInt(d);
    if a < 0 <==> d < 0 then q else -q
  }

  function Rem(a: int, d: int): int
    requires d != 0
  {
    var r := AbsInt(a) % AbsInt(d);
    if a < 0 then -r else r
  }

  /** Quot and Rem are the only pair with a = q * d + r, |r| < |d| and r carrying the sign of a. */
  lemma QuotRem(a: int, d: int)
    requires d != 0
    ensures a == Quot(a, d) * d + Rem(a, d)
    ensures AbsInt(Rem(a, d)) < AbsInt(d)
    ensures Rem(a, d) == 0 || Sgn(Rem(a, d)) == Sgn(a)
  {
    var m, n := AbsInt(a), AbsInt(d);
    var q: int, r: int := m / n, m % n;
    assert m == n * q + r && 0 <= r < n;
    NegMul(q, n);
  }

  lemma NegMul(q: int, n: int)
    ensures (-q) * n == -(n * q) && q * (-n) == -(n * q) && (-q) * (-n) == n * q && q * n == n * q
  {
  }

  lemma QuotRemUnique(a: int, d: int, q: int, r: int)
    requires d != 0 && a == q * d + r && AbsInt(r) < AbsInt(d) && (r == 0 || Sgn(r) == Sgn(a))
    ensures q == Quot(a, d) && r == Rem(a, d)
  {
    var n: int := AbsInt(d);
    var q' := if a < 0 <==> d < 0 then q else -q;
    NegMul(q, n);
    NegMul(q', n);
    UnsignedPair(a, n, q', if a < 0 then -r else r);
  }

  lemma UnsignedPair(a: int, n: int, q: int, r: int)
    requires 0 < n && a == (if a < 0 then -(n * q) - r else n * q + r) && AbsInt(r) < n
    requires r == 0 || Sgn(r) == AbsInt(Sgn(a))
    ensures AbsInt(a) / n == q && AbsInt(a) % n == r
  {
    DivModUnique(AbsInt(a), n, q, r);
  }

  // ---------------------------------------------------------------- the quotient digit

  /** x3 is x scaled by B^2 and cut off below B^i; y2 is y scaled by B and cut off below bt. */
  ghost predicate Leads(x: nat, x3: nat, bi: nat, y: nat, y2: nat, bt: nat) {
    && x3 * bi <= x * (B * B) < (x3 + 1) * bi
    && y2 * bt <= y * B < (y2 + 1) * bt
  }

  lemma Rescale(q: nat, y: nat, s: nat)
    ensures q * (y * B) * (B * s) == q * (y * s) * (B * B)
  {
    MulAssoc(q, y * B, B * s);
    assert y * B * (B * s) == y * s * (B * B);
    MulAssoc(q, y * s, B * B);
  }

  lemma RescaleSum(x3: nat, bt: nat, s: nat)
    ensures (x3 + B) * bt * (B * s) == x3 * (bt * (B * s)) + bt * s * (B * B)
  {
    MulAssoc(x3 + B, bt, B * s);
    assert B * (bt * (B * s)) == bt * s * (B * B);
  }

  /** A digit whose product with the leading limbs is too large is too large. */
  lemma DigitTooBig(x: nat, x3: nat, y: nat, y2: nat, q: nat, bt: nat, s: nat)
    requires Leads(x, x3, bt * (B * s), y, y2, bt) && q * y2 > x3
    ensures q * (y * s) > x
  {
    MulMono(x3 + 1, q * y2, bt);
    MulMono(y2 * bt, y * B, q);
    MulAssoc(q, y2, bt);
    MulMono((x3 + 1) * bt, q * (y * B), B * s);
    MulAssoc(x3 + 1, bt, B * s);
    Rescale(q, y, s);
    MulCancelLess(x, q * (y * s), B * B);
  }

  /** A digit whose product with the leading limbs fits is at most one too large. */
  lemma DigitClose(x: nat, x3: nat, y: nat, y2: nat, q: nat, bt: nat, s: nat)
    requires Leads(x, x3, bt * (B * s), y, y2, bt) && q * y2 <= x3 && q < B && 0 < bt <= y && 0 < s
    ensures q * (y * s) < x + y * s
  {
    DigitCloseTop(x3, y, y2, q, bt);
    MulMonoStrict(q * (y * B), (x3 + B) * bt, B * s);
    RescaleSum(x3, bt, s);
    MulMono(bt, y, s);
    MulMono(bt * s, y * s, B * B);
    Rescale(q, y, s);
    assert (x + y * s) * (B * B) == x * (B * B) + y * s * (B * B);
    MulCancelLess(q * (y * s), x + y * s, B * B);
  }

  lemma DigitCloseTop(x3: nat, y: nat, y2: nat, q: nat, bt: nat)
    requires y * B < (y2 + 1) * bt && q * y2 <= x3 && q < B && 0 < bt
    ensures q * (y * B) < (x3 + B) * bt
  {
    MulMono(y * B, (y2 + 1) * bt, q);
    assert q * ((y2 + 1) * bt) == (q * y2 + q) * bt by {
      MulAssoc(q, y2 + 1, bt);
    }
    MulMonoStrict(q * y2 + q, x3 + B, bt);
  }

  /** The first estimate, from two limbs of x and one of y, is not below the digit. */
  lemma DigitEnough(x: nat, x2: nat, y: nat, y1: nat, q: nat, bt: nat, s: nat)
    requires x < (x2 + 1) * (bt * s) && y1 * bt <= y && x2 < (q + 1) * y1
    ensures (q + 1) * (y * s) > x
  {
    MulMono(x2 + 1, (q + 1) * y1, bt * s);
    MulMono(y1 * bt, y, (q + 1) * s);
    assert (q + 1) * y1 * (bt * s) == y1 * bt * ((q + 1) * s) by { MulShuffle(q + 1, y1, s, bt); }
    assert y * ((q + 1) * s) == (q + 1) * (y * s) by { MulAssoc(y, q + 1, s); MulAssoc(q + 1, y, s); }
  }

  // ---------------------------------------------------------------- limbs of the operands

  function Top3(p: seq<Limb>, i: nat): nat
    requires 1 <= i < |p|
  {
    p[i] * (B * B) + p[i - 1] * B + (if i < 2 then 0 else p[i - 2])
  }

  function Top2(p: seq<Limb>, t: nat): nat
    requires t < |p|
  {
    p[t] * B + (if t < 1 then 0 else p[t - 1])
  }

  lemma Top2Leads(p: seq<Limb>, t: nat)
    requires t < |p| && Val(p) < BPow(t + 1)
    ensures Top2(p, t) * BPow(t) <= Val(p) * B < (Top2(p, t) + 1) * BPow(t)
    ensures p[t] * BPow(t) <= Val(p) < (p[t] as int + 1) * BPow(t)
  {
    hide Val, BPow;
    ValSmall(p, t + 1);
    ValSnoc(p, t);
    ValBound(p[..t]);
    var x: nat := p[t];
    assert (x + 1) * BPow(t) == x * BPow(t) + BPow(t);
    if t == 0 {
      BPow0();
      assert p[..0] == [];
      ValEmpty();
    } else {
      ValSnoc(p, t - 1);
      ValBound(p[..t - 1]);
      BPowSucc(t - 1);
      Top2Ints(p[t], p[t - 1], Val(p[..t - 1]), BPow(t - 1));
    }
  }

  lemma Top2Ints(a: nat, b: nat, lo: nat, bp: nat)
    requires lo < bp
    ensures (a * B + b) * (B * bp) <= (lo + b * bp + a * (B * bp)) * B < (a * B + b + 1) * (B * bp)
  {
    assert (a * B + b) * (B * bp) == (b * bp + a * (B * bp)) * B by {
      assert a * B * (B * bp) == a * (B * bp) * B by { MulAssoc(a, B, B * bp); MulAssoc(a, B * bp, B); }
      assert b * (B * bp) == b * bp * B by { MulAssoc(b, B, bp); MulAssoc(b, bp, B); }
    }
    assert (a * B + b + 1) * (B * bp) == (a * B + b) * (B * bp) + B * bp;
  }

  lemma Top3Leads(p: seq<Limb>, i: nat)
    requires 1 <= i < |p| && Val(p) < BPow(i + 1)
    ensures Top3(p, i) * BPow(i) <= Val(p) * (B * B) < (Top3(p, i) + 1) * BPow(i)
    ensures Val(p) < (p[i] * B + p[i - 1] + 1) * BPow(i - 1)
  {
    hide Val, BPow;
    ValSmall(p, i + 1);
    ValSnoc(p, i);
    ValSnoc(p, i - 1);
    ValBound(p[..i - 1]);
    BPowSucc(i - 1);
    var bp, lo := BPow(i - 1), Val(p[..i - 1]);
    assert (p[i] * B + p[i - 1] + 1) * bp == p[i] * (B * bp) + p[i - 1] * bp + bp by {
      MulAssoc(p[i], B, bp);
    }
    if i == 1 {
      BPow0();
      assert p[..0] == [];
      ValEmpty();
    } else {
      ValSnoc(p, i - 2);
      ValBound(p[..i - 2]);
      BPowSucc(i - 2);
      Top3Ints(p[i], p[i - 1], p[i - 2], Val(p[..i - 2]), BPow(i - 2));
    }
  }

  lemma Top3Ints(a: nat, b: nat, c: nat, lo: nat, bp: nat)
    requires lo < bp
    ensures (a * (B * B) + b * B + c) * (B * (B * bp))
         <= (lo + c * bp + b * (B * bp) + a * (B * (B * bp))) * (B * B)
          < (a * (B * B) + b * B + c + 1) * (B * (B * bp))
  {
    var u := a * (B * B) + b * B + c;
    assert u * (B * (B * bp)) == u * bp * (B * B) by {
      assert B * (B * bp) == bp * (B * B);
      MulAssoc(u, bp, B * B);
    }
    assert u * bp == c * bp + b * (B * bp) + a * (B * (B * bp)) by {
      assert a * (B * B) * bp == a * (B * (B * bp)) by { MulAssoc(a, B * B, bp); MulAssoc(B, B, bp); }
      MulAssoc(b, B, bp);
    }
    assert (u + 1) * (B * (B * bp)) == u * (B * (B * bp)) + bp * (B * B);
  }

  lemma ValTwo(a: Limb, b: Limb)
    ensures Val([a, b]) == a + B * b
  {
    ValCons([a, b]);
    assert [a, b][1..] == [b];
    ValSingle(b);
  }

  lemma ValThree(a: Limb, b: Limb, c: Limb)
    ensures Val([a, b, c]) == a + B * b + B * B * c
  {
    ValCons([a, b, c]);
    assert [a, b, c][1..] == [b, c];
    ValTwo(b, c);
  }

  // ---------------------------------------------------------------- one digit

  /** z times the divisor y shifted up by k limbs. */
  ghost function Scaled(z: nat, y: nat, k: nat): nat {
    z * (y * BPow(k))
  }

  lemma ScaledSucc(z: nat, y: nat, k: nat)
    ensures Scaled(z + 1, y, k) == Scaled(z, y, k) + Scaled(1, y, k) && Scaled(0, y, k) == 0
    ensures Scaled(1, y, k) == y * BPow(k)
  {
    assert (z + 1) * (y * BPow(k)) == z * (y * BPow(k)) + y * BPow(k);
  }

  /** The operands of one step: x below y * B^(i - t), both with their top limb at i and t. */
  ghost predicate StepReady(x: seq<Limb>, y: seq<Limb>, i: nat, t: nat) {
    && t < i < |x| && t < |y|
    && Val(x) < BPow(i + 1) && BPow(t) <= Val(y) < BPow(t + 1)
    && Val(x) < Val(y) * BPow(i - t)
  }

  /** z is not below the quotient digit. */
  ghost predicate NotBelow(x: seq<Limb>, y: seq<Limb>, i: nat, t: nat, z: nat)
    requires t < i
  {
    Val(x) < (z + 1) * (Val(y) * BPow(i - t - 1))
  }

  lemma FirstGuess(x: seq<Limb>, y: seq<Limb>, i: nat, t: nat)
    requires StepReady(x, y, i, t)
    ensures NotBelow(x, y, i, t, B - 1) && 0 < y[t]
  {
    hide Val, BPow, Leads, Top2, Top3;
    DigitSetup(x, y, i, t);
  }

  lemma TwoLimbGuess(x: seq<Limb>, y: seq<Limb>, i: nat, t: nat, z: Limb)
    requires StepReady(x, y, i, t) && 0 < y[t] && z == (x[i] * B + x[i - 1]) / y[t]
    ensures NotBelow(x, y, i, t, z)
  {
    hide Val, BPow, Leads, Top2, Top3;
    DigitSetup(x, y, i, t);
    var n, d: nat := x[i] * B + x[i - 1], y[t];
    assert n < (z as int + 1) * d;
    DigitEnough(Val(x), n, Val(y), d, z, BPow(t), BPow(i - t - 1));
  }

  lemma LowerGuess(x: seq<Limb>, y: seq<Limb>, i: nat, t: nat, z: Limb)
    requires StepReady(x, y, i, t) && Top2(y, t) * z > Top3(x, i)
    ensures 0 < z && WSub(z, 1) == z - 1 && NotBelow(x, y, i, t, z - 1)
  {
    hide Val, BPow, Leads, Top2, Top3;
    DigitSetup(x, y, i, t);
    var y2: int := Top2(y, t);
    assert z * y2 == y2 * z;
    assert y2 * 0 == 0;
    WExact(z - 1);
    DigitTooBig(Val(x), Top3(x, i), Val(y), Top2(y, t), z, BPow(t), BPow(i - t - 1));
  }

  lemma GoodGuess(x: seq<Limb>, y: seq<Limb>, i: nat, t: nat, z: Limb)
    requires StepReady(x, y, i, t) && Top2(y, t) * z <= Top3(x, i)
    ensures z * (Val(y) * BPow(i - t - 1)) < Val(x) + Val(y) * BPow(i - t - 1)
  {
    hide Val, BPow, Leads, Top2, Top3;
    DigitSetup(x, y, i, t);
    var y2: int := Top2(y, t);
    assert z * y2 == y2 * z;
    DigitClose(Val(x), Top3(x, i), Val(y), Top2(y, t), z, BPow(t), BPow(i - t - 1));
  }

  lemma PlusMinus(z: Limb)
    ensures WSub(WAdd(z, 1), 1) == z
  {
    WAddCarry(z, 1);
    WSubBorrow(WAdd(z, 1), 1);
  }

  /** The estimate of one quotient digit, corrected against three limbs of x: the result is
      the digit or one more. */
  method EstimateDigit(x: seq<Limb>, y: seq<Limb>, i: nat, t: nat) returns (z: Limb)
    requires StepReady(x, y, i, t)
    ensures Scaled(z, Val(y), i - t - 1) < Val(x) + Scaled(1, Val(y), i - t - 1)
    ensures Val(x) < Scaled(z, Val(y), i - t - 1) + Scaled(1, Val(y), i - t - 1)
  {
    hide Scaled;
    FirstGuess(x, y, i, t);
    hide Val, BPow, Top2, Top3, NotBelow, WSub, WAdd;
    if x[i] >= y[t] {
      z := IntDiv.ALL_ONES;
    } else {
      var r;
      z, r := IntDiv.IntDivInt(x[i], x[i - 1], y[t]);
      TwoLimbGuess(x, y, i, t, z);
    }
    var T2 := new Mpi();
    T2.p := [if i < 2 then 0 else x[i - 2], x[i - 1], x[i]];
    ThreeLimbs(T2.p, x, i);
    var T1 := new Mpi();
    Grow(T1, 2);
    PlusMinus(z);
    ghost var guess: Limb := z;
    z := WAdd(z, 1);
    var again := true;
    while again
      invariant fresh(T1) && fresh(T2) && T1 != T2
      invariant T1.s == 1 && |T1.p| >= 2 && T2.s == 1 && Val(T2.p) == Top3(x, i)
      invariant NotBelow(x, y, i, t, guess)
      invariant again ==> WSub(z, 1) == guess
      invariant !again ==> z == guess && Top2(y, t) * z <= Top3(x, i)
      decreases if again then guess + 1 else 0
    {
      z := WSub(z, 1);
      Lset(T1, 0);
      T1.p := [if t < 1 then 0 else y[t - 1], y[t]] + Zeros(|T1.p| - 2);
      TwoLimbs(T1.p, y, t);
      MulInt(T1, T1, z);
      var c := CmpMpi(T1, T2);
      again := c > 0;
      if again {
        LowerGuess(x, y, i, t, z);
        guess := z - 1;
      }
    }
    GoodGuess(x, y, i, t, z);
    DigitWindow(x, y, i, t, z);
  }

  lemma TwoLimbs(p: seq<Limb>, y: seq<Limb>, t: nat)
    requires t < |y| && 2 <= |p|
    requires p == [if t < 1 then 0 else y[t - 1], y[t]] + Zeros(|p| - 2)
    ensures Val(p) == Top2(y, t)
  {
    hide Val, BPow;
    ValHighZeros(p, 2);
    assert p[..2] == [if t < 1 then 0 else y[t - 1], y[t]];
    ValTwo(if t < 1 then 0 else y[t - 1], y[t]);
  }

  lemma ThreeLimbs(p: seq<Limb>, x: seq<Limb>, i: nat)
    requires 1 <= i < |x| && p == [if i < 2 then 0 else x[i - 2], x[i - 1], x[i]]
    ensures Val(p) == Top3(x, i)
  {
    hide Val, BPow;
    ValThree(if i < 2 then 0 else x[i - 2], x[i - 1], x[i]);
  }

  /** The facts about leading limbs that the digit estimate rests on. */
  lemma DigitSetup(x: seq<Limb>, y: seq<Limb>, i: nat, t: nat)
    requires StepReady(x, y, i, t)
    ensures Leads(Val(x), Top3(x, i), BPow(t) * (B * BPow(i - t - 1)), Val(y), Top2(y, t), BPow(t))
    ensures Val(x) < (x[i] * B + x[i - 1] + 1) * (BPow(t) * BPow(i - t - 1))
    ensures y[t] * BPow(t) <= Val(y) && 0 < y[t]
    ensures Val(x) < B * (Val(y) * BPow(i - t - 1))
  {
    hide Val, BPow, Top2, Top3;
    Top3Leads(x, i);
    Top2Leads(y, t);
    BPowSucc(i - t - 1);
    BPowAdd(t, i - t);
    BPowAdd(t, i - t - 1);
    assert Val(y) * (B * BPow(i - t - 1)) == B * (Val(y) * BPow(i - t - 1)) by {
      MulAssoc(Val(y), B, BPow(i - t - 1));
      MulAssoc(B, Val(y), BPow(i - t - 1));
    }
  }

  // ---------------------------------------------------------------- one step of the long division

  /** X -= z * Y * B^k. */
  method SubScaled(X: Mpi, Y: Mpi, T1: Mpi, z: Limb, k: nat)
    requires X != Y && X != T1 && Y != T1 && X.Ok() && Y.s == 1 && T1.Ok() && |X.p| > 0
    modifies X, T1
    ensures X.Ok() && T1.Ok() && |X.p| >= |old(X.p)|
    ensures X.Int() == old(X.Int()) - Scaled(z, Val(Y.p), k)
  {
    hide Val, Pow2, Scaled;
    MulInt(T1, Y, z);
    ShiftL(T1, BIL * k);
    ShiftedProduct(Val(Y.p), z, k);
    SubMpi(X, X, T1);
  }

  /** X += Y * B^k. */
  method AddShifted(X: Mpi, Y: Mpi, T1: Mpi, k: nat)
    requires X != Y && X != T1 && Y != T1 && X.Ok() && Y.s == 1 && T1.Ok() && |X.p| > 0 && |Y.p| > 0
    modifies X, T1
    ensures X.Ok() && T1.Ok() && |X.p| >= |old(X.p)|
    ensures X.Int() == old(X.Int()) + Scaled(1, Val(Y.p), k)
  {
    hide Val, Pow2, Scaled;
    Copy(T1, Y);
    ShiftL(T1, BIL * k);
    ShiftedProduct(Val(Y.p), 1, k);
    AddMpi(X, X, T1);
  }

  lemma ShiftedProduct(y: nat, z: nat, k: nat)
    ensures y * z * Pow2(BIL * k) == Scaled(z, y, k)
    ensures y * Pow2(BIL * k) == Scaled(1, y, k)
  {
    BPowIsPow2(k);
    MulAssoc(z, y, BPow(k));
  }

  /** Subtract digit times shifted divisor; add the divisor back once if that went below zero. */
  method DivStep(X: Mpi, Y: Mpi, T1: Mpi, i: nat, t: nat) returns (z: Limb)
    requires X != Y && X != T1 && Y != T1 && X.Ok() && Y.s == 1 && T1.Ok()
    requires 0 <= X.Int() && StepReady(X.p, Y.p, i, t)
    modifies X, T1
    ensures X.Ok() && T1.Ok() && |X.p| >= |old(X.p)|
    ensures 0 <= X.Int() < Scaled(1, Val(Y.p), i - t - 1)
    ensures X.Int() == old(X.Int()) - Scaled(z, Val(Y.p), i - t - 1)
  {
    StepShape(X.p, Y.p, i, t);
    hide Val, WSub, Scaled, BPow, StepReady;
    var k := i - t - 1;
    z := EstimateDigit(X.p, Y.p, i, t);
    SubScaled(X, Y, T1, z, k);
    var c := CmpInt(X, 0);
    if c < 0 {
      ScaledSucc(0, Val(Y.p), k);
      AddShifted(X, Y, T1, k);
      ScaledSucc(z - 1, Val(Y.p), k);
      WExact(z - 1);
      z := WSub(z, 1);
    }
  }

  lemma StepShape(x: seq<Limb>, y: seq<Limb>, i: nat, t: nat)
    requires StepReady(x, y, i, t)
    ensures t < i && |x| > 0 && |y| > 0
  {
  }

  lemma DigitWindow(x: seq<Limb>, y: seq<Limb>, i: nat, t: nat, z: Limb)
    requires t < i && NotBelow(x, y, i, t, z)
    requires z * (Val(y) * BPow(i - t - 1)) < Val(x) + Val(y) * BPow(i - t - 1)
    ensures Scaled(z, Val(y), i - t - 1) < Val(x) + Scaled(1, Val(y), i - t - 1)
    ensures Val(x) < Scaled(z, Val(y), i - t - 1) + Scaled(1, Val(y), i - t - 1)
  {
    hide Val, BPow;
    ScaledSucc(z, Val(y), i - t - 1);
  }

  // ---------------------------------------------------------------- normalisation

  /** The number of limbs a bit length needs brackets the value. */
  lemma LimbsForBits(v: nat)
    requires 0 < v
    ensures var m := BitsToLimbs(BitLen(v)); 0 < m && BPow(m - 1) <= v < BPow(m)
  {
    hide BitLen, Pow2, BPow;
    var n := BitLen(v);
    BitLenProps(v);
    var m := BitsToLimbs(n);
    BPowIsPow2(m);
    BPowIsPow2(m - 1);
    PowMono(2, n, 64 * m);
    PowMono(2, 64 * (m - 1), n - 1);
    Pow2Is(n);
    Pow2Is(n - 1);
    Pow2Is(64 * m);
    Pow2Is(64 * (m - 1));
  }

  lemma Pow2Is(e: nat)
    ensures Pow2(e) == Pow(2, e)
  {
  }

  lemma ShiftedLimbs(p: seq<Limb>, k: nat)
    requires 0 < Val(p) && k < BIL
    ensures var m := Max(SigLen(p), BitsToLimbs(BitLen(Val(p)) + k));
            0 < m <= |p| + 1 && BPow(m - 1) <= Val(p) * Pow2(k) < BPow(m)
  {
    hide Val, BPow, BitLen, Pow2;
    var v := Val(p);
    BitLenShift(v, k);
    MulMono(1, Pow2(k), v);
    LimbsForBits(v * Pow2(k));
    SigLenBound(p, BitsToLimbs(BitLen(v) + k));
    SigLenProps(p);
    BPowIsPow2(SigLen(p));
    BitLenBound(v, 64 * SigLen(p));
  }

  /** Copies of |A| and |D| shifted so that the bit length of D is 63 modulo 64. */
  method Normalise(X: Mpi, Y: Mpi, A: Mpi, D: Mpi) returns (k: nat)
    requires X != Y && X != A && X != D && Y != A && Y != D
    requires X.p == [] && Y.p == [] && X.Ok() && Y.Ok() && A.Ok() && D.Ok()
    requires 0 < Val(D.p) <= Val(A.p)
    modifies X, Y
    ensures X.s == 1 && Y.s == 1 && k < BIL
    ensures BitLen(Val(Y.p)) % BIL == BIL - 1
    ensures Val(X.p) == Val(A.p) * Pow2(k) && Val(Y.p) == Val(D.p) * Pow2(k)
    ensures 0 < |Y.p| <= |X.p| <= |A.p| + 1
    ensures BPow(|Y.p| - 1) <= Val(Y.p) && Val(Y.p) <= Val(X.p)
  {
    hide Val, BPow, BitLen, Pow2, BitsToLimbs;
    SigLenProps(A.p);
    SigLenProps(D.p);
    hide SigLen;
    Copy(X, A);
    Copy(Y, D);
    X.s, Y.s := 1, 1;
    var bits := Bitlen(Y);
    k := bits % BIL;
    if k < BIL - 1 {
      k := BIL - 1 - k;
      ShiftL(X, k);
      ShiftL(Y, k);
    } else {
      k := 0;
      Pow2Succ(0);
    }
    NormalisedLimbs(A.p, D.p, k, X.p, Y.p);
  }

  /** One operand after the shift: its top limb is not zero. */
  lemma OperandLimbs(p: seq<Limb>, k: nat, n: nat)
    requires 0 < Val(p) && k < BIL
    requires n == Max(SigLen(p), if k == 0 then 0 else BitsToLimbs(BitLen(Val(p)) + k))
    ensures 0 < n <= |p| + 1 && BPow(n - 1) <= Val(p) * Pow2(k) < BPow(n)
  {
    hide Val, BPow, BitLen, Pow2;
    if k == 0 {
      SigLenProps(p);
      Pow2Succ(0);
    } else {
      ShiftedLimbs(p, k);
    }
  }

  lemma NormalisedLimbs(a: seq<Limb>, d: seq<Limb>, k: nat, x: seq<Limb>, y: seq<Limb>)
    requires 0 < Val(d) <= Val(a) && k < BIL
    requires Val(x) == Val(a) * Pow2(k) && Val(y) == Val(d) * Pow2(k)
    requires |x| == Max(SigLen(a), if k == 0 then 0 else BitsToLimbs(BitLen(Val(a)) + k))
    requires |y| == Max(SigLen(d), if k == 0 then 0 else BitsToLimbs(BitLen(Val(d)) + k))
    ensures BitLen(Val(y)) == BitLen(Val(d)) + k
    ensures 0 < |y| <= |x| <= |a| + 1
    ensures BPow(|y| - 1) <= Val(y) <= Val(x)
  {
    hide Val, BPow, BitLen, Pow2, SigLen, BitsToLimbs;
    BitLenShift(Val(d), k);
    OperandLimbs(a, k, |x|);
    OperandLimbs(d, k, |y|);
    MulMono(Val(d), Val(a), Pow2(k));
    if |x| < |y| { BPowMono(|x|, |y| - 1); }
  }

  // ---------------------------------------------------------------- the division

  /** What the digits produced so far and the running remainder account for. */
  ghost predicate Progress(v: nat, y: nat, z: seq<Limb>, x: int, k: nat) {
    && k < |z|
    && 0 <= x && v == Val(z) * y + x
    && forall j :: 0 <= j < k ==> z[j] == 0
  }

  lemma ProgressStep(v: nat, y: nat, z: seq<Limb>, x: int, k: nat, q: Limb, x': int)
    requires Progress(v, y, z, x, k + 1) && 0 <= x' == x - Scaled(q, y, k)
    ensures Progress(v, y, z[k := q], x', k)
  {
    hide Val, BPow;
    ValUpdate(z, k, q);
    assert (Val(z) + (q - 0) * BPow(k)) * y == Val(z) * y + q * BPow(k) * y;
    assert q * BPow(k) * y == q * (y * BPow(k)) by { MulAssoc(q, BPow(k), y); }
  }

  /** Below y * B^(i - t), limb i is the last that can be nonzero. */
  lemma StepReadyFrom(x: seq<Limb>, y: seq<Limb>, i: nat, t: nat)
    requires t < i < |x| && t < |y| && BPow(t) <= Val(y) < BPow(t + 1)
    requires Val(x) < Scaled(1, Val(y), i - t)
    ensures StepReady(x, y, i, t)
  {
    hide Val, BPow;
    ScaledSucc(0, Val(y), i - t);
    BPowAdd(t + 1, i - t);
    MulMono(Val(y), BPow(t + 1), BPow(i - t));
  }

  /** The top digit, found by repeated subtraction of the divisor shifted to the top. */
  method TopDigit(X: Mpi, Y: Mpi, Z: Mpi, m: nat, ghost v: nat, ghost y: nat)
    requires X != Y && X != Z && Y != Z && X.Ok() && Y.s == 1 && |X.p| > 0 && |Y.p| > 0
    requires m < |Z.p| && forall j :: 0 <= j < |Z.p| ==> Z.p[j] == 0
    requires X.Int() == v && Val(Y.p) == Scaled(1, y, m) && 0 < y && v < B * Scaled(1, y, m)
    modifies X, Z
    ensures X.Ok() && |X.p| >= |old(X.p)| && Z.s == old(Z.s) && |Z.p| == |old(Z.p)|
    ensures Progress(v, y, Z.p, X.Int(), m)
    ensures 0 <= X.Int() < Scaled(1, y, m)
  {
    hide Val, BPow, Scaled;
    ghost var ys := Scaled(1, y, m);
    ghost var z0 := Z.p;
    ScaledPositive(y, m);
    ScaledSucc(0, y, m);
    var c := CmpMpi(X, Y);
    while c >= 0
      invariant X.Ok() && |X.p| >= |old(X.p)| && Z.s == old(Z.s) && |Z.p| == |z0| && 0 <= X.Int()
      invariant c == Sgn(X.Int() - ys)
      invariant Z.p == z0[m := Z.p[m]] && v == Scaled(Z.p[m], y, m) + X.Int()
      decreases X.Int()
    {
      ScaledSucc(Z.p[m], y, m);
      NoOverflow(Z.p[m], y, m, v);
      Z.p := Z.p[m := Z.p[m] + 1];
      SubMpi(X, X, Y);
      c := CmpMpi(X, Y);
    }
    TopProgress(v, y, z0, m, Z.p[m], X.Int());
  }

  lemma ScaledPositive(y: nat, m: nat)
    requires 0 < y
    ensures 0 < Scaled(1, y, m)
  {
    MulMono(1, y, BPow(m));
  }

  lemma NoOverflow(z: Limb, y: nat, m: nat, v: nat)
    requires Scaled(z + 1, y, m) <= v < B * Scaled(1, y, m)
    ensures z + 1 < B
  {
    var ys := Scaled(1, y, m);
    assert Scaled(z + 1, y, m) == (z + 1) * ys;
    MulCancelLess(z + 1, B, ys);
  }

  lemma TopProgress(v: nat, y: nat, z0: seq<Limb>, m: nat, q: Limb, x: int)
    requires m < |z0| && forall j :: 0 <= j < |z0| ==> z0[j] == 0
    requires 0 <= x && v == Scaled(q, y, m) + x
    ensures Progress(v, y, z0[m := q], x, m)
  {
    hide Val, BPow;
    ValZeros(z0);
    ValUpdate(z0, m, q);
    assert q * BPow(m) * y == q * (y * BPow(m)) by { MulAssoc(q, BPow(m), y); }
  }

  /** X and Z become remainder and quotient of X by Y, digit by digit from the top. */
  method LongDivision(X: Mpi, Y: Mpi, Z: Mpi, T1: Mpi, n: nat, t: nat)
    requires X != Y && X != Z && X != T1 && Y != Z && Y != T1 && Z != T1
    requires X.s == 1 && Y.s == 1 && T1.Ok() && t <= n && |X.p| == n + 1 && |Y.p| == t + 1
    requires BPow(t) <= Val(Y.p)
    requires n - t < |Z.p| && forall j :: 0 <= j < |Z.p| ==> Z.p[j] == 0
    modifies X, Y, Z, T1
    ensures X.Ok() && Z.s == old(Z.s) && |X.p| > n && |Z.p| == |old(Z.p)|
    ensures 0 <= X.Int() < old(Val(Y.p))
    ensures old(Val(X.p)) == Val(Z.p) * old(Val(Y.p)) + X.Int()
  {
    hide Val, BPow, Scaled, Progress, StepReady, Pow2;
    ghost var v, y := Val(X.p), Val(Y.p);
    LongStart(X.p, Y.p, n, t);
    ShiftL(Y, BIL * (n - t));
    ShiftedProduct(y, 1, n - t);
    TopDigit(X, Y, Z, n - t, v, y);
    ShiftR(Y, BIL * (n - t));
    ShiftBack(y, BIL * (n - t));
    var i := n;
    while i > t
      invariant t <= i <= n
      invariant X.Ok() && T1.Ok() && Y.s == 1 && Z.s == old(Z.s) && |X.p| > n && |Y.p| > t && |Z.p| == |old(Z.p)|
      invariant Val(Y.p) == y && 0 <= X.Int() < Scaled(1, y, i - t)
      invariant Progress(v, y, Z.p, X.Int(), i - t)
    {
      StepReadyFrom(X.p, Y.p, i, t);
      ghost var x := X.Int();
      var z := DivStep(X, Y, T1, i, t);
      ProgressStep(v, y, Z.p, x, i - t - 1, z, X.Int());
      Z.p := Z.p[i - t - 1 := z];
      i := i - 1;
    }
    ProgressEnd(v, y, Z.p, X.Int());
  }

  lemma LongStart(x: seq<Limb>, y: seq<Limb>, n: nat, t: nat)
    requires t <= n && |x| == n + 1 && |y| == t + 1 && BPow(t) <= Val(y)
    ensures 0 < Val(y) < BPow(t + 1)
    ensures Val(x) < B * Scaled(1, Val(y), n - t)
  {
    hide Val, BPow;
    ValBound(x);
    ValBound(y);
    BPowSucc(n);
    BPowAdd(t, n - t);
    MulMono(BPow(t), Val(y), BPow(n - t));
  }

  lemma ShiftBack(y: nat, k: nat)
    ensures y * Pow2(k) / Pow2(k) == y
  {
    DivModUnique(y * Pow2(k), Pow2(k), y, 0);
  }

  lemma ProgressEnd(v: nat, y: nat, z: seq<Limb>, x: int)
    requires Progress(v, y, z, x, 0)
    ensures v == Val(z) * y + x && Scaled(1, y, 0) == y
  {
    hide Val;
    BPow0();
  }

  /** Dividing both operands by the normalisation factor. */
  lemma Denormalise(a: nat, d: nat, k: nat, z: nat, x: nat)
    requires 0 < d && a * Pow2(k) == z * (d * Pow2(k)) + x && x < d * Pow2(k)
    ensures z == a / d && x / Pow2(k) == a % d
  {
    hide Pow2;
    var p := Pow2(k);
    assert z * (d * p) == z * d * p by { MulAssoc(z, d, p); }
    assert x == p * (a - z * d);
    MulCancelLess(a - z * d, d, p);
    if a - z * d < 0 { MulMono(a - z * d, -1, p); }
    assert a == d * z + (a - z * d);
    DivModUnique(a, d, z, a - z * d);
    DivModUnique(x, p, a - z * d, 0);
  }

  /** Quotient and scaled remainder of the magnitudes, in fresh objects. */
  method DivAbs(A: Mpi, D: Mpi) returns (k: nat, X: Mpi, Z: Mpi)
    requires A.Ok() && D.Ok() && 0 < Val(D.p) <= Val(A.p)
    ensures fresh(X) && fresh(Z) && X != Z && X.Ok() && Z.s == 1 && |X.p| > 0
    ensures Val(Z.p) == Val(A.p) / Val(D.p)
    ensures Val(X.p) / Pow2(k) == Val(A.p) % Val(D.p)
  {
    hide Val, BPow, Pow2, BitLen;
    X := new Mpi();
    var Y := new Mpi();
    Z := new Mpi();
    var T1 := new Mpi();
    k := Normalise(X, Y, A, D);
    Grow(Z, |A.p| + 2);
    Lset(Z, 0);
    Z.p := Zeros(|Z.p|);
    Grow(T1, 2);
    LongDivision(X, Y, Z, T1, |X.p| - 1, |Y.p| - 1);
    Denormalise(Val(A.p), Val(D.p), k, Val(Z.p), X.Int());
  }

  method StoreRemainder(R: Mpi, X: Mpi, k: nat, s: int)
    requires R != X && (s == 1 || s == -1) && |X.p| > 0
    modifies R, X
    ensures R.Ok() && Val(R.p) == old(Val(X.p)) / Pow2(k)
    ensures R.Int() == if s < 0 then -(Val(R.p) as int) else Val(R.p)
    ensures |R.p| >= Max(|old(R.p)|, 1) && (s == 1 ==> R.s == 1)
  {
    hide Val, Pow2;
    ShiftR(X, k);
    X.s := s;
    Copy(R, X);
    var c := CmpInt(R, 0);
    if c == 0 {
      R.s := 1;
    }
  }

  lemma SmallDividend(a: int, d: int)
    requires AbsInt(a) < AbsInt(d)
    ensures Quot(a, d) == 0 && Rem(a, d) == a
  {
    DivModUnique(AbsInt(a), AbsInt(d), 0, AbsInt(a));
  }

  method DivMpi(Q: Mpi?, R: Mpi?, A: Mpi, D: Mpi) returns (ret: int)
    requires A.Ok() && D.Ok() && (Q != null ==> Q.Ok()) && (R != null ==> R.Ok())
    requires Q != null ==> Q != A && Q != D && Q != R
    modifies if Q == null then {} else {Q}, if R == null then {} else {R}
    ensures ret == if old(D.Int()) == 0 then ERR_DIVISION_BY_ZERO else 0
    ensures ret == 0 && Q != null ==> Q.Ok() && Q.Int() == Quot(old(A.Int()), old(D.Int()))
    ensures ret == 0 && R != null ==> R.Ok() && R.Int() == Rem(old(A.Int()), old(D.Int()))
    ensures ret == 0 && R != null && |old(A.p)| > 0 ==> |R.p| >= Max(|old(R.p)|, 1)
    ensures ret == 0 && R != null && old(A.s) == 1 ==> R.s == 1
    ensures ret != 0 && Q != null ==> Q.s == old(Q.s) && Q.p == old(Q.p)
    ensures ret != 0 && R != null ==> R.s == old(R.s) && R.p == old(R.p)
  {
    hide Val, BPow, Pow2, Quot, Rem;
    ghost var a, d := A.Int(), D.Int();
    var c := CmpInt(D, 0);
    if c == 0 {
      return ERR_DIVISION_BY_ZERO;
    }
    c := CmpAbs(A, D);
    if c < 0 {
      SmallDividend(a, d);
      if Q != null { Lset(Q, 0); }
      if R != null { Copy(R, A); }
      return 0;
    }
    var k, X, Z := DivAbs(A, D);
    SignedParts(A.s, Val(A.p), D.s, Val(D.p));
    if Q != null {
      Copy(Q, Z);
      Q.s := A.s * D.s;
    }
    if R != null {
      StoreRemainder(R, X, k, A.s);
    }
    return 0;
  }

  /** Signs of quotient and remainder from signs and magnitudes of the operands. */
  lemma SignedParts(s: int, a: nat, t: int, d: nat)
    requires (s == 1 || s == -1) && (t == 1 || t == -1) && 0 < d <= a
    ensures s * t == 1 || s * t == -1
    ensures var x := if s < 0 then -(a as int) else a;
            var y := if t < 0 then -(d as int) else d;
            && Quot(x, y) == (if s * t < 0 then -(a / d) else a / d)
            && Rem(x, y) == (if s < 0 then -(a % d) else a % d)
  {
  }

  // ---------------------------------------------------------------- reduction

  /** The two loops that bring a number into [0, D), as in mod_mpi and at the end of inv_mod. */
  method BringIntoRange(R: Mpi, D: Mpi)
    requires R.Ok() && D.Ok() && R != D && |R.p| > 0 && |D.p| > 0 && 0 < D.Int()
    modifies R
    ensures R.Ok() && R.Int() == old(R.Int()) % D.Int() && |R.p| >= |old(R.p)|
    ensures old(R.s) == 1 ==> R.s == 1
  {
    hide Val, BPow;
    ghost var a, d, q := R.Int(), D.Int(), 0;
    assert 0 * d == 0;
    var c := CmpInt(R, 0);
    while c < 0
      invariant R.Ok() && |R.p| >= |old(R.p)| && c == Sgn(R.Int() - 0)
      invariant old(R.s) == 1 ==> R.s == 1
      invariant a == q * d + R.Int()
      decreases -R.Int()
    {
      assert (q - 1) * d == q * d - d;
      AddMpi(R, R, D);
      q := q - 1;
      c := CmpInt(R, 0);
    }
    c := CmpMpi(R, D);
    while c >= 0
      invariant R.Ok() && |R.p| >= |old(R.p)| && c == Sgn(R.Int() - D.Int())
      invariant old(R.s) == 1 ==> R.s == 1
      invariant 0 <= R.Int() && a == q * d + R.Int()
      decreases R.Int()
    {
      assert (q + 1) * d == q * d + d;
      SubMpi(R, R, D);
      q := q + 1;
      c := CmpMpi(R, D);
    }
    assert d * q == q * d;
    DivModUnique(a, d, q, R.Int());
  }

  lemma RemMod(a: int, d: int)
    requires 0 < d
    ensures Rem(a, d) % d == a % d
  {
    QuotRem(a, d);
    var q, r := Quot(a, d), Rem(a, d);
    assert a - r == d * q;
    DividesBy(d, a - r, q);
    CongModEq(a, r, d);
  }

  /** R := A mod D with 0 <= R < D; a negative or zero modulus is refused. */
  method ModMpi(R: Mpi, A: Mpi, D: Mpi) returns (ret: int)
    requires A.Ok() && D.Ok() && R.Ok() && R != D && |A.p| > 0 && |D.p| > 0
    modifies R
    ensures ret == if old(D.Int()) < 0 then ERR_NEGATIVE_VALUE
                   else if old(D.Int()) == 0 then ERR_DIVISION_BY_ZERO else 0
    ensures R.Ok()
    ensures ret == 0 ==> R.Int() == old(A.Int()) % D.Int() && |R.p| >= Max(|old(R.p)|, 1)
    ensures ret == 0 && old(A.s) == 1 ==> R.s == 1
    ensures ret != 0 ==> R.s == old(R.s) && R.p == old(R.p)
  {
    hide Val, BPow, Quot, Rem;
    var c := CmpInt(D, 0);
    if c < 0 {
      return ERR_NEGATIVE_VALUE;
    }
    ghost var a := A.Int();
    ret := DivMpi(null, R, A, D);
    if ret != 0 {
      return;
    }
    RemMod(a, D.Int());
    BringIntoRange(R, D);
  }
}
