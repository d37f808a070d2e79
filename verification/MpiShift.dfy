/** Left and right shifts of mbedtls/library/bignum.c. */
module MpiShift {
  import opened Arith
  import opened Limbs
  import opened Mpis

  /** BITS_TO_LIMBS. */
  function BitsToLimbs(i: nat): nat {
    i / BIL + (if i % BIL != 0 then 1 else 0)
  }

  /** With a * c == B, multiplying by a moves the part of x above c out of the limb. */
  lemma ScaledLimb(x: Limb, a: nat, c: nat)
    requires 0 < a && 0 < c && a * c == B
    ensures x / c < a && x % c * a <= B - a
    ensures x * a == B * (x / c) + x % c * a
    ensures x * a % B == x % c * a
  {
    var q, r := x / c, x % c;
    if q >= a { MulMono(a, q, c); }
    assert (c * q + r) * a == a * c * q + r * a by {
      MulAssoc(c, q, a);
      MulAssoc(a, c, q);
    }
    MulMono(r, c - 1, a);
    assert (c - 1) * a == B - a;
    DivModUnique(x * a, B, q, r * a);
  }

  /** One limb of the left shift: what moves out at the top is the next carry. */
  lemma ShlLimb(x: Limb, r0: Limb, t: nat)
    requires 0 < t < BIL && r0 < Pow2(t)
    ensures x / Pow2(BIL - t) < Pow2(t)
    ensures BitOr(x * Pow2(t) % B, r0) < B
    ensures BitOr(x * Pow2(t) % B, r0) + B * (x / Pow2(BIL - t)) == x * Pow2(t) + r0
  {
    hide Pow2, BitOr;
    var a, c := Pow2(t), Pow2(BIL - t);
    Pow2Bil();
    Pow2Add(t, BIL - t);
    ScaledLimb(x, a, c);
    DividesBy(a, x % c * a, x % c);
    BitOrDisjoint(x % c * a, r0, t);
  }

  /** One limb of the right shift: what moves out at the bottom is the next carry. */
  lemma ShrLimb(x: Limb, r0: Limb, t: nat)
    requires 0 < t < BIL && Divides(Pow2(BIL - t), r0)
    ensures Divides(Pow2(BIL - t), x * Pow2(BIL - t) % B)
    ensures BitOr(x / Pow2(t), r0) < B
    ensures Pow2(t) * BitOr(x / Pow2(t), r0) + (x * Pow2(BIL - t) % B) / Pow2(BIL - t)
         == x + B * (r0 / Pow2(BIL - t))
    ensures (x * Pow2(BIL - t) % B) / Pow2(BIL - t) < Pow2(t)
  {
    hide Pow2, BitOr;
    var a, c := Pow2(t), Pow2(BIL - t);
    Pow2Bil();
    Pow2Add(t, BIL - t);
    ScaledLimb(x, c, a);
    var q, r := x / a, x % a;
    DivModUnique(r * c, c, r, 0);
    BitOrSwap(r0, q, BIL - t);
    ShrInts(r0, q, r, a, c);
  }

  lemma ShrInts(r0: Limb, q: nat, r: nat, a: nat, c: nat)
    requires 0 < a && 0 < c && a * c == B && q < c && Divides(c, r0)
    ensures r0 + q < B
    ensures a * (r0 + q) + r == a * q + r + B * (r0 / c)
  {
    var z := r0 / c;
    assert r0 == c * z;
    if z >= a { MulMono(a, z, c); }
    MulMono(z, a - 1, c);
    assert c * (a - 1) == B - c;
    assert a * (c * z + q) == a * c * z + a * q by { MulAssoc(a, c, z); }
  }

  /** After i limbs of the left shift: the low limbs and the carry r0 hold the product. */
  ghost predicate ShlDone(x: seq<Limb>, x0: seq<Limb>, i: nat, r0: nat, t: nat) {
    && |x| == |x0| && i <= |x|
    && x[i..] == x0[i..]
    && r0 < Pow2(t)
    && Val(x[..i]) + r0 * BPow(i) == Val(x0[..i]) * Pow2(t)
  }

  lemma ShlStart(x: seq<Limb>, v0: nat, t: nat)
    requires v0 <= |x| && forall j :: 0 <= j < v0 ==> x[j] == 0
    ensures ShlDone(x, x, v0, 0, t) && 0 < Pow2(t)
  {
    hide Val, Pow2, BPow;
    ValZeros(x[..v0]);
  }

  lemma ShlStep(x: seq<Limb>, x0: seq<Limb>, i: nat, r0: Limb, t: nat, y: Limb)
    requires 0 < t < BIL && ShlDone(x, x0, i, r0, t) && i < |x|
    requires y == BitOr(x[i] * Pow2(t) % B, r0)
    ensures ShlDone(x[i := y], x0, i + 1, x[i] / Pow2(BIL - t), t)
  {
    hide Pow2, BitOr, Val, BPow;
    ShlLimb(x[i], r0, t);
    var x' := x[i := y];
    assert x[i] == x0[i] by { assert x[i..][0] == x0[i..][0]; }
    assert x'[..i] == x[..i];
    assert x'[i + 1..] == x0[i + 1..] by {
      assert x'[i + 1..] == x[i..][1..];
      assert x0[i + 1..] == x0[i..][1..];
    }
    ValSnoc(x', i);
    ValSnoc(x0, i);
    BPowSucc(i);
    CarryStepL(Val(x[..i]), Val(x0[..i]), y, x[i], r0, x[i] / Pow2(BIL - t), Pow2(t), BPow(i));
  }

  lemma CarryStepL(vx: nat, v0: nat, y: nat, xi: nat, r0: nat, r1: nat, a: nat, bp: nat)
    requires vx + r0 * bp == v0 * a && y + B * r1 == xi * a + r0
    ensures vx + y * bp + r1 * (B * bp) == (v0 + xi * bp) * a
  {
    assert (y + B * r1) * bp == y * bp + r1 * (B * bp) by { MulAssoc(B, r1, bp); MulAssoc(r1, B, bp); }
    assert (xi * a + r0) * bp == xi * bp * a + r0 * bp by { MulAssoc(xi, a, bp); MulAssoc(xi, bp, a); }
  }

  lemma ShlEnd(x: seq<Limb>, x0: seq<Limb>, r0: nat, t: nat)
    requires ShlDone(x, x0, |x|, r0, t) && Val(x0) * Pow2(t) < BPow(|x0|)
    ensures Val(x) == Val(x0) * Pow2(t)
  {
    hide Pow2, Val, BPow;
    ValFull(x);
    ValFull(x0);
    if r0 != 0 { MulMono(1, r0, BPow(|x|)); }
  }

  /** The bit part of the left shift, limbs v0 upwards. */
  method ShiftBitsL(x0: seq<Limb>, v0: nat, t: nat) returns (x: seq<Limb>)
    requires 0 < t < BIL && v0 <= |x0|
    requires forall j :: 0 <= j < v0 ==> x0[j] == 0
    requires Val(x0) * Pow2(t) < BPow(|x0|)
    ensures |x| == |x0| && Val(x) == Val(x0) * Pow2(t)
  {
    hide Pow2, BitOr, Val, BPow, ShlDone;
    x := x0;
    var i := v0;
    var r0: Limb := 0;
    ShlStart(x, v0, t);
    while i < |x|
      invariant v0 <= i <= |x| == |x0| && r0 < Pow2(t)
      invariant ShlDone(x, x0, i, r0, t)
    {
      ShlLimb(x[i], r0, t);
      ShlStep(x, x0, i, r0, t, BitOr(x[i] * Pow2(t) % B, r0));
      var r1: Limb := x[i] / Pow2(BIL - t);
      x := x[i := BitOr(x[i] * Pow2(t) % B, r0)];
      r0 := r1;
      i := i + 1;
    }
    ShlEnd(x, x0, r0, t);
  }

  /** The limb part of the left shift. */
  method ShiftLimbsL(x0: seq<Limb>, v0: nat) returns (x: seq<Limb>)
    requires v0 <= |x0| && Val(x0) * BPow(v0) < BPow(|x0|)
    ensures |x| == |x0| && Val(x) == Val(x0) * BPow(v0)
    ensures forall j :: 0 <= j < v0 ==> x[j] == 0
  {
    hide Val, BPow;
    x := x0;
    var n := |x0|;
    BPow0();
    if v0 > 0 {
      var i := n;
      while i > v0
        invariant v0 <= i <= n && |x| == n
        invariant forall j :: i <= j < n ==> x[j] == x0[j - v0]
        invariant forall j :: 0 <= j < i ==> x[j] == x0[j]
      {
        x := x[i - 1 := x[i - v0 - 1]];
        i := i - 1;
      }
      while i > 0
        invariant 0 <= i <= v0 && |x| == n
        invariant forall j :: v0 <= j < n ==> x[j] == x0[j - v0]
        invariant forall j :: i <= j < v0 ==> x[j] == 0
      {
        x := x[i - 1 := 0];
        i := i - 1;
      }
      assert x[v0..] == x0[..n - v0];
      ValSplit(x, v0);
      ValZeros(x[..v0]);
      BPowPos(v0, n, Val(x0));
      ValSmall(x0, n - v0);
    }
  }

  method ShiftL(X: Mpi, count: nat)
    modifies X
    ensures X.s == old(X.s)
    ensures Val(X.p) == old(Val(X.p)) * Pow2(count)
    ensures |X.p| == Max(|old(X.p)|, BitsToLimbs(BitLen(old(Val(X.p))) + count))
  {
    hide Pow2, BitOr, Val, BPow, BitLen;
    var v0 := count / BIL;
    var t1 := count % BIL;
    var bl := Bitlen(X);
    ghost var v := Val(X.p);
    if |X.p| * BIL < bl + count {
      Grow(X, BitsToLimbs(bl + count));
    }
    ShiftFits(v, count, |X.p|);
    var x := ShiftLimbsL(X.p, v0);
    assert v * BPow(v0) * Pow2(t1) == v * Pow2(count) by {
      BPowIsPow2(v0);
      Pow2Add(64 * v0, t1);
      MulAssoc(v, BPow(v0), Pow2(t1));
    }
    if t1 > 0 {
      x := ShiftBitsL(x, v0, t1);
    } else {
      Pow2Succ(0);
    }
    X.p := x;
  }

  lemma BPowPos(v0: nat, n: nat, v: nat)
    requires v0 <= n && v * BPow(v0) < BPow(n)
    ensures v < BPow(n - v0)
  {
    BPowAdd(n - v0, v0);
    MulCancelLess(v, BPow(n - v0), BPow(v0));
  }

  /** n limbs hold a number of bitlen + count bits. */
  lemma ShiftFits(v: nat, count: nat, n: nat)
    requires BitLen(v) + count <= n * BIL
    ensures count / BIL <= n
    ensures v * Pow2(count) < BPow(n) && v * BPow(count / BIL) < BPow(n)
  {
    hide Pow2, BPow;
    BPowIsPow2(n);
    BPowIsPow2(count / BIL);
    if v == 0 {
      return;
    }
    BitLenShift(v, count);
    BitLenBound(v * Pow2(count), 64 * n);
    Pow2Add(64 * (count / BIL), count % BIL);
    MulMono(1, Pow2(count % BIL), BPow(count / BIL));
    MulMono(BPow(count / BIL), Pow2(count), v);
  }

  /** After the right shift of limbs i upwards: r0 holds the bits still to move in. */
  ghost predicate ShrDone(x: seq<Limb>, x0: seq<Limb>, i: nat, r0: nat, t: nat)
    requires t <= BIL
  {
    && |x| == |x0| && i <= |x|
    && x[..i] == x0[..i]
    && r0 / Pow2(BIL - t) < Pow2(t)
    && Pow2(t) * Val(x[i..]) + r0 / Pow2(BIL - t) == Val(x0[i..])
  }

  lemma ShrStart(x: seq<Limb>, t: nat)
    requires 0 < t < BIL
    ensures ShrDone(x, x, |x|, 0, t) && Divides(Pow2(BIL - t), 0)
  {
    hide Val, Pow2;
    DivModUnique(0, Pow2(BIL - t), 0, 0);
    ValEmpty();
    assert x[|x|..] == [];
  }

  lemma ShrStep(x: seq<Limb>, x0: seq<Limb>, k: nat, r0: Limb, t: nat, y: Limb)
    requires 0 < t < BIL && k < |x| && ShrDone(x, x0, k + 1, r0, t)
    requires Divides(Pow2(BIL - t), r0) && y == BitOr(x[k] / Pow2(t), r0)
    ensures ShrDone(x[k := y], x0, k, x[k] * Pow2(BIL - t) % B, t)
  {
    hide Pow2, BitOr, Val, BPow;
    var i, x' := k + 1, x[k := y];
    ShrLimb(x[k], r0, t);
    assert x[k] == x0[k] by { assert x[..i][k] == x0[..i][k]; }
    assert x'[..k] == x0[..k] by {
      assert x'[..k] == x[..i][..k];
      assert x0[..k] == x0[..i][..k];
    }
    ValCons(x'[k..]);
    ValCons(x0[k..]);
    assert x'[k..][1..] == x[i..] && x0[k..][1..] == x0[i..];
    CarryStepR(Val(x[i..]), Val(x0[i..]), y, x[k], r0 / Pow2(BIL - t),
               (x[k] * Pow2(BIL - t) % B) / Pow2(BIL - t), Pow2(t));
  }

  lemma CarryStepR(vx: nat, v0: nat, y: nat, xk: nat, z0: nat, z1: nat, a: nat)
    requires a * vx + z0 == v0 && a * y + z1 == xk + B * z0
    ensures a * (y + B * vx) + z1 == xk + B * v0
  {
    assert a * (y + B * vx) == a * y + B * (a * vx) by { MulAssoc(a, B, vx); MulAssoc(B, a, vx); }
  }

  lemma ShrEnd(x: seq<Limb>, x0: seq<Limb>, r0: nat, t: nat)
    requires t <= BIL && ShrDone(x, x0, 0, r0, t)
    ensures Val(x) == Val(x0) / Pow2(t)
  {
    hide Pow2, Val;
    assert x[0..] == x && x0[0..] == x0;
    DivModUnique(Val(x0), Pow2(t), Val(x), r0 / Pow2(BIL - t));
  }

  /** The bit part of the right shift, from the top limb down. */
  method ShiftBitsR(x0: seq<Limb>, t: nat) returns (x: seq<Limb>)
    requires 0 < t < BIL
    ensures |x| == |x0| && Val(x) == Val(x0) / Pow2(t)
  {
    hide Pow2, BitOr, Val, BPow, ShrDone;
    x := x0;
    var i := |x0|;
    var r0: Limb := 0;
    ShrStart(x, t);
    while i > 0
      invariant 0 <= i <= |x| == |x0| && Divides(Pow2(BIL - t), r0)
      invariant ShrDone(x, x0, i, r0, t)
    {
      ShrLimb(x[i - 1], r0, t);
      ShrStep(x, x0, i - 1, r0, t, BitOr(x[i - 1] / Pow2(t), r0));
      var r1: Limb := x[i - 1] * Pow2(BIL - t) % B;
      x := x[i - 1 := BitOr(x[i - 1] / Pow2(t), r0)];
      r0 := r1;
      i := i - 1;
    }
    ShrEnd(x, x0, r0, t);
  }

  /** Shifting by at least the whole length resets the sign as well. */
  method ShiftR(X: Mpi, count: nat)
    modifies X
    ensures Val(X.p) == old(Val(X.p)) / Pow2(count)
    ensures Val(X.p) != 0 ==> X.s == old(X.s)
    ensures X.s == old(X.s) || X.s == 1
    ensures |X.p| == |old(X.p)| || |X.p| == Max(|old(X.p)|, 1)
  {
    hide Pow2, BitOr, Val, BPow;
    var v0 := count / BIL;
    var v1 := count % BIL;
    ghost var v := Val(X.p);
    var n := |X.p|;
    BPowIsPow2(v0);
    Pow2Add(64 * v0, v1);
    ValBound(X.p);
    if v0 > n || (v0 == n && v1 > 0) {
      assert v < Pow2(count) by {
        BPowMono(n, v0);
        MulMono(1, Pow2(v1), BPow(v0));
      }
      DivModUnique(v, Pow2(count), 0, v);
      Lset(X, 0);
      return;
    }
    var x := X.p;
    ghost var x0 := x;
    if v0 > 0 {
      var i := 0;
      while i < n - v0
        invariant 0 <= i <= n - v0 && |x| == n
        invariant forall j :: 0 <= j < i ==> x[j] == x0[j + v0]
        invariant forall j :: i <= j < n ==> x[j] == x0[j]
      {
        x := x[i := x[i + v0]];
        i := i + 1;
      }
      while i < n
        invariant n - v0 <= i <= n && |x| == n
        invariant forall j :: 0 <= j < n - v0 ==> x[j] == x0[j + v0]
        invariant forall j :: n - v0 <= j < i ==> x[j] == 0
      {
        x := x[i := 0];
        i := i + 1;
      }
      assert x[..n - v0] == x0[v0..];
    }
    assert Val(x) == v / BPow(v0) by {
      if v0 > 0 {
        ValHighZeros(x, n - v0);
        ValDivMod(x0, v0);
      } else {
        BPow0();
      }
    }
    if v1 > 0 {
      x := ShiftBitsR(x, v1);
      DivDiv(v, BPow(v0), Pow2(v1));
    } else {
      Pow2Succ(0);
    }
    X.p := x;
  }
}
