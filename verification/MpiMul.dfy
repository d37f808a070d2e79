/** Multiplication of mbedtls/library/bignum.c. */
module MpiMul {
  import opened Arith
  import opened Limbs
  import opened Mpis
  import MpiAdd

  /** The full product of two limbs made of four half-limb products: the first part of
      the portable MULADDC_CORE of bn_mul.h. */
  method MulWide(s: Limb, b: Limb) returns (r0: Limb, r1: Limb)
    ensures r0 + B * r1 == s * b
  {
    var b0, b1 := b % H, b / H;
    var s0, s1 := s % H, s / H;
    r0, r1 := MulHalves(s0, s1, b0, b1);
    FourProducts(s0, s1, b0, b1);
  }

  method MulHalves(s0: nat, s1: nat, b0: nat, b1: nat) returns (r0: Limb, r1: Limb)
    requires s0 < H && s1 < H && b0 < H && b1 < H
    ensures r0 + B * r1 == s0 * b0 + H * (s0 * b1) + H * (s1 * b0) + B * (s1 * b1)
  {
    HalfBound(s0, b1);
    HalfBound(s0, b0);
    HalfBound(s1, b0);
    HalfBound(s1, b1);
    var rx: Limb := s0 * b1;
    r0 := s0 * b0;
    var ry: Limb := s1 * b0;
    r1 := s1 * b1;
    HalvesBound(s0, s1, b0, b1);
    r0, r1 := CombineHalves(r0, r1, rx, ry, r0 + H * rx + H * ry + B * r1);
  }

  method CombineHalves(p0: Limb, p1: Limb, rx: Limb, ry: Limb, ghost w: nat) returns (r0: Limb, r1: Limb)
    requires w == p0 + H * rx + H * ry + B * p1 && w < B * B
    ensures r0 + B * r1 == w
  {
    hide WAdd, WMul, Flag;
    HighLow(rx);
    HighLow(ry);
    var x, y := WMul(rx, H), WMul(ry, H);
    var t := WAdd(p0, x);
    WAddCarry(p0, x);
    r0 := WAdd(t, y);
    WAddCarry(t, y);
    WAddExact(p1, rx / H);
    WAddExact(p1 + rx / H, ry / H);
    WAddExact(p1 + rx / H + ry / H, Flag(t < x));
    WAddExact(p1 + rx / H + ry / H + Flag(t < x), Flag(r0 < y));
    r1 := WAdd(p1, rx / H);
    r1 := WAdd(r1, ry / H);
    r1 := WAdd(r1, Flag(t < x));
    r1 := WAdd(r1, Flag(r0 < y));
  }

  /** MULADDC_CORE: one limb of d + s * b with carry. r0 replaces the limb of d and r1 is
      the next carry. */
  method MulAddC(s: Limb, d: Limb, b: Limb, c: Limb) returns (r0: Limb, r1: Limb)
    ensures r0 + B * r1 == d + s * b + c
  {
    hide WAdd, Flag;
    r0, r1 := MulWide(s, b);
    ProductBound(d, s, b, c);
    var t := WAdd(r0, c);
    WAddCarry(r0, c);
    r0 := WAdd(t, d);
    WAddCarry(t, d);
    WAddExact(r1, Flag(t < c));
    WAddExact(r1 + Flag(t < c), Flag(r0 < d));
    r1 := WAdd(r1, Flag(t < c));
    r1 := WAdd(r1, Flag(r0 < d));
  }

  lemma WAddExact(x: Limb, y: Limb)
    requires x + y < B
    ensures WAdd(x, y) == x + y
  {
    WExact(x + y);
  }

  /** The half-limb products fit a limb and recombine to the full product. */
  lemma FourProducts(s0: nat, s1: nat, b0: nat, b1: nat)
    ensures (H * s1 + s0) * (H * b1 + b0) == s0 * b0 + H * (s0 * b1) + H * (s1 * b0) + B * (s1 * b1)
  {
    assert (H * s1 + s0) * (H * b1 + b0) == H * s1 * (H * b1) + H * s1 * b0 + s0 * (H * b1) + s0 * b0;
    assert H * s1 * (H * b1) == B * (s1 * b1);
    assert H * s1 * b0 == H * (s1 * b0);
    assert s0 * (H * b1) == H * (s0 * b1);
  }

  lemma HalvesBound(s0: nat, s1: nat, b0: nat, b1: nat)
    requires s0 < H && s1 < H && b0 < H && b1 < H
    ensures s0 * b0 + H * (s0 * b1) + H * (s1 * b0) + B * (s1 * b1) < B * B
  {
    FourProducts(s0, s1, b0, b1);
    ProductBound(0, H * s1 + s0, H * b1 + b0, 0);
  }

  lemma HalfBound(x: nat, y: nat)
    requires x < H && y < H
    ensures x * y < B
  {
    MulMono(x, H - 1, y);
    MulMono(y, H - 1, H - 1);
  }

  lemma HighLow(x: Limb)
    ensures WMul(x, H) == x % H * H && H * x == B * (x / H) + WMul(x, H)
  {
    DivModUnique(x * H, B, x / H, x % H * H);
  }

  lemma ProductBound(d: Limb, s: Limb, b: Limb, c: Limb)
    ensures d + s * b + c < B * B
  {
    MulMono(s, B - 1, b);
    MulMono(b, B - 1, B - 1);
  }

  // ---------------------------------------------------------------- one row of the product

  /** d with carry c at limb k and the limbs k..i of s still to be multiplied by b stands for total. */
  ghost predicate MulLeft(d: seq<Limb>, s: seq<Limb>, k: nat, i: nat, b: nat, c: nat, total: nat) {
    && k <= i <= |s| && k <= |d|
    && Val(d) + c * BPow(k) + BPow(k) * (Val(s[k..i]) * b) == total
  }

  lemma MulStart(d: seq<Limb>, s: seq<Limb>, i: nat, b: nat)
    requires i <= |s|
    ensures MulLeft(d, s, 0, i, b, 0, Val(d) + Val(s[..i]) * b)
  {
    hide Val, BPow;
    BPow0();
    assert s[0..i] == s[..i];
  }

  lemma MulStep(d: seq<Limb>, s: seq<Limb>, k: nat, i: nat, b: nat, c: Limb, total: nat, y: Limb, c': nat)
    requires MulLeft(d, s, k, i, b, c, total) && k < i && k < |d|
    requires y + B * c' == d[k] + s[k] * b + c
    ensures MulLeft(d[k := y], s, k + 1, i, b, c', total)
  {
    hide Val, BPow;
    ValUpdate(d, k, y);
    ValCons(s[k..i]);
    assert s[k..i][1..] == s[k + 1..i];
    BPowSucc(k);
    var v := Val(s[k + 1..i]);
    assert (s[k] + B * v) * b == s[k] * b + B * (v * b) by { MulAssoc(B, v, b); }
    MpiAdd.AddInts(Val(d), d[k], s[k] * b, c, c', y, BPow(k), v * b);
  }

  lemma MulEnd(d: seq<Limb>, s: seq<Limb>, i: nat, b: nat, c: nat, total: nat)
    requires MulLeft(d, s, i, i, b, c, total)
    ensures Val(d) + c * BPow(i) == total
  {
    hide Val, BPow;
    assert s[i..i] == [];
    ValEmpty();
    assert BPow(i) * (0 * b) == 0;
  }

  /** A nonzero carry still has a limb of d to go to. */
  lemma CarryHasRoom(d: seq<Limb>, k: nat, c: nat, total: nat)
    requires c != 0 && Val(d) + c * BPow(k) == total && total < BPow(|d|)
    ensures k < |d|
  {
    hide Val, BPow;
    MulMono(1, c, BPow(k));
    if |d| <= k { BPowMono(|d|, k); }
  }

  /** mpi_mul_hlp: d += s[..i] * b. The carry never leaves d, which the callers owe. */
  method MulHlp(i: nat, s: seq<Limb>, d0: seq<Limb>, b: Limb) returns (d: seq<Limb>)
    requires i <= |s| && i < |d0|
    requires Val(d0) + Val(s[..i]) * b < BPow(|d0|)
    ensures |d| == |d0|
    ensures Val(d) == Val(d0) + Val(s[..i]) * b
  {
    hide Val, BPow, MulLeft, WAdd;
    ghost var total := Val(d0) + Val(s[..i]) * b;
    d := d0;
    var k, c: Limb := 0, 0;
    MulStart(d, s, i, b);
    while k < i
      invariant 0 <= k <= i && |d| == |d0|
      invariant MulLeft(d, s, k, i, b, c, total)
    {
      var r0, r1 := MulAddC(s[k], d[k], b, c);
      MulStep(d, s, k, i, b, c, total, r0, r1);
      d := d[k := r0];
      c := r1;
      k := k + 1;
    }
    MulEnd(d, s, i, b, c, total);
    var again := true;
    while again
      invariant i <= k <= |d| == |d0|
      invariant again ==> k < |d|
      invariant !again ==> c == 0
      invariant Val(d) + c * BPow(k) == total
      decreases |d| - k
    {
      var y := WAdd(d[k], c);
      WAddCarry(d[k], c);
      MpiAdd.AddCarryStep(d, k, c, total, y, Flag(y < c));
      d := d[k := y];
      c := Flag(y < c);
      k := k + 1;
      again := c != 0;
      if again { CarryHasRoom(d, k, c, total); }
    }
  }

  // ---------------------------------------------------------------- full products

  lemma MulFits(a: nat, b: nat, m: nat, n: nat, k: nat)
    requires a < BPow(m) && b < BPow(n) && m + n <= k
    ensures a * b < BPow(k)
  {
    hide BPow;
    BPowAdd(m, n);
    BPowMono(m + n, k);
    MulMono(a, BPow(m), b);
    if b > 0 { MulMonoStrict(b, BPow(n), BPow(m)); }
  }

  /** The limb loop of mul_mpi: rows from the most significant limb of b down. */
  method MulLimbs(a: seq<Limb>, i: nat, b: seq<Limb>, j0: nat, x0: seq<Limb>) returns (x: seq<Limb>)
    requires i <= |a| && j0 <= |b| && i + j0 <= |x0|
    requires forall k :: 0 <= k < |x0| ==> x0[k] == 0
    ensures |x| == |x0|
    ensures Val(x) == Val(a[..i]) * Val(b[..j0])
  {
    hide Val, BPow;
    x := x0;
    var j := j0;
    ghost var va := Val(a[..i]);
    ValBound(a[..i]);
    assert b[j0..j0] == [];
    ValEmpty();
    ValZeros(x[j..]);
    assert va * 0 == 0;
    while j > 0
      invariant 0 <= j <= j0 && |x| == |x0|
      invariant forall k :: 0 <= k < j ==> x[k] == 0
      invariant Val(x[j..]) == va * Val(b[j..j0])
    {
      var d := x[j - 1..];
      ValCons(d);
      assert d[1..] == x[j..];
      ValCons(b[j - 1..j0]);
      assert b[j - 1..j0][1..] == b[j..j0];
      ghost var vb := Val(b[j..j0]);
      assert va * (b[j - 1] + B * vb) == B * (va * vb) + va * b[j - 1] by {
        MulAssoc(va, B, vb);
        MulAssoc(B, va, vb);
      }
      ValBound(b[j - 1..j0]);
      MulFits(va, Val(b[j - 1..j0]), i, j0 - j + 1, |d|);
      d := MulHlp(i, a, d, b[j - 1]);
      x := x[..j - 1] + d;
      assert x[j - 1..] == d;
      j := j - 1;
    }
    assert x[0..] == x && b[0..j0] == b[..j0];
  }

  lemma SignedProduct(s: int, a: nat, t: int, b: nat)
    requires (s == 1 || s == -1) && (t == 1 || t == -1)
    ensures s * t == 1 || s * t == -1
    ensures (if s * t < 0 then -(a * b) else a * b)
         == (if s < 0 then -(a as int) else a) * (if t < 0 then -(b as int) else b)
  {
    assert -(a as int) * b == -(a * b) && a * -(b as int) == -(a * b);
  }

  method MulMpi(X: Mpi, A: Mpi, B: Mpi)
    requires A.Ok() && B.Ok()
    modifies X
    ensures X.s == old(A.s) * old(B.s)
    ensures Val(X.p) == old(Val(A.p)) * old(Val(B.p))
    ensures X.Ok() && X.Int() == old(A.Int()) * old(B.Int())
    ensures |X.p| == Max(Max(|old(X.p)|, 1), old(SigLen(A.p) + SigLen(B.p)))
  {
    hide Val, BPow;
    SignedProduct(A.s, Val(A.p), B.s, Val(B.p));
    var a, b, s := A.p, B.p, A.s * B.s;
    var i := SignificantLimbs(a);
    var j := SignificantLimbs(b);
    SigLenProps(a);
    SigLenProps(b);
    Grow(X, i + j);
    Grow(X, 1);
    var x := MulLimbs(a, i, b, j, Zeros(|X.p|));
    X.p := x;
    X.s := s;
  }

  method MulInt(X: Mpi, A: Mpi, b: Limb)
    requires A.Ok()
    modifies X
    ensures X.s == old(A.s)
    ensures Val(X.p) == old(Val(A.p)) * b
    ensures |X.p| >= Max(|old(X.p)|, 1)
  {
    var Y := new Mpi.FromLimb(1, b);
    ValSingle(b);
    MulMpi(X, A, Y);
  }
}
