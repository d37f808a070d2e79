/** Addition and subtraction of mbedtls/library/bignum.c. */
module MpiAdd {
  import opened Arith
  import opened Limbs
  import opened Mpis

  const ERR_NEGATIVE_VALUE: int := -0x000A

  // ---------------------------------------------------------------- unsigned addition

  /** x with carry c at limb i and the limbs i..j of b still to be added stands for total. */
  ghost predicate AddLeft(x: seq<Limb>, b: seq<Limb>, i: nat, j: nat, c: nat, total: nat) {
    && i <= j <= |b| && i <= |x|
    && Val(x) + c * BPow(i) + BPow(i) * Val(b[i..j]) == total
  }

  lemma AddStep(x: seq<Limb>, b: seq<Limb>, i: nat, j: nat, c: Limb, total: nat, y: Limb, c': nat)
    requires AddLeft(x, b, i, j, c, total) && i < j && i < |x|
    requires y + B * c' == x[i] + b[i] + c
    ensures AddLeft(x[i := y], b, i + 1, j, c', total)
  {
    hide Val, BPow;
    ValUpdate(x, i, y);
    ValCons(b[i..j]);
    assert b[i..j][1..] == b[i + 1..j];
    BPowSucc(i);
    AddInts(Val(x), x[i], b[i], c, c', y, BPow(i), Val(b[i + 1..j]));
  }

  lemma AddInts(vx: int, xi: int, bi: int, c: int, c': int, y: int, bp: int, vb: int)
    requires y + B * c' == xi + bi + c
    ensures vx + (y - xi) * bp + c' * (B * bp) + B * bp * vb == vx + c * bp + bp * (bi + B * vb)
  {
    assert (y + B * c') * bp == y * bp + c' * (B * bp) by { MulAssoc(B, c', bp); MulAssoc(c', B, bp); }
    assert B * bp * vb == bp * (B * vb) by { MulAssoc(bp, B, vb); }
    assert bp * (bi + B * vb) == bi * bp + bp * (B * vb);
    assert (xi + bi + c) * bp == xi * bp + bi * bp + c * bp;
    assert (y - xi) * bp == y * bp - xi * bp;
  }

  /** Propagating the last carry is adding an empty operand. */
  lemma AddCarryStep(x: seq<Limb>, i: nat, c: Limb, total: nat, y: Limb, c': nat)
    requires i < |x| && Val(x) + c * BPow(i) == total && y + B * c' == x[i] + c
    ensures Val(x[i := y]) + c' * BPow(i + 1) == total
  {
    hide Val, BPow;
    ValUpdate(x, i, y);
    BPowSucc(i);
    AddInts(Val(x), x[i], 0, c, c', y, BPow(i), 0);
  }

  lemma AddStart(x: seq<Limb>, b: seq<Limb>, j: nat)
    requires j <= |b|
    ensures AddLeft(x, b, 0, j, 0, Val(x) + Val(b[..j]))
  {
    hide Val, BPow;
    BPow0();
    assert b[0..j] == b[..j];
  }

  lemma AddEnd(x: seq<Limb>, b: seq<Limb>, j: nat, c: nat, total: nat)
    requires AddLeft(x, b, j, j, c, total)
    ensures Val(x) + c * BPow(j) == total
  {
    hide Val, BPow;
    assert b[j..j] == [];
    ValEmpty();
  }

  /** The limb loops of add_abs: at most one limb is appended, for the last carry. */
  method AddLimbs(x0: seq<Limb>, b: seq<Limb>, j: nat) returns (x: seq<Limb>)
    requires j <= |b| && j <= |x0|
    ensures Val(x) == Val(x0) + Val(b[..j])
    ensures |x0| <= |x| <= |x0| + 1
  {
    hide Val, BPow, AddLeft, WAdd;
    ghost var total := Val(x0) + Val(b[..j]);
    x := x0;
    var i, c: Limb := 0, 0;
    AddStart(x, b, j);
    while i < j
      invariant 0 <= i <= j && |x| == |x0| && c <= 1
      invariant AddLeft(x, b, i, j, c, total)
    {
      var t1 := WAdd(x[i], c);
      WAddCarry(x[i], c);
      var t2 := WAdd(t1, b[i]);
      WAddCarry(t1, b[i]);
      var c' := Flag(t1 < c) + Flag(t2 < b[i]);
      assert t2 + B * c' == x[i] + b[i] + c;
      AddStep(x, b, i, j, c, total, t2, c');
      x := x[i := t2];
      c := c';
      i := i + 1;
    }
    AddEnd(x, b, j, c, total);
    while c != 0
      invariant 0 <= i <= |x| && |x0| <= |x| <= |x0| + 1 && c <= 1
      invariant c != 0 ==> i <= |x0| == |x|
      invariant Val(x) + c * BPow(i) == total
      decreases |x0| + 1 - i
    {
      if i >= |x| {
        ghost var before := x;
        x := x + [0];
        ValHighZeros(x, i);
        assert x[..i] == before;
      }
      var y := WAdd(x[i], c);
      WAddCarry(x[i], c);
      AddCarryStep(x, i, c, total, y, Flag(y < c));
      x := x[i := y];
      c := Flag(y < c);
      i := i + 1;
    }
  }

  method AddAbs(X: Mpi, A: Mpi, B: Mpi)
    modifies X
    ensures X.s == 1
    ensures Val(X.p) == old(Val(A.p)) + old(Val(B.p))
    ensures |old(A.p)| > 0 ==> |X.p| >= |old(X.p)|
    ensures |X.p| <= Max(|old(X.p)|, Max(|old(A.p)|, |old(B.p)|)) + 1
  {
    hide Val, BPow;
    var A', B' := A, B;
    if X == B {
      A', B' := X, A;
    }
    if X != A' {
      SigLenProps(A'.p);
      Copy(X, A');
    }
    X.s := 1;
    var j := SignificantLimbs(B'.p);
    SigLenProps(B'.p);
    var b := B'.p;
    Grow(X, j);
    var x := AddLimbs(X.p, b, j);
    X.p := x;
  }

  // ---------------------------------------------------------------- unsigned subtraction

  /** d with borrow c at limb i, the limbs i..n of s still to be subtracted, stands for total. */
  ghost predicate SubLeft(d: seq<Limb>, s: seq<Limb>, i: nat, n: nat, c: nat, total: int) {
    && i <= n <= |s| && i <= |d|
    && Val(d) - c * BPow(i) - BPow(i) * Val(s[i..n]) == total
  }

  lemma SubStep(d: seq<Limb>, s: seq<Limb>, i: nat, n: nat, c: Limb, total: int, y: Limb, c': nat)
    requires SubLeft(d, s, i, n, c, total) && i < n && i < |d|
    requires y - B * c' == d[i] - s[i] - c
    ensures SubLeft(d[i := y], s, i + 1, n, c', total)
  {
    hide Val, BPow;
    ValUpdate(d, i, y);
    ValCons(s[i..n]);
    assert s[i..n][1..] == s[i + 1..n];
    BPowSucc(i);
    AddInts(Val(d), d[i], -(s[i] as int), 0 - c, 0 - c', y, BPow(i), 0 - Val(s[i + 1..n]));
  }

  lemma SubStart(d: seq<Limb>, s: seq<Limb>, n: nat)
    requires n <= |s|
    ensures SubLeft(d, s, 0, n, 0, Val(d) - Val(s[..n]))
  {
    hide Val, BPow;
    BPow0();
    assert s[0..n] == s[..n];
  }

  lemma SubEnd(d: seq<Limb>, s: seq<Limb>, n: nat, c: nat, total: int)
    requires SubLeft(d, s, n, n, c, total)
    ensures Val(d) - c * BPow(n) == total
  {
    hide Val, BPow;
    assert s[n..n] == [];
    ValEmpty();
  }

  /** mpi_sub_hlp: d - s on the low n limbs modulo B^n; c is the borrow. */
  method SubHlp(n: nat, d0: seq<Limb>, s: seq<Limb>) returns (c: Limb, d: seq<Limb>)
    requires n <= |d0| && n <= |s|
    ensures |d| == |d0| && d[n..] == d0[n..]
    ensures c == Flag(Val(d0[..n]) < Val(s[..n]))
    ensures Val(d[..n]) == Val(d0[..n]) - Val(s[..n]) + c * BPow(n)
    ensures Val(d) == Val(d0) - Val(s[..n]) + c * BPow(n)
  {
    hide Val, BPow, SubLeft, WSub;
    ghost var total := Val(d0) - Val(s[..n]);
    d := d0;
    c := 0;
    var i := 0;
    SubStart(d, s, n);
    while i < n
      invariant 0 <= i <= n && |d| == |d0| && c <= 1
      invariant d[n..] == d0[n..]
      invariant SubLeft(d, s, i, n, c, total)
    {
      var z := Flag(d[i] < c);
      var t1 := WSub(d[i], c);
      WSubBorrow(d[i], c);
      var c' := Flag(t1 < s[i]) + z;
      var t2 := WSub(t1, s[i]);
      WSubBorrow(t1, s[i]);
      SubStep(d, s, i, n, c, total, t2, c');
      d := d[i := t2];
      c := c';
      i := i + 1;
    }
    SubEnd(d, s, n, c, total);
    ValSplit(d, n);
    ValSplit(d0, n);
    ValBound(d[..n]);
    ValBound(d0[..n]);
    ValBound(s[..n]);
  }

  /** Limbs X has when A has been copied into it. */
  ghost function CopiedLimbs(X: Mpi, A: Mpi): nat
    reads X, A
  {
    if X == A then |X.p| else if |A.p| == 0 then 0 else Max(|X.p|, Max(SigLen(A.p), 1))
  }

  lemma CopiedEnough(X: Mpi, A: Mpi, B: Mpi)
    requires Val(A.p) >= Val(B.p)
    ensures SigLen(B.p) <= CopiedLimbs(X, A)
  {
    hide Val, BPow;
    SigLenProps(A.p);
    SigLenBound(B.p, SigLen(A.p));
  }

  /** Subtracting 1 from limb n on, given that a borrow out of limb n - 1 is owed. */
  method PropagateBorrow(x0: seq<Limb>, n0: nat, ghost v: int) returns (ret: int, x: seq<Limb>)
    requires n0 <= |x0| && Val(x0) == v + BPow(n0)
    ensures |x| == |x0|
    ensures ret == if v < 0 then ERR_NEGATIVE_VALUE else 0
    ensures ret == 0 ==> Val(x) == v
  {
    hide Val, BPow;
    x := x0;
    var n := n0;
    while n < |x| && x[n] == 0
      invariant n <= |x| == |x0|
      invariant Val(x) == v + BPow(n)
    {
      ValUpdate(x, n, B - 1);
      BPowSucc(n);
      assert (B - 1) * BPow(n) == B * BPow(n) - BPow(n);
      x := x[n := B - 1];
      n := n + 1;
    }
    ValBound(x);
    if n == |x| {
      return ERR_NEGATIVE_VALUE, x;
    }
    ValPositive(x, n);
    ValUpdate(x, n, x[n] - 1);
    x := x[n := x[n] - 1];
    ret := 0;
  }

  method SubAbs(X: Mpi, A: Mpi, B: Mpi) returns (ret: int)
    requires SigLen(B.p) <= CopiedLimbs(X, A)
    modifies X
    ensures X.s == 1
    ensures ret == if old(Val(A.p)) < old(Val(B.p)) then ERR_NEGATIVE_VALUE else 0
    ensures ret == 0 ==> Val(X.p) == old(Val(A.p)) - old(Val(B.p))
    ensures |X.p| == old(CopiedLimbs(X, A))
  {
    hide Val, BPow;
    var b := B.p;
    ghost var v: int := Val(A.p) as int - Val(B.p);
    if X != A {
      Copy(X, A);
    }
    X.s := 1;
    var n := SignificantLimbs(b);
    SigLenProps(b);
    var carry, x := SubHlp(n, X.p, b);
    if carry != 0 {
      ret, x := PropagateBorrow(x, n, v);
    } else {
      ret := 0;
    }
    X.p := x;
  }

  // ---------------------------------------------------------------- signed forms

  method AddMpi(X: Mpi, A: Mpi, B: Mpi)
    requires A.Ok() && B.Ok()
    modifies X
    ensures X.Ok() && X.Int() == old(A.Int()) + old(B.Int())
    ensures |old(A.p)| > 0 && |old(B.p)| > 0 ==> |X.p| >= |old(X.p)|
    ensures |X.p| <= Max(|old(X.p)|, Max(|old(A.p)|, |old(B.p)|)) + 1
  {
    hide Val, BPow;
    var s := A.s;
    if A.s * B.s < 0 {
      var c := CmpAbs(A, B);
      if c >= 0 {
        CopiedEnough(X, A, B);
        var ret := SubAbs(X, A, B);
        X.s := s;
      } else {
        CopiedEnough(X, B, A);
        var ret := SubAbs(X, B, A);
        X.s := -s;
      }
    } else {
      AddAbs(X, A, B);
      X.s := s;
    }
  }

  method SubMpi(X: Mpi, A: Mpi, B: Mpi)
    requires A.Ok() && B.Ok()
    modifies X
    ensures X.Ok() && X.Int() == old(A.Int()) - old(B.Int())
    ensures old(A.s) == 1 && old(A.Int()) >= old(B.Int()) ==> X.s == 1
    ensures |old(A.p)| > 0 && |old(B.p)| > 0 ==> |X.p| >= |old(X.p)|
    ensures |X.p| <= Max(|old(X.p)|, Max(|old(A.p)|, |old(B.p)|)) + 1
  {
    hide Val, BPow;
    var s := A.s;
    if A.s * B.s > 0 {
      var c := CmpAbs(A, B);
      if c >= 0 {
        CopiedEnough(X, A, B);
        var ret := SubAbs(X, A, B);
        X.s := s;
      } else {
        CopiedEnough(X, B, A);
        var ret := SubAbs(X, B, A);
        X.s := -s;
      }
    } else {
      AddAbs(X, A, B);
      X.s := s;
    }
  }

  method SubInt(X: Mpi, A: Mpi, z: Sint)
    requires A.Ok()
    modifies X
    ensures X.Ok() && X.Int() == old(A.Int()) - z
    ensures |old(A.p)| > 0 ==> |X.p| >= |old(X.p)|
  {
    var Y := new Mpi.FromLimb(if z < 0 then -1 else 1, AbsInt(z));
    ValSingle(AbsInt(z));
    SubMpi(X, A, Y);
  }
}
