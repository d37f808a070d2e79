/** Modular inverse of mbedtls/library/bignum.c. */
module MpiInv {
  import opened Arith
  import opened Limbs
  import opened Mpis
  import opened MpiShift
  import opened MpiAdd
  import opened MpiDiv
  import opened MpiGcd

  const ERR_BAD_INPUT_DATA: int := -0x0004
  const ERR_NOT_ACCEPTABLE: int := -0x000E

  // ---------------------------------------------------------------- integer facts

  ghost predicate Combines(u: int, v: int, a: int, n: int, t: int) {
    u * a + v * n == t
  }

  lemma ProductParity(x: int, y: int)
    ensures x * y % 2 == (if x % 2 == 1 && y % 2 == 1 then 1 else 0)
  {
    var i, j, r, s := x / 2, y / 2, x % 2, y % 2;
    assert x == 2 * i + r && y == 2 * j + s;
    ParityExpansion(i, r, j, s);
    DivModUnique(x * y, 2, 2 * (i * j) + i * s + j * r, r * s);
  }

  lemma ParityExpansion(i: int, r: int, j: int, s: int)
    ensures (2 * i + r) * (2 * j + s) == 2 * (2 * (i * j) + i * s + j * r) + r * s
  {
    assert 2 * i * (2 * j) == 4 * (i * j);
    assert 2 * i * s == 2 * (i * s) && r * (2 * j) == 2 * (j * r);
  }

  /** Adding the modulus to one coefficient and subtracting the other number from the second. */
  lemma Rebalance(u: int, v: int, a: int, n: int, t: int)
    requires Combines(u, v, a, n, t)
    ensures Combines(u + n, v - a, a, n, t)
  {
    assert (u + n) * a == u * a + n * a && (v - a) * n == v * n - a * n;
  }

  /** When a half is needed and the coefficients are not both even, rebalancing makes them so,
      whatever the parity of a and n, as long as one of these is odd. */
  lemma RebalanceEven(u: int, v: int, a: int, n: int, t: int)
    requires Combines(u, v, a, n, t) && t % 2 == 0 && (a % 2 == 1 || n % 2 == 1)
    requires u % 2 == 1 || v % 2 == 1
    ensures (u + n) % 2 == 0 && (v - a) % 2 == 0
  {
    ProductParity(u, a);
    ProductParity(v, n);
    EvenSum(u, v, a, n, u * a, v * n);
  }

  lemma EvenSum(u: int, v: int, a: int, n: int, x: int, y: int)
    requires x % 2 == (if u % 2 == 1 && a % 2 == 1 then 1 else 0)
    requires y % 2 == (if v % 2 == 1 && n % 2 == 1 then 1 else 0)
    requires (x + y) % 2 == 0 && (a % 2 == 1 || n % 2 == 1) && (u % 2 == 1 || v % 2 == 1)
    ensures (u + n) % 2 == 0 && (v - a) % 2 == 0
  {
  }

  lemma Halve(u: int, v: int, a: int, n: int, t: int)
    requires Combines(u, v, a, n, t) && t % 2 == 0 && u % 2 == 0 && v % 2 == 0
    ensures Combines(u / 2, v / 2, a, n, t / 2)
  {
    var i, j := u / 2, v / 2;
    assert u * a == 2 * (i * a) by { MulAssoc(2, i, a); }
    assert v * n == 2 * (j * n) by { MulAssoc(2, j, n); }
  }

  lemma CombineMinus(u: int, v: int, t: int, u': int, v': int, t': int, a: int, n: int)
    requires Combines(u, v, a, n, t) && Combines(u', v', a, n, t')
    ensures Combines(u - u', v - v', a, n, t - t')
  {
    assert (u - u') * a == u * a - u' * a && (v - v') * n == v * n - v' * n;
  }

  /** Common divisors of the working pair divide both inputs. */
  ghost predicate Inherits(x: int, y: int, a: int, n: int) {
    forall k: int :: 0 < k && Divides(k, x) && Divides(k, y) ==> Divides(k, a) && Divides(k, n)
  }

  lemma InheritsFactor(x: int, x': int, y: int, a: int, n: int)
    requires Inherits(x, y, a, n) && 0 < x' && Divides(x', x)
    ensures Inherits(x', y, a, n)
  {
    forall k: int | 0 < k && Divides(k, x') && Divides(k, y)
      ensures Divides(k, a) && Divides(k, n)
    {
      DividesTrans(k, x', x);
    }
  }

  lemma InheritsSym(x: int, y: int, a: int, n: int)
    requires Inherits(x, y, a, n)
    ensures Inherits(y, x, a, n)
  {
  }

  lemma InheritsMinus(x: int, y: int, a: int, n: int)
    requires Inherits(x, y, a, n)
    ensures Inherits(x - y, y, a, n)
  {
    forall k: int | 0 < k && Divides(k, x - y) && Divides(k, y)
      ensures Divides(k, a) && Divides(k, n)
    {
      DividesAdd(k, x - y, y);
    }
  }

  // ---------------------------------------------------------------- halving a triple

  /** The objects of one side are distinct, not empty and their values combine. */
  ghost predicate Triple(T: Mpi, U: Mpi, V: Mpi, a: int, n: int)
    reads T, U, V
  {
    && T != U && T != V && U != V
    && T.Ok() && U.Ok() && V.Ok()
    && |T.p| > 0 && |U.p| > 0 && |V.p| > 0
    && Combines(U.Int(), V.Int(), a, n, T.Int())
  }

  /** X := X / 2 for an even number of any sign. */
  method HalveEven(X: Mpi)
    requires X.Ok() && |X.p| > 0 && X.Int() % 2 == 0
    modifies X
    ensures X.Ok() && |X.p| > 0 && X.Int() == old(X.Int()) / 2
  {
    hide Val;
    Pow2Succ(0);
    Pow2Succ(1);
    assert Pow2(1) == 2;
    ShiftR(X, 1);
  }

  /** One pass of either inner loop. */
  method HalvePass(T: Mpi, U: Mpi, V: Mpi, TA: Mpi, TB: Mpi)
    requires Triple(T, U, V, TA.Int(), TB.Int()) && {TA, TB} !! {T, U, V}
    requires TA.Ok() && TB.Ok() && |TA.p| > 0 && |TB.p| > 0
    requires TA.Int() % 2 == 1 || TB.Int() % 2 == 1
    requires T.Int() % 2 == 0
    modifies T, U, V
    ensures Triple(T, U, V, TA.Int(), TB.Int()) && T.Int() == old(T.Int()) / 2
  {
    hide Val, Combines;
    ghost var a, n := TA.Int(), TB.Int();
    ghost var t, u, v := T.Int(), U.Int(), V.Int();
    HalveEven(T);
    ParityOfInt(U);
    ParityOfInt(V);
    if U.p[0] % 2 != 0 || V.p[0] % 2 != 0 {
      RebalanceEven(u, v, a, n, t);
      Rebalance(u, v, a, n, t);
      AddMpi(U, U, TB);
      SubMpi(V, V, TA);
    }
    Halve(U.Int(), V.Int(), a, n, t);
    HalveEven(U);
    HalveEven(V);
  }

  /** The inner loops: T loses its factors of two, every halving being exact. */
  method MakeOdd(T: Mpi, U: Mpi, V: Mpi, TA: Mpi, TB: Mpi)
    requires Triple(T, U, V, TA.Int(), TB.Int()) && {TA, TB} !! {T, U, V}
    requires TA.Ok() && TB.Ok() && |TA.p| > 0 && |TB.p| > 0
    requires TA.Int() % 2 == 1 || TB.Int() % 2 == 1
    requires 0 < T.Int()
    modifies T, U, V
    ensures Triple(T, U, V, TA.Int(), TB.Int())
    ensures 0 < T.Int() <= old(T.Int()) && Divides(T.Int(), old(T.Int()))
  {
    hide Val, Combines;
    ParityOfInt(T);
    DividesBy(T.Int(), T.Int(), 1);
    while T.p[0] % 2 == 0
      invariant Triple(T, U, V, TA.Int(), TB.Int())
      invariant T.p[0] % 2 == T.Int() % 2
      invariant 0 < T.Int() <= old(T.Int()) && Divides(T.Int(), old(T.Int()))
      decreases T.Int()
    {
      ghost var t := T.Int();
      HalvePass(T, U, V, TA, TB);
      DividesBy(T.Int(), t, 2);
      DividesTrans(T.Int(), t, old(T.Int()));
      ParityOfInt(T);
    }
  }

  /** Subtract one side from the other. */
  method SubtractTriple(T: Mpi, U: Mpi, V: Mpi, T': Mpi, U': Mpi, V': Mpi, ghost a: int, ghost n: int)
    requires Triple(T, U, V, a, n) && Triple(T', U', V', a, n) && {T, U, V} !! {T', U', V'}
    modifies T, U, V
    ensures Triple(T, U, V, a, n) && T.Int() == old(T.Int()) - T'.Int()
  {
    hide Val, Combines;
    CombineMinus(U.Int(), V.Int(), T.Int(), U'.Int(), V'.Int(), T'.Int(), a, n);
    SubMpi(T, T, T');
    SubMpi(U, U, U');
    SubMpi(V, V, V');
  }

  // ---------------------------------------------------------------- the extended binary gcd

  /** Both sides of the loop: their combinations hold and nothing common is lost. */
  ghost predicate Sides(TU: Mpi, U1: Mpi, U2: Mpi, TV: Mpi, V1: Mpi, V2: Mpi, TA: Mpi, TB: Mpi)
    reads TU, U1, U2, TV, V1, V2, TA, TB
  {
    && {TU, U1, U2} !! {TV, V1, V2} && {TA, TB} !! {TU, U1, U2} && {TA, TB} !! {TV, V1, V2}
    && TA.Ok() && TB.Ok() && |TA.p| > 0 && |TB.p| > 0
    && (TA.Int() % 2 == 1 || TB.Int() % 2 == 1)
    && Triple(TU, U1, U2, TA.Int(), TB.Int()) && Triple(TV, V1, V2, TA.Int(), TB.Int())
    && 0 <= TU.Int() && 0 < TV.Int() && Inherits(TU.Int(), TV.Int(), TA.Int(), TB.Int())
  }

  /** One pass of the do-while loop. */
  method ExtendedRound(TU: Mpi, U1: Mpi, U2: Mpi, TV: Mpi, V1: Mpi, V2: Mpi, TA: Mpi, TB: Mpi)
    requires Sides(TU, U1, U2, TV, V1, V2, TA, TB) && 0 < TU.Int()
    modifies TU, U1, U2, TV, V1, V2
    ensures Sides(TU, U1, U2, TV, V1, V2, TA, TB)
    ensures TU.Int() + TV.Int() < old(TU.Int() + TV.Int())
  {
    hide Val, Combines, Inherits;
    ghost var a, n, x, y := TA.Int(), TB.Int(), TU.Int(), TV.Int();
    MakeOdd(TU, U1, U2, TA, TB);
    MakeOdd(TV, V1, V2, TA, TB);
    InheritsOddParts(x, TU.Int(), y, TV.Int(), a, n);
    var c := CmpMpi(TU, TV);
    if c >= 0 {
      SubtractTriple(TU, U1, U2, TV, V1, V2, a, n);
    } else {
      SubtractTriple(TV, V1, V2, TU, U1, U2, a, n);
    }
  }

  lemma InheritsOddParts(x: int, x': int, y: int, y': int, a: int, n: int)
    requires Inherits(x, y, a, n) && 0 < x' && Divides(x', x) && 0 < y' && Divides(y', y)
    ensures Inherits(x' - y', y', a, n) && Inherits(x', y' - x', a, n)
  {
    hide Inherits;
    InheritsFactor(x, x', y, a, n);
    InheritsSym(x', y, a, n);
    InheritsFactor(y, y', x', a, n);
    InheritsMinus(y', x', a, n);
    InheritsSym(y' - x', x', a, n);
    InheritsSym(y', x', a, n);
    InheritsMinus(x', y', a, n);
  }

  /** The do-while loop of inv_mod. */
  method ExtendedGcd(TU: Mpi, U1: Mpi, U2: Mpi, TV: Mpi, V1: Mpi, V2: Mpi, TA: Mpi, TB: Mpi)
    requires Sides(TU, U1, U2, TV, V1, V2, TA, TB) && 0 < TU.Int()
    modifies TU, U1, U2, TV, V1, V2
    ensures Sides(TU, U1, U2, TV, V1, V2, TA, TB) && TU.Int() == 0
  {
    hide Val, Triple, Inherits;
    var c := 1;
    while c != 0
      invariant Sides(TU, U1, U2, TV, V1, V2, TA, TB)
      invariant c == 0 <==> TU.Int() == 0
      decreases TU.Int() + TV.Int()
    {
      ExtendedRound(TU, U1, U2, TV, V1, V2, TA, TB);
      TripleOk(TU, U1, U2, TA.Int(), TB.Int());
      c := CmpInt(TU, 0);
    }
  }

  lemma TripleOk(T: Mpi, U: Mpi, V: Mpi, a: int, n: int)
    requires Triple(T, U, V, a, n)
    ensures T.Ok() && U.Ok() && |U.p| > 0 && Combines(U.Int(), V.Int(), a, n, T.Int())
  {
  }

  // ---------------------------------------------------------------- inv_mod

  /** With gcd 1 the last remainder is 1, so V1 * TA = 1 modulo N. */
  lemma LastIsOne(ta: int, n: int, a: int, tv: int, v1: int, v2: int)
    requires 0 < n && ta == a % n && IsGcd(1, AbsInt(a), n)
    requires 0 < tv && Inherits(0, tv, ta, n) && Combines(v1, v2, ta, n, tv)
    ensures Cong(a * (v1 % n), 1, n)
  {
    hide IsGcd;
    DividesBy(tv, 0, 0);
    DividesBy(tv, tv, 1);
    assert Divides(tv, ta) && Divides(tv, n);
    hide Inherits;
    CommonIsOne(ta, n, a, tv);
    assert v1 * ta - 1 == n * (-v2);
    DividesBy(n, v1 * ta - 1, -v2);
    CongMod(a, n);
    CongMod(v1, n);
    assert Cong(ta * v1, 1, n) by { assert ta * v1 == v1 * ta; }
    hide Cong, Divides;
    CongMul(a, ta, v1 % n, v1, n);
    CongTrans(a * (v1 % n), ta * v1, 1, n);
  }

  lemma CommonIsOne(ta: int, n: int, a: int, k: int)
    requires 0 < n && ta == a % n && IsGcd(1, AbsInt(a), n)
    requires 0 < k && Divides(k, ta) && Divides(k, n)
    ensures k == 1
  {
    var q := a / n;
    assert a == n * q + ta;
    hide Divides;
    DividesTimes(k, n, q);
    DividesAdd(k, n * q, ta);
    DividesTimes(k, a, -1);
    DividesOneOnly(k, AbsInt(a), n);
  }

  lemma DividesOneOnly(k: int, x: nat, n: nat)
    requires IsGcd(1, x, n) && 0 < k && Divides(k, x) && Divides(k, n)
    ensures k == 1
  {
    if x != 0 || n != 0 { DividesLe(k, 1); }
  }

  /** Without gcd 1 there is no inverse at all. */
  lemma NoInverse(a: int, n: int, g: nat, x: int)
    requires 1 < n && IsGcd(g, AbsInt(a), n) && g != 1
    ensures !Cong(a * x, 1, n)
  {
    if Cong(a * x, 1, n) {
      DividesTimes(g, AbsInt(a), if a < 0 then -1 else 1);
      DividesTimes(g, a, x);
      DividesTrans(g, n, a * x - 1);
      DividesAdd(g, a * x, a * x - 1);
      DividesLe(g, 1);
    }
  }

  /** One of TA and N is odd when their gcd is 1. */
  lemma OneIsOdd(ta: int, n: int, a: int)
    requires 0 < n && ta == a % n && IsGcd(1, AbsInt(a), n)
    ensures ta % 2 == 1 || n % 2 == 1
  {
    if ta % 2 == 0 && n % 2 == 0 {
      CommonIsOne(ta, n, a, 2);
    }
  }

  /** ta is not zero: the modulus would be a common divisor. */
  lemma NotZero(ta: int, n: int, a: int)
    requires 1 < n && ta == a % n && IsGcd(1, AbsInt(a), n)
    ensures 0 < ta
  {
    if ta == 0 {
      DividesBy(n, 0, 0);
      DividesBy(n, n, 1);
      CommonIsOne(ta, n, a, n);
    }
  }

  /** mpi_init followed by mpi_copy, and by mpi_lset. */
  method NewCopy(A: Mpi) returns (M: Mpi)
    requires A.Ok() && |A.p| > 0
    ensures fresh(M) && M.Ok() && |M.p| > 0 && M.Int() == A.Int()
  {
    hide Val;
    M := new Mpi();
    Copy(M, A);
  }

  method NewInt(z: Sint) returns (M: Mpi)
    ensures fresh(M) && M.Ok() && |M.p| > 0 && M.Int() == z
  {
    hide Val;
    M := new Mpi();
    Lset(M, z);
  }

  /** One side of the loop at its start: a copy of S and the coefficients u and v. */
  method NewSide(S: Mpi, u: Sint, v: Sint, ghost a: int, ghost n: int) returns (T: Mpi, U: Mpi, V: Mpi)
    requires S.Ok() && |S.p| > 0 && Combines(u, v, a, n, S.Int())
    ensures fresh(T) && fresh(U) && fresh(V) && T.Int() == S.Int() && Triple(T, U, V, a, n)
  {
    hide Val, Combines;
    T := NewCopy(S);
    U := NewInt(u);
    V := NewInt(v);
  }

  /** Runs the extended gcd on (TA, N) and returns the coefficient of TA. */
  method Coefficient(TA: Mpi, N: Mpi) returns (V1: Mpi, ghost tv: int, ghost v2: int)
    requires TA.Ok() && N.Ok() && |TA.p| > 0 && |N.p| > 0 && 0 < TA.Int() && 0 < N.Int()
    requires TA.Int() % 2 == 1 || N.Int() % 2 == 1
    ensures fresh(V1) && V1.Ok() && |V1.p| > 0
    ensures 0 < tv && Inherits(0, tv, TA.Int(), N.Int()) && Combines(V1.Int(), v2, TA.Int(), N.Int(), tv)
  {
    hide Val, Combines, Inherits;
    hide Triple;
    StartSides(TA.Int(), N.Int());
    var TB := NewCopy(N);
    var TU, U1, U2 := NewSide(TA, 1, 0, TA.Int(), N.Int());
    var TV, V1', V2 := NewSide(N, 0, 1, TA.Int(), N.Int());
    V1 := V1';
    ExtendedGcd(TU, U1, U2, TV, V1, V2, TA, TB);
    TripleOk(TV, V1, V2, TA.Int(), N.Int());
    tv, v2 := TV.Int(), V2.Int();
  }

  /** The part of inv_mod after the gcd test. */
  method Invert(X: Mpi, A: Mpi, N: Mpi)
    requires X.Ok() && A.Ok() && N.Ok() && X != N && 1 < N.Int() && |A.p| > 0 && |N.p| > 0
    requires IsGcd(1, Val(A.p), Val(N.p))
    modifies X
    ensures X.Ok() && 0 < X.Int() < N.Int() && Cong(old(A.Int()) * X.Int(), 1, N.Int())
  {
    hide Val, Combines, Inherits, IsGcd, Cong;
    ghost var a, n := A.Int(), N.Int();
    var TA := new Mpi();
    var ret := ModMpi(TA, A, N);
    OneIsOdd(TA.Int(), n, a);
    NotZero(TA.Int(), n, a);
    var V1; ghost var tv, v2;
    V1, tv, v2 := Coefficient(TA, N);
    LastIsOne(TA.Int(), n, a, tv, V1.Int(), v2);
    CongMod(V1.Int(), n);
    BringIntoRange(V1, N);
    InverseInRange(a, V1.Int(), n);
    Copy(X, V1);
  }

  lemma StartSides(ta: int, n: int)
    ensures Combines(1, 0, ta, n, ta) && Combines(0, 1, ta, n, n) && Inherits(ta, n, ta, n)
  {
    assert 1 * ta + 0 * n == ta && 0 * ta + 1 * n == n;
  }

  lemma InverseInRange(a: int, x: int, n: int)
    requires 1 < n && 0 <= x && Cong(a * x, 1, n)
    ensures 0 < x
  {
    if x == 0 {
      assert a * x == 0;
      DivModUnique(-1, n, -1, n - 1);
    }
  }

  method InvMod(X: Mpi, A: Mpi, N: Mpi) returns (ret: int)
    requires X.Ok() && A.Ok() && N.Ok() && X != N
    modifies X
    ensures ret == if N.Int() <= 1 then ERR_BAD_INPUT_DATA
                   else if IsGcd(1, old(Val(A.p)), Val(N.p)) then 0 else ERR_NOT_ACCEPTABLE
    ensures ret == 0 ==> X.Ok() && 0 < X.Int() < N.Int() && Cong(old(A.Int()) * X.Int(), 1, N.Int())
    ensures ret != 0 ==> X.s == old(X.s) && X.p == old(X.p)
    ensures ret == ERR_NOT_ACCEPTABLE ==> forall x: int :: !Cong(A.Int() * x, 1, N.Int())
  {
    hide Val, IsGcd, Cong;
    var c := CmpInt(N, 1);
    if c <= 0 {
      return ERR_BAD_INPUT_DATA;
    }
    var G := new Mpi();
    Gcd(G, A, N);
    c := CmpInt(G, 1);
    if c != 0 {
      RefuseInverse(A, N, Val(G.p));
      return ERR_NOT_ACCEPTABLE;
    }
    NotEmpty(A, N);
    Invert(X, A, N);
    return 0;
  }

  lemma RefuseInverse(A: Mpi, N: Mpi, g: nat)
    requires A.Ok() && N.Ok() && 1 < N.Int() && IsGcd(g, Val(A.p), Val(N.p)) && g != 1
    ensures !IsGcd(1, Val(A.p), Val(N.p))
    ensures forall x: int :: !Cong(A.Int() * x, 1, N.Int())
  {
    hide Val, Cong;
    if IsGcd(1, Val(A.p), Val(N.p)) { GcdUnique(1, g, Val(A.p), Val(N.p)); }
    hide IsGcd;
    forall x: int
      ensures !Cong(A.Int() * x, 1, N.Int())
    {
      NoInverse(A.Int(), N.Int(), g, x);
    }
  }

  lemma NotEmpty(A: Mpi, N: Mpi)
    requires A.Ok() && N.Ok() && 1 < N.Int() && IsGcd(1, Val(A.p), Val(N.p))
    ensures |A.p| > 0 && |N.p| > 0
  {
    if |A.p| == 0 {
      ValEmpty();
      DividesBy(Val(N.p), 0, 0);
      DividesBy(Val(N.p), Val(N.p), 1);
      DividesLe(Val(N.p), 1);
    }
  }
}
