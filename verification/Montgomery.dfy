/** Montgomery arithmetic of mbedtls/library/bignum.c. R stands for B^n, n the limbs of N. */
module Montgomery {
  import opened Arith
  import opened Limbs
  import opened Mpis
  import opened MpiAdd
  import opened MpiMul

  // ---------------------------------------------------------------- mpi_montg_init

  /** mm is the negated inverse of the lowest limb modulo B. */
  predicate IsMontInverse(mm: Limb, m0: Limb) {
    Divides(B, mm * m0 + 1)
  }

  /** The starting value is an inverse modulo 16 of every odd number. */
  lemma MontStart(m0: Limb, x: Limb)
    requires m0 % 2 == 1
    requires x == WAdd(m0, 8 * (WAdd(m0, 2) / 4 % 2))
    ensures Cong(m0 * x, 1, 16)
  {
    var q, r := m0 / 16, m0 % 16;
    var e := (r + 2) / 4 % 2;
    StartBit(m0);
    StartResidues(r);
    var j := StartWrap(m0, e, x);
    StartInts(q, r, r + 8 * e, q - j);
    var k := r * (q - j) + q * (r + 8 * e) + 16 * (q * (q - j));
    var l := r * (r + 8 * e) / 16;
    assert r * (r + 8 * e) == 16 * l + 1;
    hide WAdd, Cong;
    DividesBy(16, m0 * x - 1, l + k);
    CongIs(m0 * x, 1, 16);
  }

  lemma CongIs(a: int, b: int, m: int)
    requires 0 < m && Divides(m, a - b)
    ensures Cong(a, b, m)
  {
  }

  /** Bit 2 of m0 + 2 depends on the low four bits only. */
  lemma StartBit(m0: Limb)
    ensures WAdd(m0, 2) / 4 % 2 == (m0 % 16 + 2) / 4 % 2
  {
    var q, s := m0 / 16, m0 % 16 + 2;
    WAddCarry(m0, 2);
    hide WAdd;
    var q' := if WAdd(m0, 2) < 2 then q - B / 16 else q;
    assert WAdd(m0, 2) == 16 * q' + s;
    DivModUnique(16 * q' + s, 4, 4 * q' + s / 4, s % 4);
    DivModUnique(4 * q' + s / 4, 2, 2 * q' + s / 4 / 2, s / 4 % 2);
  }

  lemma StartWrap(m0: Limb, e: nat, x: Limb) returns (j: int)
    requires e < 2 && x == WAdd(m0, 8 * e)
    ensures x == m0 % 16 + 8 * e + 16 * (m0 / 16 - j)
  {
    WAddCarry(m0, 8 * e);
    j := if WAdd(m0, 8 * e) < 8 * e then B / 16 else 0;
  }

  lemma StartResidues(r: nat)
    requires r < 16 && r % 2 == 1
    ensures r * (r + 8 * ((r + 2) / 4 % 2)) % 16 == 1
  {
    assert r in {1, 3, 5, 7, 9, 11, 13, 15};
  }

  lemma StartInts(q: int, r: int, s: int, k: int)
    ensures (16 * q + r) * (s + 16 * k) == r * s + 16 * (r * k + q * s + 16 * (q * k))
  {
    assert 16 * q * (16 * k) == 256 * (q * k);
    assert 16 * q * s == 16 * (q * s);
    assert r * (16 * k) == 16 * (r * k);
  }

  lemma CongDown(a: int, b: int, m: int, d: int)
    requires 0 < m && 0 < d && Cong(a, b, m) && Divides(d, m)
    ensures Cong(a, b, d)
  {
    DividesTrans(d, m, a - b);
  }

  /** The wrapped Newton step is the exact one modulo B. */
  lemma NewtonWrap(m0: Limb, x: Limb)
    ensures Cong(WMul(x, WSub(2, WMul(m0, x))), x * (2 - m0 * x), B)
  {
    var e: int, f: int := m0 * x, WMul(m0, x);
    CongMod(e, B);
    CongRefl(2, B);
    CongMod(2 - f, B);
    CongRefl(x, B);
    CongMod(x * WSub(2, f), B);
    assert Cong(f, e, B) && Cong(WSub(2, f), 2 - f, B);
    hide Cong, Divides;
    CongAdd(2, 2, f, e, B);
    CongTrans(WSub(2, f), 2 - f, 2 - e, B);
    CongMul(x, x, WSub(2, f), 2 - e, B);
    CongTrans(WMul(x, WSub(2, f)), x * WSub(2, f), x * (2 - e), B);
  }

  /** One Newton step squares the modulus up to which x is an inverse. */
  lemma NewtonStep(m0: Limb, x: Limb, p: int)
    requires 0 < p && Cong(m0 * x, 1, p) && Divides(p * p, B)
    ensures Cong(m0 * WMul(x, WSub(2, WMul(m0, x))), 1, p * p)
  {
    NewtonAlgebra(m0, x, p);
    NewtonWrap(m0, x);
    hide WMul, WSub, Cong, Divides;
    var y: int, z := WMul(x, WSub(2, WMul(m0, x))), x * (2 - m0 * x);
    CongRefl(m0, B);
    CongMul(m0, m0, y, z, B);
    CongDown(m0 * y, m0 * z, B, p * p);
    CongTrans(m0 * y, m0 * z, 1, p * p);
  }

  lemma NewtonAlgebra(m: int, x: int, p: int)
    requires 0 < p && Cong(m * x, 1, p)
    ensures 0 < p * p && Cong(m * (x * (2 - m * x)), 1, p * p)
  {
    var e := m * x;
    var k := (e - 1) / p;
    assert e - 1 == p * k;
    MulMonoStrict(0, p, p);
    assert m * (x * (2 - e)) == e * (2 - e) by { MulAssoc(m, x, 2 - e); }
    assert e * (2 - e) - 1 == -((e - 1) * (e - 1));
    assert p * k * (p * k) == p * p * (k * k) by { MulShuffle(p, k, p, k); }
    hide Cong;
    DividesBy(p * p, m * (x * (2 - e)) - 1, -(k * k));
    CongIs(m * (x * (2 - e)), 1, p * p);
  }

  /** The modulus reached when the loop counter of mpi_montg_init is i. */
  function Reached(i: nat): nat {
    if i == 64 then 16
    else if i == 32 then 0x100
    else if i == 16 then 0x1_0000
    else if i == 8 then 0x1_0000_0000
    else B
  }

  method MontgInit(m0: Limb) returns (mm: Limb)
    requires m0 % 2 == 1
    ensures IsMontInverse(mm, m0)
  {
    hide WMul, WSub, WAdd, Cong;
    var x: Limb := WAdd(m0, 8 * (WAdd(m0, 2) / 4 % 2));
    MontStart(m0, x);
    var i := BIL;
    while i >= 8
      invariant i in {64, 32, 16, 8, 4}
      invariant Cong(m0 * x, 1, Reached(i))
    {
      ReachedStep(i);
      NewtonStep(m0, x, Reached(i));
      x := WMul(x, WSub(2, WMul(m0, x)));
      i := i / 2;
    }
    MontNegate(m0, x);
    mm := WAdd(B - 1 - x, 1);
  }

  lemma ReachedStep(i: nat)
    requires i in {64, 32, 16, 8}
    ensures Reached(i / 2) == Reached(i) * Reached(i) && Divides(Reached(i) * Reached(i), B)
  {
  }

  lemma MontNegate(m0: Limb, x: Limb)
    requires Cong(m0 * x, 1, B)
    ensures IsMontInverse(WAdd(B - 1 - x, 1), m0)
  {
    WAddCarry(B - 1 - x, 1);
    var mm := WAdd(B - 1 - x, 1);
    var c: int := Flag(mm < 1);
    assert mm == B - x - B * c;
    var k := (m0 * x - 1) / B;
    assert m0 * x == 1 + B * k;
    assert mm * m0 + 1 == B * (m0 - c * m0 - k) by {
      assert (B - x - B * c) * m0 == B * m0 - x * m0 - B * (c * m0) by { MulAssoc(B, c, m0); }
    }
    DividesBy(B, mm * m0 + 1, m0 - c * m0 - k);
  }

  // ---------------------------------------------------------------- one round of mpi_montmul

  /** After i rounds the window t[i..] times B^i is the partial product modulo nv. */
  ghost predicate MontPartial(t: seq<Limb>, a: seq<Limb>, b: nat, nv: nat, i: nat) {
    && i <= |t| && i <= |a| && 0 < nv
    && Val(t[i..]) < b + nv
    && Cong(BPow(i) * Val(t[i..]), Val(a[..i]) * b, nv)
  }

  /** The multiple of N that clears the lowest limb of the window. */
  lemma MontDigit(d0: Limb, u0: Limb, b0: Limb, mm: Limb, n0: Limb)
    requires IsMontInverse(mm, n0)
    ensures Divides(B, d0 + u0 * b0 + WMul(WAdd(d0, WMul(u0, b0)), mm) * n0)
  {
    var e := d0 + u0 * b0;
    var v := WAdd(d0, WMul(u0, b0));
    var u1 := WMul(v, mm);
    CongMod(u0 * b0, B);
    CongRefl(d0, B);
    CongAdd(d0, d0, WMul(u0, b0), u0 * b0, B);
    CongMod(d0 + WMul(u0, b0), B);
    CongTrans(v, d0 + WMul(u0, b0), e, B);
    CongMod(v * mm, B);
    CongRefl(mm, B);
    CongMul(v, e, mm, mm, B);
    CongTrans(u1, v * mm, e * mm, B);
    CongRefl(n0, B);
    CongMul(u1, e * mm, n0, n0, B);
    DividesTimes(B, mm * n0 + 1, e);
    assert e * mm * n0 + e == e * (mm * n0 + 1) by { MulAssoc(e, mm, n0); }
    DividesAdd(B, u1 * n0 - e * mm * n0, e * mm * n0 + e);
    assert u1 * n0 - e * mm * n0 + (e * mm * n0 + e) == e + u1 * n0;
  }

  /** Sums of products are congruent to their lowest limbs modulo B. */
  lemma LowLimb(d: seq<Limb>, b: seq<Limb>, nn: seq<Limb>, u0: nat, u1: nat)
    requires |d| > 0 && |b| > 0 && |nn| > 0
    ensures Cong(Val(d) + Val(b) * u0 + Val(nn) * u1, d[0] + u0 * b[0] + u1 * nn[0], B)
  {
    hide Val, BPow, Cong, Divides;
    ValCons(d);
    ValCons(b);
    ValCons(nn);
    LowInts(d[0], Val(d[1..]), b[0], Val(b[1..]), nn[0], Val(nn[1..]), u0, u1);
  }

  lemma LowInts(d0: nat, x: nat, b0: nat, y: nat, n0: nat, z: nat, u0: nat, u1: nat)
    ensures Cong(d0 + B * x + (b0 + B * y) * u0 + (n0 + B * z) * u1, d0 + u0 * b0 + u1 * n0, B)
  {
    hide Cong, Divides;
    var l, r := d0 + B * x + (b0 + B * y) * u0 + (n0 + B * z) * u1, d0 + u0 * b0 + u1 * n0;
    assert (b0 + B * y) * u0 == u0 * b0 + B * (y * u0) by { MulAssoc(B, y, u0); }
    assert (n0 + B * z) * u1 == u1 * n0 + B * (z * u1) by { MulAssoc(B, z, u1); }
    assert l - r == B * (x + y * u0 + z * u1);
    DividesBy(B, l - r, x + y * u0 + z * u1);
    CongIs(l, r, B);
  }

  /** T = (T + u0 * B + u1 * N) / 2^biL keeps the partial product and its bound. */
  lemma MontRound(t: seq<Limb>, a: seq<Limb>, b: nat, nv: nat, i: nat, u1: Limb, s: nat, w: nat)
    requires MontPartial(t, a, b, nv, i) && i < |a|
    requires s == Val(t[i..]) + b * a[i] + nv * u1 && s == B * w
    ensures w < b + nv
    ensures Cong(BPow(i + 1) * w, Val(a[..i + 1]) * b, nv)
  {
    hide Val, BPow, Cong;
    var v := Val(t[i..]);
    MulMono(a[i], B - 1, b);
    MulMono(u1, B - 1, nv);
    assert B * w < B * (b + nv);
    MulCancelLess(w, b + nv, B);
    BPowSucc(i);
    ValSnoc(a, i);
    var bp, u0: int := BPow(i), a[i];
    assert B * bp * w == bp * v + bp * (b * u0) + nv * (bp * u1) by {
      assert B * bp * w == bp * (B * w) by { MulAssoc(bp, B, w); }
      assert bp * (nv * u1) == nv * (bp * u1) by { MulAssoc(bp, nv, u1); MulAssoc(nv, bp, u1); }
    }
    assert (Val(a[..i]) + u0 * bp) * b == Val(a[..i]) * b + bp * (b * u0) by {
      assert u0 * bp * b == bp * (b * u0) by { MulAssoc(bp, b, u0); MulAssoc(u0, bp, b); }
    }
    CongPlus(bp * v, Val(a[..i]) * b, bp * (b * u0), bp * u1, nv);
  }

  lemma CongPlus(x: int, y: int, c: int, k: int, m: int)
    requires 0 < m && Cong(x, y, m)
    ensures Cong(x + c + m * k, y + c, m)
  {
    DividesBy(m, m * k, k);
    DividesAdd(m, x - y, m * k);
    assert x - y + m * k == x + c + m * k - (y + c);
  }

  /** No carry of either row leaves the window of n + 2 limbs. */
  lemma RowsFit(b: nat, nv: nat, n: nat, v: nat, u0: Limb, u1: Limb, k: nat)
    requires v < b + nv && b <= nv < BPow(n) && n + 2 <= k
    ensures v + b * u0 <= v + b * u0 + nv * u1 < BPow(k)
  {
    hide BPow;
    MulMono(u0, B - 1, b);
    MulMono(u1, B - 1, nv);
    BPowSucc(n);
    BPowSucc(n + 1);
    BPowMono(n + 2, k);
    MulMono(0, u1, nv);
  }

  /** The window after one round: the lowest limb is dropped, the top one is already zero. */
  lemma NextWindow(t: seq<Limb>, a: seq<Limb>, b: nat, nv: nat, i: nat, n: nat, u1: Limb,
                   d: seq<Limb>, t': seq<Limb>)
    requires MontPartial(t, a, b, nv, i) && i < |a| && b <= nv < BPow(n)
    requires |d| == |t| - i && n + 2 < |d| && Divides(B, Val(d))
    requires Val(d) == Val(t[i..]) + b * a[i] + nv * u1
    requires t' == (t[..i] + d)[i := a[i]][i + n + 2 := 0]
    ensures MontPartial(t', a, b, nv, i + 1)
  {
    hide Val, BPow, Cong, Divides;
    ValCons(d);
    var w := Val(d[1..]);
    LowestIsZero(d[0], w);
    MontRound(t, a, b, nv, i, u1, Val(d), w);
    BPowSucc(n);
    ValSmall(d[1..], n + 1);
    assert t'[i + 1..] == d[1..][n + 1 := 0];
    assert d[1..][n + 1] == 0;
    assert d[1..][n + 1 := 0] == d[1..];
  }

  lemma LowestIsZero(d0: Limb, w: nat)
    requires Divides(B, d0 + B * w)
    ensures d0 == 0
  {
    DivModUnique(d0 + B * w, B, w, d0);
  }

  /** One iteration of the loop of mpi_montmul on the scratch t, at offset i. */
  method MontIteration(t: seq<Limb>, i: nat, a: seq<Limb>, b: seq<Limb>, nn: seq<Limb>, mm: Limb)
    returns (t': seq<Limb>)
    requires 0 < |b| <= |nn| && i < |nn| <= |a| && 2 * (|nn| + 1) <= |t|
    requires Val(b) <= Val(nn) && IsMontInverse(mm, nn[0])
    requires MontPartial(t, a, Val(b), Val(nn), i)
    ensures |t'| == |t| && MontPartial(t', a, Val(b), Val(nn), i + 1)
  {
    hide Val, BPow, MontPartial, WMul, WAdd, IsMontInverse, Divides;
    var n := |nn|;
    var d := t[i..];
    var u0: Limb := a[i];
    var u1 := WMul(WAdd(d[0], WMul(u0, b[0])), mm);
    RoundTotal(t, i, a, b, nn, mm, u1);
    ValFull(b);
    ValFull(nn);
    d := MulHlp(|b|, b, d, u0);
    d := MulHlp(n, nn, d, u1);
    t' := (t[..i] + d)[i := u0][i + n + 2 := 0];
    ValBound(nn);
    NextWindow(t, a, Val(b), Val(nn), i, n, u1, d, t');
  }

  /** What both rows of one round add up to: it fits the window and its lowest limb is zero. */
  lemma RoundTotal(t: seq<Limb>, i: nat, a: seq<Limb>, b: seq<Limb>, nn: seq<Limb>, mm: Limb, u1: Limb)
    requires 0 < |b| <= |nn| && i < |nn| <= |a| && 2 * (|nn| + 1) <= |t|
    requires Val(b) <= Val(nn) && IsMontInverse(mm, nn[0])
    requires MontPartial(t, a, Val(b), Val(nn), i)
    requires u1 == WMul(WAdd(t[i..][0], WMul(a[i], b[0])), mm)
    ensures Val(t[i..]) + Val(b) * a[i] <= Val(t[i..]) + Val(b) * a[i] + Val(nn) * u1 < BPow(|t| - i)
    ensures Divides(B, Val(t[i..]) + Val(b) * a[i] + Val(nn) * u1)
  {
    MontPartialBound(t, a, Val(b), Val(nn), i);
    hide Val, BPow, MontPartial, WMul, WAdd, IsMontInverse, Divides;
    ValBound(nn);
    RowsFit(Val(b), Val(nn), |nn|, Val(t[i..]), a[i], u1, |t| - i);
    RoundClears(t[i..], a[i], b, nn, mm, u1);
  }

  lemma RoundClears(d: seq<Limb>, u0: Limb, b: seq<Limb>, nn: seq<Limb>, mm: Limb, u1: Limb)
    requires |d| > 0 && |b| > 0 && |nn| > 0 && IsMontInverse(mm, nn[0])
    requires u1 == WMul(WAdd(d[0], WMul(u0, b[0])), mm)
    ensures Divides(B, Val(d) + Val(b) * u0 + Val(nn) * u1)
  {
    hide Val, WMul, WAdd, IsMontInverse, Divides, Cong;
    MontDigit(d[0], u0, b[0], mm, nn[0]);
    LowLimb(d, b, nn, u0, u1);
    CongDivides(Val(d) + Val(b) * u0 + Val(nn) * u1, d[0] + u0 * b[0] + u1 * nn[0], B);
  }

  lemma MontPartialBound(t: seq<Limb>, a: seq<Limb>, b: nat, nv: nat, i: nat)
    requires MontPartial(t, a, b, nv, i)
    ensures i <= |t| && Val(t[i..]) < b + nv
  {
  }

  lemma CongDivides(x: int, y: int, m: int)
    requires 0 < m && Cong(x, y, m) && Divides(m, y)
    ensures Divides(m, x)
  {
    DividesAdd(m, x - y, y);
  }

  // ---------------------------------------------------------------- the final subtraction

  /** d0 below 2N: limb n after "+ 1 - borrow" says whether N has to be subtracted. */
  lemma FinalLimb(lo: nat, dn: Limb, nv: nat, n: nat, c: Limb)
    requires lo < BPow(n) && nv < BPow(n) && lo + dn * BPow(n) < 2 * nv
    requires c == Flag(lo < nv)
    ensures dn <= 1
    ensures WSub(WAdd(dn, 1), c) == Flag(nv <= lo + dn * BPow(n))
    ensures lo - nv + c * BPow(n) == if nv <= lo + dn * BPow(n) then lo + dn * BPow(n) - nv
                                     else lo + dn * BPow(n) - nv + BPow(n)
  {
    hide BPow, WSub, WAdd;
    var bp := BPow(n);
    if dn >= 2 { MulMono(2, dn, bp); }
    WAddCarry(dn, 1);
    WSubBorrow(WAdd(dn, 1), c);
    if dn == 1 {
      assert lo < nv;
    }
  }

  /** mpi_safe_cond_assign on the low n limbs. */
  method CondAssign(n: nat, dest0: seq<Limb>, src: seq<Limb>, assign: Limb) returns (dest: seq<Limb>)
    requires n <= |dest0| && n <= |src| && assign <= 1
    ensures |dest| == |dest0| && dest[n..] == dest0[n..]
    ensures dest[..n] == if assign == 1 then src[..n] else dest0[..n]
  {
    dest := dest0;
    for i := 0 to n
      invariant |dest| == |dest0|
      invariant dest[i..] == dest0[i..]
      invariant dest[..i] == if assign == 1 then src[..i] else dest0[..i]
    {
      assert dest[i] == dest0[i] by { assert dest[i..][0] == dest0[i..][0]; }
      ghost var before := dest;
      CondLimb(dest[i], src[i], assign);
      dest := dest[i := WAdd(WMul(dest[i], 1 - assign), WMul(src[i], assign))];
      assert dest[..i + 1] == before[..i] + [dest[i]];
      assert dest[i + 1..] == before[i..][1..];
      assert dest0[i + 1..] == dest0[i..][1..];
      assert src[..i + 1] == src[..i] + [src[i]];
      assert dest0[..i + 1] == dest0[..i] + [dest0[i]];
    }
  }

  lemma CondLimb(x: Limb, y: Limb, assign: Limb)
    requires assign <= 1
    ensures WAdd(WMul(x, 1 - assign), WMul(y, assign)) == if assign == 1 then y else x
  {
    WExact(x);
    WExact(y);
    WExact(0);
  }

  /** The limb part of mpi_montmul: r is the product times R^-1, fully reduced. */
  method MontLimbs(a: seq<Limb>, b: seq<Limb>, nn: seq<Limb>, mm: Limb, tlen: nat)
    returns (r: seq<Limb>, t: seq<Limb>)
    requires 0 < |b| <= |nn| <= |a| && 2 * (|nn| + 1) <= tlen
    requires 0 < Val(nn) && Val(b) <= Val(nn) && IsMontInverse(mm, nn[0])
    ensures |r| == |a| && r[|nn|..] == a[|nn|..] && |t| == tlen
    ensures Val(r[..|nn|]) < Val(nn)
    ensures Cong(Val(r[..|nn|]) * BPow(|nn|), Val(a[..|nn|]) * Val(b), Val(nn))
  {
    hide Val, BPow, MontPartial, IsMontInverse, Divides, Cong, WAdd, WSub;
    t := Zeros(tlen);
    MontBegin(t, a, Val(b), Val(nn));
    var n := |nn|;
    var i := 0;
    while i < n
      invariant 0 <= i <= n && |t| == tlen
      invariant MontPartial(t, a, Val(b), Val(nn), i)
    {
      t := MontIteration(t, i, a, b, nn, mm);
      i := i + 1;
    }
    MontPartialBound(t, a, Val(b), Val(nn), n);
    var d := t[n..];
    r := d[..n] + a[n..];
    ValBound(nn);
    TopOfWindow(d, n, Val(nn));
    ValBound(d[..n]);
    ValFull(nn);
    ghost var lo := Val(d[..n]);
    ghost var dn := d[n];
    d := d[n := WAdd(d[n], 1)];
    assert d[..n] == t[n..][..n];
    var c, d' := SubHlp(n, d, nn);
    assert d'[n] == d[n] by { assert d'[n..][0] == d[n..][0]; }
    FinalLimb(lo, dn, Val(nn), n, c);
    d' := d'[n := WSub(d'[n], c)];
    r := CondAssign(n, r, d', d'[n]);
    MontDone(t, a, Val(b), Val(nn), n, Val(r[..n]));
  }

  lemma MontBegin(t: seq<Limb>, a: seq<Limb>, b: nat, nv: nat)
    requires 0 < nv && forall j :: 0 <= j < |t| ==> t[j] == 0
    ensures MontPartial(t, a, b, nv, 0)
  {
    hide Val, BPow, Cong;
    BPow0();
    ValZeros(t[0..]);
    assert a[..0] == [];
    ValEmpty();
    CongRefl(0, nv);
    assert BPow(0) * 0 == 0 && 0 * b == 0;
  }

  lemma TopOfWindow(d: seq<Limb>, n: nat, nv: nat)
    requires n + 2 <= |d| && nv < BPow(n) && Val(d) < 2 * nv
    ensures Val(d) == Val(d[..n]) + d[n] * BPow(n)
  {
    hide Val, BPow;
    BPowSucc(n);
    ValSmall(d, n + 1);
    ValSnoc(d, n);
  }

  lemma MontDone(t: seq<Limb>, a: seq<Limb>, b: nat, nv: nat, n: nat, r: nat)
    requires MontPartial(t, a, b, nv, n) && b <= nv
    requires r == if nv <= Val(t[n..]) then Val(t[n..]) - nv else Val(t[n..])
    ensures r < nv && Cong(r * BPow(n), Val(a[..n]) * b, nv)
  {
    hide Val, BPow, Cong;
    var w, bp: int := Val(t[n..]), BPow(n);
    var k := if nv <= w then -1 else 0;
    assert r * bp == bp * w + 0 + nv * (k * bp) by {
      assert (w + k * nv) * bp == bp * w + nv * (k * bp) by { MulAssoc(k, nv, bp); MulAssoc(nv, k, bp); }
    }
    CongPlus(bp * w, Val(a[..n]) * b, 0, k * bp, nv);
  }

  // ---------------------------------------------------------------- mpi_montmul and mpi_montred

  /** N is an odd modulus and mm belongs to it. */
  ghost predicate MontModulus(nn: seq<Limb>, mm: Limb) {
    |nn| > 0 && nn[0] % 2 == 1 && IsMontInverse(mm, nn[0])
  }

  /** A := A * D * R^-1 mod N. A may be D; limbs of A from n upwards are not touched. */
  method MontMul(A: Mpi, D: Mpi, N: Mpi, mm: Limb, T: Mpi)
    requires A != N && T != A && T != D && T != N
    requires MontModulus(N.p, mm) && |N.p| <= |A.p| && |D.p| > 0 && 2 * (|N.p| + 1) <= |T.p|
    requires Val(A.p) < BPow(|N.p|) && Val(D.p) <= Val(N.p)
    modifies A, T
    ensures |A.p| == |old(A.p)| && A.s == old(A.s) && |T.p| == |old(T.p)|
    ensures Val(A.p) < Val(N.p)
    ensures Cong(Val(A.p) * BPow(|N.p|), old(Val(A.p)) * old(Val(D.p)), Val(N.p))
  {
    hide Val, BPow, IsMontInverse, Cong;
    var n := |N.p|;
    var m := if |D.p| < n then |D.p| else n;
    ValBound(N.p);
    ModulusPositive(N.p, mm);
    if m == n {
      ValSmall(D.p, n);
    } else {
      ValFull(D.p);
    }
    ValSmall(A.p, n);
    assert Val(D.p[..m]) == Val(D.p);
    var r, t := MontLimbs(A.p, D.p[..m], N.p, mm, |T.p|);
    assert forall j :: n <= j < |r| ==> r[j] == r[n..][j - n] == A.p[n..][j - n];
    ValHighZeros(r, n);
    A.p := r;
    T.p := t;
  }

  lemma ModulusPositive(nn: seq<Limb>, mm: Limb)
    requires MontModulus(nn, mm)
    ensures 0 < Val(nn) && Val(nn) % 2 == 1
  {
    hide Val;
    ValCons(nn);
  }

  /** A := A * R^-1 mod N. */
  method MontRed(A: Mpi, N: Mpi, mm: Limb, T: Mpi)
    requires A != N && T != A && T != N
    requires MontModulus(N.p, mm) && |N.p| <= |A.p| && 2 * (|N.p| + 1) <= |T.p|
    requires Val(A.p) < BPow(|N.p|)
    modifies A, T
    ensures |A.p| == |old(A.p)| && A.s == old(A.s) && |T.p| == |old(T.p)|
    ensures Val(A.p) < Val(N.p)
    ensures Cong(Val(A.p) * BPow(|N.p|), old(Val(A.p)), Val(N.p))
  {
    hide Val, BPow;
    var U := new Mpi.FromLimb(1, 1);
    ValSingle(1);
    ModulusPositive(N.p, mm);
    MontMul(A, U, N, mm, T);
  }
}
