/** mbedtls_int_div_int of mbedtls/library/bignum.c: a two-limb dividend by one limb. */
module IntDiv {
  import opened Arith
  import opened Limbs
  import opened Mpis
  import opened MpiShift
  import opened MpiMul

  const ALL_ONES: Limb := B - 1

  // ---------------------------------------------------------------- one half-limb digit

  /** The divisor split into halves, its top half at least H / 2. */
  ghost predicate Normalised(d: nat, d1: nat, d0: nat) {
    d == d1 * H + d0 && H <= 2 * d1 && d1 < H && d0 < H
  }

  /** The digit wanted: (u, w) divided by d, u below d. */
  ghost function Digit(u: nat, w: nat, d: nat): int
    requires 0 < d
  {
    (u * H + w) / d
  }

  /** With r = u - q * d1, the test on d0 compares q * d with the whole dividend. */
  lemma DigitTest(u: nat, w: nat, d: nat, d1: nat, d0: nat, q: int, r: int)
    requires Normalised(d, d1, d0) && r == u - q * d1
    ensures q * d0 > H * r + w <==> q * d > u * H + w
  {
    assert q * (d1 * H + d0) == H * (q * d1) + q * d0 by { MulAssoc(q, d1, H); }
  }

  lemma DigitBelow(u: nat, w: nat, d: nat)
    requires u < d && w < H
    ensures 0 <= Digit(u, w, d) < H
  {
    MulMono(u + 1, d, H);
    DigitAbove(u * H + w, d, H);
    DigitAbove(u * H + w, d, 0);
  }

  /** q * d above the dividend means q above the quotient, and conversely. */
  lemma DigitAbove(n: nat, d: nat, q: int)
    requires 0 < d
    ensures q * d > n <==> q > n / d
  {
    if q > n / d { MulMono(n / d + 1, q, d); } else { MulMono(q, n / d, d); }
  }

  lemma FirstDigit(u: nat, w: nat, d: nat, d1: nat, d0: nat)
    requires Normalised(d, d1, d0) && u < d && w < H
    ensures Digit(u, w, d) <= u / d1 <= H + 1
    ensures 0 <= u - u / d1 * d1 < d1
  {
    var q := u / d1;
    if q >= H + 2 { MulMono(H + 2, q, d1); }
    MulMono(u + 1, (q + 1) * d1, H);
    assert (q + 1) * (d1 * H + d0) == (q + 1) * d1 * H + (q + 1) * d0 by { MulAssoc(q + 1, d1, H); }
    MulMono(0, q + 1, d0);
    DigitAbove(u * H + w, d, q + 1);
  }

  /** The two products compared in the correction loop do not wrap. */
  lemma DigitExact(q: Limb, r: Limb, d0: nat, w: nat)
    requires q <= H + 1 && r < H && d0 < H && w < H
    ensures WMul(q, d0) == q * d0 && WMul(H, r) == H * r && WAdd(WMul(H, r), w) == H * r + w
  {
    MulMono(q, H + 1, d0);
    WExact(q * d0);
    WExact(H * r);
    WExact(H * r + w);
  }

  /** An estimate whose remainder exceeds a half limb is not above the quotient. */
  lemma DigitLarge(u: nat, w: nat, d: nat, d1: nat, d0: nat, q: int, r: int)
    requires Normalised(d, d1, d0) && r == u - q * d1 && 0 <= q <= H <= r
    ensures q * d <= u * H + w
  {
    MulMono(q, H, d0);
    MulMono(d0, H, H);
    MulMono(H, r, H);
    DigitTest(u, w, d, d1, d0, q, r);
  }

  /** q is not below the digit wanted, and r is the remainder it leaves at the top half. */
  ghost predicate Estimate(u: nat, w: nat, d: nat, d1: nat, d0: nat, q: int, r: int) {
    && Normalised(d, d1, d0) && u < d && w < H
    && Digit(u, w, d) <= q <= H + 1
    && 0 <= r == u - q * d1
  }

  /** The condition of the correction loop, as the code evaluates it. */
  predicate TooLarge(q: Limb, r: Limb, d0: Limb, w: Limb) {
    q >= H || WMul(q, d0) > WAdd(WMul(H, r), w)
  }

  lemma EstimateStep(u: nat, w: Limb, d: nat, d1: nat, d0: Limb, q: Limb, r: Limb)
    requires Estimate(u, w, d, d1, d0, q, r) && r < H
    ensures TooLarge(q, r, d0, w) ==>
              0 < q <= H + 1 && r + d1 < B && Estimate(u, w, d, d1, d0, q - 1, r + d1)
    ensures !TooLarge(q, r, d0, w) ==> q == Digit(u, w, d)
  {
    hide WMul, WAdd;
    var n := u * H + w;
    DigitBelow(u, w, d);
    DigitExact(q, r, d0, w);
    DigitTest(u, w, d, d1, d0, q, r);
    DigitAbove(n, d, q);
    assert (q - 1) * d1 == q * d1 - d1;
  }

  lemma EstimateBreak(u: nat, w: nat, d: nat, d1: nat, d0: nat, q: int, r: int)
    requires Estimate(u, w, d, d1, d0, q, r) && q <= H <= r
    ensures q == Digit(u, w, d)
  {
    DigitBelow(u, w, d);
    DigitLarge(u, w, d, d1, d0, q, r);
    DigitAbove(u * H + w, d, q);
  }

  lemma EstimateStart(u: nat, w: nat, d: nat, d1: nat, d0: nat)
    requires Normalised(d, d1, d0) && u < d && w < H
    ensures 0 < d1 && Estimate(u, w, d, d1, d0, u / d1, u - d1 * (u / d1))
    ensures 0 <= u - d1 * (u / d1) < H && 0 <= u / d1 <= H + 1
  {
    FirstDigit(u, w, d, d1, d0);
    DigitBelow(u, w, d);
    assert d1 * (u / d1) == u / d1 * d1;
  }

  /** Estimate from the top half, correct downwards, stop when the remainder leaves a half. */
  method HalfDigit(u: Limb, w: Limb, d: Limb, d1: Limb, d0: Limb) returns (q: Limb)
    requires Normalised(d, d1, d0) && u < d && w < H
    ensures q == Digit(u, w, d) && q < H
  {
    hide Normalised, Estimate, TooLarge, Digit;
    DigitBelow(u, w, d);
    EstimateStart(u, w, d, d1, d0);
    q := u / d1;
    var r: Limb := u - d1 * q;
    while TooLarge(q, r, d0, w)
      invariant r < H && Estimate(u, w, d, d1, d0, q, r)
      decreases q
    {
      EstimateStep(u, w, d, d1, d0, q, r);
      q := q - 1;
      r := r + d1;
      if r >= H {
        EstimateBreak(u, w, d, d1, d0, q, r);
        break;
      }
    }
    if r < H { EstimateStep(u, w, d, d1, d0, q, r); }
  }

  // ---------------------------------------------------------------- normalisation

  /** Shifting divisor and dividend by the leading zeros of the divisor. */
  lemma ShiftOperands(u1: Limb, u0: Limb, d: Limb, s: nat)
    requires u1 < d && s < BIL && BIL - s == BitLen(d)
    ensures d * Pow2(s) < B && B <= 2 * (d * Pow2(s)) && u1 * Pow2(s) < B
    ensures var x := BitOr(u1 * Pow2(s), if s == 0 then 0 else u0 / Pow2(BIL - s));
            x < d * Pow2(s) && x * B + u0 * Pow2(s) % B == (u1 * B + u0) * Pow2(s)
  {
    hide Pow2, BitOr, BitLen;
    var a, c := Pow2(s), Pow2(BIL - s);
    Pow2Bil();
    Pow2Add(s, BIL - s);
    BitLenProps(d);
    Pow2Succ(BIL - s - 1);
    MulMonoStrict(d, c, a);
    MulMono(Pow2(BIL - s - 1), d, a);
    assert 2 * Pow2(BIL - s - 1) * a == 2 * (Pow2(BIL - s - 1) * a) by { MulAssoc(2, Pow2(BIL - s - 1), a); }
    ShiftInts(u1, u0, d, a, c);
    if s == 0 {
      Pow2Succ(0);
      BitOrZero(u1 * a);
    } else {
      DividesBy(a, u1 * a, u1);
      BitOrDisjoint(u1 * a, u0 / c, s);
    }
  }

  lemma ShiftInts(u1: Limb, u0: Limb, d: Limb, a: nat, c: nat)
    requires 0 < a && 0 < c && a * c == B && u1 < d && d < c
    ensures u0 / c < a
    ensures u1 * a + u0 / c < d * a
    ensures (u1 * a + u0 / c) * B + u0 * a % B == (u1 * B + u0) * a
  {
    ScaledLimb(u0, a, c);
    MulMono(u1 + 1, d, a);
    assert (u1 * B + u0) * a == u1 * a * B + u0 * a;
  }

  /** Two half digits and the scaled remainder give quotient and remainder. */
  lemma Assemble(x: int, d: nat, a: nat, u: int, w1: nat, w0: nat, q1: int, q0: int, ax: int)
    requires 0 < d && 0 < a && u * B + (w1 * H + w0) == x * a
    requires u * H + w1 == q1 * (d * a) + ax
    requires 0 <= ax * H + w0 - q0 * (d * a) < d * a
    ensures x / d == q1 * H + q0
    ensures (ax * H + w0 - q0 * (d * a)) / a == x % d
  {
    var q, rem := q1 * H + q0, ax * H + w0 - q0 * (d * a);
    assert (u * H + w1) * H == u * B + w1 * H;
    assert x * a == q * (d * a) + rem by {
      MulAssoc(q1, d * a, H);
      MulAssoc(q1, H, d * a);
    }
    assert q * (d * a) == q * d * a by { MulAssoc(q, d, a); }
    assert rem == a * (x - q * d);
    MulCancelLess(x - q * d, d, a);
    if x - q * d < 0 { MulMono(x - q * d, -1, a); }
    assert x == d * q + (x - q * d);
    DivModUnique(x, d, q, x - q * d);
    DivModUnique(rem, a, x - q * d, 0);
  }

  /** rAX and the remainder are computed modulo B, where the true values already lie. */
  lemma WrapBack(u: Limb, w: Limb, q: Limb, d: Limb)
    requires u < d && q == Digit(u, w, d)
    ensures WAdd(WMul(u, H), WSub(w, WMul(q, d))) == u * H + w - q * d
    ensures WSub(WAdd(WMul(u, H), w), WMul(q, d)) == u * H + w - q * d
    ensures 0 <= u * H + w - q * d < d
  {
    var r := u * H + w - q * d;
    assert 0 <= r < d;
    hide Digit;
    WrapInts(u * H, w, q * d, r);
  }

  lemma WrapInts(x: nat, w: Limb, y: nat, r: Limb)
    requires x + w - y == r
    ensures (x % B + (w - y % B) % B) % B == r
    ensures ((x % B + w) % B - y % B) % B == r
  {
    var i, j := x / B, y / B;
    var k := (w - y % B) / B;
    assert x % B + (w - y % B) % B == r + B * (j - i - k);
    DivModUnique(x % B + (w - y % B) % B, B, j - i - k, r);
    var l := (x % B + w) / B;
    assert (x % B + w) % B - y % B == r + B * (j - i - l);
    DivModUnique((x % B + w) % B - y % B, B, j - i - l, r);
  }

  // ---------------------------------------------------------------- the division

  /** The branch for compilers with a double-width integer. */
  method IntDivWide(u1: Limb, u0: Limb, d: Limb) returns (quotient: Limb, r: Limb)
    ensures d == 0 || u1 >= d ==> quotient == ALL_ONES && r == ALL_ONES
    ensures d != 0 && u1 < d ==> quotient == (u1 * B + u0) / d && r == (u1 * B + u0) % d
  {
    if 0 == d || u1 >= d {
      return ALL_ONES, ALL_ONES;
    }
    var dividend := u1 * B + u0;
    var q := dividend / d;
    assert dividend == d * q + dividend % d;
    assert q < B by {
      MulMono(u1 + 1, d, B);
      DigitAbove(dividend, d, B);
    }
    if q > ALL_ONES {
      q := ALL_ONES;
    }
    return q, dividend - q * d;
  }

  /** The branch without one: Algorithm D on half limbs. */
  method IntDivInt(u1: Limb, u0: Limb, d: Limb) returns (quotient: Limb, r: Limb)
    ensures d == 0 || u1 >= d ==> quotient == ALL_ONES && r == ALL_ONES
    ensures d != 0 && u1 < d ==> quotient == (u1 * B + u0) / d && r == (u1 * B + u0) % d
  {
    hide Pow2, BitOr, BitLen, WMul, WAdd, WSub, Digit;
    if 0 == d || u1 >= d {
      return ALL_ONES, ALL_ONES;
    }
    var s := Clz(d);
    BitLenProps(d);
    ShiftOperands(u1, u0, d, s);
    var d': Limb := d * Pow2(s);
    var u: Limb := BitOr(u1 * Pow2(s), if s == 0 then 0 else u0 / Pow2(BIL - s));
    var v: Limb := u0 * Pow2(s) % B;
    var d1, d0: Limb := d' / H, d' % H;
    var w1, w0: Limb := v / H, v % H;
    assert Normalised(d', d1, d0);
    var q1 := HalfDigit(u, w1, d', d1, d0);
    WrapBack(u, w1, q1, d');
    var rAX := WAdd(WMul(u, H), WSub(w1, WMul(q1, d')));
    var q0 := HalfDigit(rAX, w0, d', d1, d0);
    WrapBack(rAX, w0, q0, d');
    var rem := WSub(WAdd(WMul(rAX, H), w0), WMul(q0, d'));
    Assemble(u1 * B + u0, d, Pow2(s), u, w1, w0, q1, q0, rAX);
    return q1 * H + q0, rem / Pow2(s);
  }
}
