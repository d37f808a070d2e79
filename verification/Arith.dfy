/**
 Integer facts shared by the multi-precision proofs: powers, exact division,
 divisibility, congruence and greatest common divisors. Everything here is
 about mathematical integers; the limb representation is in module Limbs.
 */
module Arith {

  function Pow(b: int, e: nat): int
    decreases e
  {
    if e == 0 then 1 else b * Pow(b, e - 1)
  }

  lemma MulMono(a: int, b: int, c: int)
    requires a <= b && 0 <= c
    ensures a * c <= b * c && c * a <= c * b
  {
  }

  lemma MulMonoStrict(a: int, b: int, c: int)
    requires a < b && 0 < c
    ensures a * c < b * c && c * a < c * b
  {
  }

  lemma MulCancelLess(a: int, b: int, c: int)
    requires a * c < b * c && 0 <= c
    ensures a < b
  {
    if a >= b { MulMono(b, a, c); }
  }

  lemma {:induction false} PowPos(b: int, e: nat)
    requires 0 < b
    ensures 0 < Pow(b, e)
  {
    if e > 0 {
      PowPos(b, e - 1);
      MulMonoStrict(0, Pow(b, e - 1), b);
    }
  }

  function Pow2(e: nat): (r: nat)
    ensures 0 < r
  {
    PowPos(2, e);
    Pow(2, e)
  }

  lemma {:induction false} PowAdd(b: int, e: nat, f: nat)
    ensures Pow(b, e + f) == Pow(b, e) * Pow(b, f)
  {
    if e > 0 {
      PowAdd(b, e - 1, f);
      MulAssoc(b, Pow(b, e - 1), Pow(b, f));
      assert e + f - 1 == e - 1 + f;
    }
  }

  lemma Pow2Add(e: nat, f: nat)
    ensures Pow2(e + f) == Pow2(e) * Pow2(f)
  {
    PowAdd(2, e, f);
  }

  lemma Pow2Succ(e: nat)
    ensures Pow2(e + 1) == 2 * Pow2(e) && Pow2(0) == 1
  {
  }

  lemma MulAssoc(a: int, b: int, c: int)
    ensures a * b * c == a * (b * c)
  {
  }

  lemma {:induction false} PowMul(b: int, e: nat, f: nat)
    ensures 0 <= e * f
    ensures Pow(Pow(b, e), f) == Pow(b, e * f)
    decreases f
  {
    if f > 0 {
      PowMul(b, e, f - 1);
      assert e * f == e + e * (f - 1);
      PowAdd(b, e, e * (f - 1));
    }
  }

  lemma {:induction false} PowDistributes(a: int, b: int, e: nat)
    ensures Pow(a * b, e) == Pow(a, e) * Pow(b, e)
  {
    if e > 0 {
      PowDistributes(a, b, e - 1);
      MulShuffle(a, b, Pow(a, e - 1), Pow(b, e - 1));
    }
  }

  lemma MulShuffle(a: int, b: int, c: int, d: int)
    ensures a * b * (c * d) == a * c * (b * d)
  {
    MulAssoc(a, b, c * d);
    MulAssoc(b, c, d);
    MulAssoc(c, b, d);
    MulAssoc(a, c, b * d);
  }

  lemma {:induction false} PowMono(b: int, e: nat, f: nat)
    requires 0 < b && e <= f
    ensures Pow(b, e) <= Pow(b, f)
  {
    if e < f {
      PowMono(b, e, f - 1);
      PowPos(b, f - 1);
      MulMono(1, b, Pow(b, f - 1));
    }
  }

  /** Quotient and remainder are determined by the division equation. */
  lemma DivModUnique(n: int, d: int, q: int, r: int)
    requires 0 < d && 0 <= r < d && n == d * q + r
    ensures n / d == q && n % d == r
  {
    var q1, r1 := n / d, n % d;
    assert n == d * q1 + r1;
    assert d * (q - q1) == r1 - r;
    if q < q1 {
      MulMono(q - q1, -1, d);
    } else if q1 < q {
      MulMono(1, q - q1, d);
    }
  }

  lemma DivMono(a: int, b: int, d: int)
    requires a <= b && 0 < d
    ensures a / d <= b / d
  {
    if a / d > b / d {
      MulMono(b / d + 1, a / d, d);
    }
  }

  /** floor(n / (a * b)) is reached by two divisions. */
  lemma DivDiv(n: int, a: int, b: int)
    requires 0 < a && 0 < b
    ensures 0 < a * b && n / a / b == n / (a * b)
  {
    var q, r := n / a, n % a;
    var q2, r2 := q / b, q % b;
    MulMonoStrict(0, a, b);
    MulMono(r2, b - 1, a);
    assert n == a * (b * q2 + r2) + r;
    assert a * (b * q2 + r2) == a * b * q2 + a * r2 by { MulAssoc(a, b, q2); }
    DivModUnique(n, a * b, q2, a * r2 + r);
  }

  // ---------------------------------------------------------------- divisibility

  predicate Divides(d: int, n: int)
    requires 0 < d
  {
    n % d == 0
  }

  lemma DividesBy(d: int, n: int, k: int)
    requires 0 < d && n == d * k
    ensures Divides(d, n)
  {
    DivModUnique(n, d, k, 0);
  }

  lemma DividesAdd(d: int, m: int, n: int)
    requires 0 < d && Divides(d, m) && Divides(d, n)
    ensures Divides(d, m + n) && Divides(d, m - n)
  {
    var i, j := m / d, n / d;
    assert m + n == d * (i + j) && m - n == d * (i - j);
    DividesBy(d, m + n, i + j);
    DividesBy(d, m - n, i - j);
  }

  lemma DividesTimes(d: int, m: int, k: int)
    requires 0 < d && Divides(d, m)
    ensures Divides(d, m * k) && Divides(d, k * m)
  {
    hide Divides;
    var i := ExactQuotient(d, m);
    MulAssoc(d, i, k);
    DividesBy(d, m * k, i * k);
  }

  lemma DividesTrans(d: int, e: int, n: int)
    requires 0 < d && 0 < e && Divides(d, e) && Divides(e, n)
    ensures Divides(d, n)
  {
    hide Divides;
    var k := ExactQuotient(e, n);
    DividesTimes(d, e, k);
  }

  lemma ExactQuotient(d: int, x: int) returns (k: int)
    requires 0 < d && Divides(d, x)
    ensures x == d * k
  {
    k := x / d;
  }

  lemma DividesLe(d: int, n: int)
    requires 0 < d && 0 < n && Divides(d, n)
    ensures d <= n
  {
    if n < d { DivModUnique(n, d, 0, n); }
  }

  /** An odd number that divides 2n divides n. */
  lemma OddDividesHalf(d: int, n: int)
    requires 0 < d && d % 2 == 1 && Divides(d, 2 * n)
    ensures Divides(d, n)
  {
    var k := 2 * n / d;
    assert 2 * n == d * k;
    if k % 2 == 1 {
      var i, j := d / 2, k / 2;
      assert d * k == 2 * (2 * i * j + i + j) + 1 by {
        assert (2 * i + 1) * (2 * j + 1) == 4 * (i * j) + 2 * i + 2 * j + 1;
        MulAssoc(2, i, j);
      }
    } else {
      var j := k / 2;
      assert d * (2 * j) == 2 * (d * j);
      DividesBy(d, n, j);
    }
  }

  /** An odd number that divides 2^e n divides n. */
  lemma {:induction false} OddDividesPow2(d: int, e: nat, n: int)
    requires 0 < d && d % 2 == 1 && Divides(d, Pow2(e) * n)
    ensures Divides(d, n)
  {
    if e > 0 {
      MulAssoc(2, Pow2(e - 1), n);
      OddDividesHalf(d, Pow2(e - 1) * n);
      OddDividesPow2(d, e - 1, n);
    }
  }

  // ---------------------------------------------------------------- congruence

  predicate Cong(a: int, b: int, m: int)
    requires 0 < m
  {
    Divides(m, a - b)
  }

  lemma CongRefl(a: int, m: int)
    requires 0 < m
    ensures Cong(a, a, m)
  {
    DividesBy(m, 0, 0);
  }

  lemma CongSym(a: int, b: int, m: int)
    requires 0 < m && Cong(a, b, m)
    ensures Cong(b, a, m)
  {
    DividesTimes(m, a - b, -1);
  }

  lemma CongTrans(a: int, b: int, c: int, m: int)
    requires 0 < m && Cong(a, b, m) && Cong(b, c, m)
    ensures Cong(a, c, m)
  {
    DividesAdd(m, a - b, b - c);
  }

  lemma CongAdd(a: int, b: int, c: int, d: int, m: int)
    requires 0 < m && Cong(a, b, m) && Cong(c, d, m)
    ensures Cong(a + c, b + d, m) && Cong(a - c, b - d, m)
  {
    DividesAdd(m, a - b, c - d);
    assert a - b + (c - d) == a + c - (b + d);
    assert a - b - (c - d) == a - c - (b - d);
  }

  lemma CongMul(a: int, b: int, c: int, d: int, m: int)
    requires 0 < m && Cong(a, b, m) && Cong(c, d, m)
    ensures Cong(a * c, b * d, m)
  {
    DividesTimes(m, a - b, c);
    DividesTimes(m, c - d, b);
    assert (a - b) * c + b * (c - d) == a * c - b * d;
    DividesAdd(m, (a - b) * c, b * (c - d));
  }

  lemma {:induction false} CongPow(a: int, b: int, e: nat, m: int)
    requires 0 < m && Cong(a, b, m)
    ensures Cong(Pow(a, e), Pow(b, e), m)
  {
    if e == 0 {
      CongRefl(1, m);
    } else {
      CongPow(a, b, e - 1, m);
      CongMul(a, b, Pow(a, e - 1), Pow(b, e - 1), m);
    }
  }

  lemma CongMod(a: int, m: int)
    requires 0 < m
    ensures Cong(a, a % m, m) && Cong(a % m, a, m) && 0 <= a % m < m
  {
    DividesBy(m, a - a % m, a / m);
    CongSym(a, a % m, m);
  }

  /** A residue in [0, m) is the remainder. */
  lemma CongResidue(r: int, a: int, m: int)
    requires 0 <= r < m && Cong(r, a, m)
    ensures r == a % m
  {
    var k := (r - a) / m;
    assert r - a == m * k;
    assert a == m * (-k) + r;
    DivModUnique(a, m, -k, r);
  }

  lemma CongModEq(a: int, b: int, m: int)
    requires 0 < m
    ensures Cong(a, b, m) <==> a % m == b % m
  {
    CongMod(a, m);
    CongMod(b, m);
    if Cong(a, b, m) {
      CongTrans(a % m, a, b, m);
      CongResidue(a % m, b, m);
    }
    if a % m == b % m {
      CongTrans(a, a % m, b, m);
    }
  }

  /** Powers of two cancel modulo an odd number. */
  lemma CongCancelPow2(a: int, b: int, e: nat, m: int)
    requires 0 < m && m % 2 == 1 && Cong(a * Pow2(e), b * Pow2(e), m)
    ensures Cong(a, b, m)
  {
    assert a * Pow2(e) - b * Pow2(e) == Pow2(e) * (a - b);
    OddDividesPow2(m, e, a - b);
  }

  // ---------------------------------------------------------------- gcd

  /** g is the greatest common divisor of a and b, read as the common divisor
      that every common divisor divides; gcd(0, 0) is 0. */
  ghost predicate IsGcd(g: nat, a: nat, b: nat) {
    if a == 0 && b == 0 then g == 0
    else
      && 0 < g && Divides(g, a) && Divides(g, b)
      && forall d: nat | 0 < d && Divides(d, a) && Divides(d, b) :: Divides(d, g)
  }

  lemma GcdUnique(g: nat, h: nat, a: nat, b: nat)
    requires IsGcd(g, a, b) && IsGcd(h, a, b)
    ensures g == h
  {
    if a != 0 || b != 0 {
      DividesLe(g, h);
      DividesLe(h, g);
    }
  }
}
