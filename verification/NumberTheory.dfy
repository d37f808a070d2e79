/** Primes: Euclid's lemma, Fermat's little theorem and the strong probable prime test. */
module NumberTheory {
  import opened Arith

  ghost predicate IsPrime(p: int) {
    2 <= p && forall m: int :: 2 <= m < p ==> !Divides(m, p)
  }

  // ---------------------------------------------------------------- Euclid's lemma

  lemma {:induction false} PrimeDividesCofactor(p: int, a: int, b: int)
    requires IsPrime(p) && 0 < a < p && Divides(p, a * b)
    ensures Divides(p, b)
    decreases a
  {
    if a > 1 {
      var q, r := p / a, p % a;
      assert !Divides(a, p);
      hide IsPrime;
      assert r * b == p * b - q * (a * b) by {
        assert p == a * q + r;
        assert (a * q + r) * b == q * (a * b) + r * b by { MulAssoc(q, a, b); }
      }
      DividesBy(p, p * b, b);
      DividesTimes(p, a * b, q);
      DividesAdd(p, p * b, q * (a * b));
      PrimeDividesCofactor(p, r, b);
    }
  }

  lemma EuclidLemma(p: int, a: int, b: int)
    requires IsPrime(p) && Divides(p, a * b)
    ensures Divides(p, a) || Divides(p, b)
  {
    if !Divides(p, a) {
      CongMod(a, p);
      CongRefl(b, p);
      CongMul(a % p, a, b, b, p);
      DividesAdd(p, a % p * b - a * b, a * b);
      PrimeDividesCofactor(p, a % p, b);
    }
  }

  /** Modulo a prime, 1 has no square roots but 1 and -1. */
  lemma SquareRootOfOne(p: int, x: int)
    requires IsPrime(p) && Cong(x * x, 1, p)
    ensures Cong(x, 1, p) || Cong(x, -1, p)
  {
    assert (x - 1) * (x + 1) == x * x - 1;
    EuclidLemma(p, x - 1, x + 1);
  }

  /** Every number above 1 has a prime divisor. */
  lemma {:induction false} PrimeDivisor(n: int) returns (p: int)
    requires 1 < n
    ensures IsPrime(p) && Divides(p, n)
    decreases n
  {
    if IsPrime(n) {
      p := n;
      DividesBy(n, n, 1);
    } else {
      var m :| 2 <= m < n && Divides(m, n);
      p := PrimeDivisor(m);
      DividesTrans(p, m, n);
    }
  }

  lemma {:induction false} PrimeDividesPow(p: int, a: int, e: nat)
    requires IsPrime(p) && Divides(p, Pow(a, e))
    ensures Divides(p, a)
    decreases e
  {
    if e == 0 {
      DividesLe(p, 1);
    } else {
      EuclidLemma(p, a, Pow(a, e - 1));
      if !Divides(p, a) { PrimeDividesPow(p, a, e - 1); }
    }
  }

  /** A number above 1 that is coprime to a divides no power of a. */
  lemma CoprimeDividesNoPower(n: nat, a: nat, e: nat)
    requires 1 < n && IsGcd(1, a, n)
    ensures !Divides(n, Pow(a, e))
  {
    if Divides(n, Pow(a, e)) {
      var p := PrimeDivisor(n);
      DividesTrans(p, n, Pow(a, e));
      PrimeDividesPow(p, a, e);
      DividesLe(p, 1);
    }
  }

  // ---------------------------------------------------------------- binomial coefficients

  function Binom(n: nat, k: nat): nat {
    if k == 0 then 1 else if n == 0 then 0 else Binom(n - 1, k - 1) + Binom(n - 1, k)
  }

  lemma {:induction false} BinomBounds(n: nat, k: nat)
    requires n <= k
    ensures Binom(n, k) == if n == k then 1 else 0
  {
    if n > 0 {
      BinomBounds(n - 1, k - 1);
      BinomBounds(n - 1, k);
    }
  }

  lemma {:induction false} BinomAbsorb(n: nat, k: nat)
    requires 0 < n && 0 < k
    ensures k * Binom(n, k) == n * Binom(n - 1, k - 1)
  {
    if n == 1 {
      if k > 1 {
        BinomBounds(0, k - 1);
        BinomBounds(1, k);
      } else {
        assert Binom(1, 1) == 1;
      }
    } else {
      BinomAbsorb(n - 1, k);
      var u := if k == 1 then 0 else Binom(n - 2, k - 2);
      if k == 1 {
        assert 0 * Binom(n - 1, 0) == 0 && (n - 1) * 0 == 0;
      } else {
        BinomAbsorb(n - 1, k - 1);
      }
      AbsorbInts(n, k, Binom(n - 1, k - 1), Binom(n - 1, k), u, Binom(n - 2, k - 1));
    }
  }

  lemma AbsorbInts(n: nat, k: nat, x: nat, y: nat, u: nat, v: nat)
    requires 0 < n && 0 < k && k * y == (n - 1) * v && (k - 1) * x == (n - 1) * u && x == u + v
    ensures k * (x + y) == n * x
  {
    assert k * (x + y) == k * x + k * y && k * x == (k - 1) * x + x;
    assert (n - 1) * (u + v) == (n - 1) * u + (n - 1) * v;
    assert n * x == (n - 1) * x + x;
  }

  lemma PrimeDividesBinom(p: nat, k: nat)
    requires IsPrime(p) && 0 < k < p
    ensures Divides(p, Binom(p, k))
  {
    hide IsPrime;
    BinomAbsorb(p, k);
    DividesBy(p, k * Binom(p, k), Binom(p - 1, k - 1));
    PrimeDividesCofactor(p, k, Binom(p, k));
  }

  /** Sum of Binom(n, k) * a^k over k < m. */
  function BinomSum(n: nat, a: int, m: nat): int
    decreases m
  {
    if m == 0 then 0 else BinomSum(n, a, m - 1) + Binom(n, m - 1) * Pow(a, m - 1)
  }

  lemma {:induction false} BinomSumStep(n: nat, a: int, m: nat)
    ensures BinomSum(n + 1, a, m + 1) == a * BinomSum(n, a, m) + BinomSum(n, a, m + 1)
    decreases m
  {
    if m == 0 {
      assert BinomSum(n + 1, a, 1) == 0 + 1 * Pow(a, 0);
      assert BinomSum(n, a, 1) == 0 + 1 * Pow(a, 0);
    } else {
      BinomSumStep(n, a, m - 1);
      SumInts(a, BinomSum(n, a, m - 1), BinomSum(n, a, m), Binom(n, m - 1), Binom(n, m), Pow(a, m - 1));
    }
  }

  lemma SumInts(a: int, s0: int, s1: int, x: int, y: int, q: int)
    requires s1 == s0 + x * q
    ensures a * s0 + s1 + (x + y) * (a * q) == a * s1 + (s1 + y * (a * q))
  {
    assert (x + y) * (a * q) == x * (a * q) + y * (a * q);
    assert x * (a * q) == a * (x * q) by { MulAssoc(x, a, q); MulAssoc(a, x, q); }
    assert a * (s0 + x * q) == a * s0 + a * (x * q);
  }

  lemma {:induction false} BinomialTheorem(a: int, n: nat)
    ensures Pow(a + 1, n) == BinomSum(n, a, n + 1)
  {
    if n == 0 {
      assert BinomSum(0, a, 1) == BinomSum(0, a, 0) + 1 * Pow(a, 0);
    } else {
      BinomialTheorem(a, n - 1);
      BinomSumStep(n - 1, a, n);
      BinomBounds(n - 1, n);
      var t := BinomSum(n - 1, a, n);
      assert BinomSum(n - 1, a, n + 1) == t + 0 * Pow(a, n);
      assert (a + 1) * t == a * t + t;
    }
  }

  /** Modulo a prime p all terms but the first and the last of (a + 1)^p vanish. */
  lemma {:induction false} BinomSumModPrime(p: nat, a: int, m: nat)
    requires IsPrime(p) && 0 < m <= p
    ensures Cong(BinomSum(p, a, m), 1, p)
    decreases m
  {
    hide IsPrime;
    if m == 1 {
      assert BinomSum(p, a, 1) == BinomSum(p, a, 0) + 1 * Pow(a, 0);
      CongRefl(1, p);
    } else {
      BinomSumModPrime(p, a, m - 1);
      PrimeDividesBinom(p, m - 1);
      var t := Binom(p, m - 1) * Pow(a, m - 1);
      DividesTimes(p, Binom(p, m - 1), Pow(a, m - 1));
      DividesAdd(p, BinomSum(p, a, m - 1) - 1, t);
    }
  }

  lemma PowSuccModPrime(p: nat, a: int)
    requires IsPrime(p)
    ensures Cong(Pow(a + 1, p), Pow(a, p) + 1, p)
  {
    BinomSumModPrime(p, a, p);
    hide IsPrime;
    BinomialTheorem(a, p);
    BinomBounds(p, p);
    var t := BinomSum(p, a, p);
    assert BinomSum(p, a, p + 1) == t + 1 * Pow(a, p);
    CongRefl(Pow(a, p), p);
    CongAdd(t, 1, Pow(a, p), Pow(a, p), p);
  }

  lemma {:induction false} FermatPower(p: nat, a: nat)
    requires IsPrime(p)
    ensures Cong(Pow(a, p), a, p)
  {
    if a == 0 {
      assert Pow(0, p) == 0 * Pow(0, p - 1);
      CongRefl(0, p);
    } else {
      FermatPower(p, a - 1);
      PowSuccModPrime(p, a - 1);
      hide IsPrime;
      CongRefl(1, p);
      CongAdd(Pow(a - 1, p), a - 1, 1, 1, p);
      CongTrans(Pow(a, p), Pow(a - 1, p) + 1, a, p);
    }
  }

  /** Fermat's little theorem. */
  lemma FermatLittle(p: nat, a: nat)
    requires IsPrime(p) && 0 < a < p
    ensures Cong(Pow(a, p - 1), 1, p)
  {
    FermatPower(p, a);
    var q := Pow(a, p - 1);
    assert Pow(a, p) - a == a * (q - 1);
    PrimeDividesCofactor(p, a, q - 1);
  }

  // ---------------------------------------------------------------- strong probable primes

  /** b^(r * 2^i): the chain of squares of Miller and Rabin. */
  ghost function Chain(b: int, r: nat, i: nat): int {
    Pow(b, r * Pow2(i))
  }

  lemma ChainSquare(b: int, r: nat, i: nat)
    ensures Chain(b, r, i + 1) == Chain(b, r, i) * Chain(b, r, i)
    ensures Chain(b, r, 0) == Pow(b, r)
  {
    hide Pow2;
    Pow2Succ(i);
    assert r * (2 * Pow2(i)) == r * Pow2(i) + r * Pow2(i);
    PowAdd(b, r * Pow2(i), r * Pow2(i));
    assert r * 1 == r;
  }

  /** x passes the strong test to base b, where x - 1 = r * 2^s. */
  ghost predicate StrongProbable(x: int, b: int, r: nat, s: nat)
    requires 0 < x
  {
    Chain(b, r, 0) % x == 1 || exists i: nat :: i < s && Chain(b, r, i) % x == x - 1
  }

  /** The strong test by powers alone. */
  lemma StrongProbableIs(x: int, b: int, r: nat, s: nat)
    requires 0 < x
    ensures StrongProbable(x, b, r, s)
       <==> Pow(b, r) % x == 1 || exists i: nat :: i < s && Pow(b, r * Pow2(i)) % x == x - 1
  {
    hide Pow, Pow2;
    Pow2Succ(0);
    assert Chain(b, r, 0) == Pow(b, r);
    if i: nat :| i < s && Chain(b, r, i) % x == x - 1 {
      assert Pow(b, r * Pow2(i)) % x == x - 1;
    }
    if i: nat :| i < s && Pow(b, r * Pow2(i)) % x == x - 1 {
      assert Chain(b, r, i) % x == x - 1;
    }
  }

  lemma MinusOneResidue(x: int, y: int)
    requires 1 < x && Cong(y, -1, x)
    ensures y % x == x - 1
  {
    CongModEq(y, -1, x);
    DivModUnique(-1, x, -1, x - 1);
  }

  lemma {:induction false} ChainDescent(x: int, b: int, r: nat, i: nat)
    requires IsPrime(x) && Cong(Chain(b, r, i), 1, x)
    ensures Chain(b, r, 0) % x == 1 || exists k: nat :: k < i && Chain(b, r, k) % x == x - 1
    decreases i
  {
    if i == 0 {
      CongModEq(Chain(b, r, 0), 1, x);
      DivModUnique(1, x, 0, 1);
    } else {
      ChainSquare(b, r, i - 1);
      SquareRootOfOne(x, Chain(b, r, i - 1));
      hide Chain;
      if Cong(Chain(b, r, i - 1), 1, x) {
        ChainDescent(x, b, r, i - 1);
      } else {
        MinusOneResidue(x, Chain(b, r, i - 1));
      }
    }
  }

  /** A prime passes the strong test to every base. */
  lemma PrimeIsStrongProbable(x: int, b: int, r: nat, s: nat)
    requires IsPrime(x) && 0 < b < x && x - 1 == r * Pow2(s)
    ensures StrongProbable(x, b, r, s)
  {
    FermatLittle(x, b);
    ChainDescent(x, b, r, s);
  }
}
