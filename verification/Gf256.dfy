/** The field GF(2^8) of section 4 of FIPS 197, and the generator 3 behind the tables of aes.c. */
module Gf256 {

  // ---------------------------------------------------------------- addition and multiplication

  function Add(x: bv8, y: bv8): bv8 {
    x ^ y
  }

  /** Multiplication by x modulo x^8 + x^4 + x^3 + x + 1. */
  function XTime(x: bv8): bv8 {
    (x << 1) ^ (if x & 0x80 != 0 then 0x1B else 0)
  }

  /** x where the constant term of y is set. */
  function Term(x: bv8, y: bv8): bv8 {
    if y & 1 != 0 then x else 0
  }

  function Half(y: bv8): bv8 {
    y >> 1
  }

  /** The sum of the products of x with the k low terms of y. */
  function MulBits(x: bv8, y: bv8, k: nat): bv8
    decreases k
  {
    if k == 0 then 0 else Add(Term(x, y), MulBits(XTime(x), Half(y), k - 1))
  }

  function Mul(x: bv8, y: bv8): bv8 {
    MulBits(x, y, 8)
  }

  /** Multiplication by the generator, as the table generation does it. */
  function Times3(x: bv8): bv8 {
    Add(x, XTime(x))
  }

  lemma AddComm(a: bv8, b: bv8)
    ensures Add(a, b) == Add(b, a)
  {
  }

  lemma AddAssoc(a: bv8, b: bv8, c: bv8)
    ensures Add(Add(a, b), c) == Add(a, Add(b, c))
  {
  }

  lemma AddSwap(a: bv8, b: bv8, c: bv8, d: bv8)
    ensures Add(Add(a, b), Add(c, d)) == Add(Add(a, c), Add(b, d))
  {
    hide Add;
    AddAssoc(a, b, Add(c, d));
    AddAssoc(b, c, d);
    AddComm(b, c);
    AddAssoc(c, b, d);
    AddAssoc(a, c, Add(b, d));
  }

  lemma AddCancel(a: bv8, b: bv8)
    ensures Add(Add(a, b), b) == a && Add(a, 0) == a && Add(a, a) == 0
  {
  }

  lemma XTimeAdd(x: bv8, y: bv8)
    ensures XTime(Add(x, y)) == Add(XTime(x), XTime(y)) && XTime(0) == 0
  {
    if x & 0x80 != 0 {}
    if y & 0x80 != 0 {}
    assert (x ^ y) << 1 == (x << 1) ^ (y << 1);
  }

  lemma TermAdd(x: bv8, z: bv8, y: bv8)
    ensures Term(Add(x, z), y) == Add(Term(x, y), Term(z, y)) && Term(XTime(x), y) == XTime(Term(x, y))
  {
  }

  lemma {:induction false} MulBitsAdd(x: bv8, z: bv8, y: bv8, k: nat)
    ensures MulBits(Add(x, z), y, k) == Add(MulBits(x, y, k), MulBits(z, y, k))
    decreases k
  {
    hide Add, XTime, Term, Half;
    if k > 0 {
      XTimeAdd(x, z);
      TermAdd(x, z, y);
      MulBitsAdd(XTime(x), XTime(z), Half(y), k - 1);
      AddSwap(Term(x, y), Term(z, y), MulBits(XTime(x), Half(y), k - 1), MulBits(XTime(z), Half(y), k - 1));
    } else {
      AddCancel(0, 0);
    }
  }

  lemma {:induction false} MulBitsXTime(x: bv8, y: bv8, k: nat)
    ensures MulBits(XTime(x), y, k) == XTime(MulBits(x, y, k))
    decreases k
  {
    hide Add, XTime, Term, Half;
    if k > 0 {
      TermAdd(x, x, y);
      MulBitsXTime(XTime(x), Half(y), k - 1);
      XTimeAdd(Term(x, y), MulBits(XTime(x), Half(y), k - 1));
    } else {
      XTimeAdd(0, 0);
    }
  }

  lemma MulAdd(x: bv8, z: bv8, y: bv8)
    ensures Mul(Add(x, z), y) == Add(Mul(x, y), Mul(z, y))
  {
    hide MulBits, Add;
    MulBitsAdd(x, z, y, 8);
  }

  lemma MulTimes3(x: bv8, y: bv8)
    ensures Mul(Times3(x), y) == Times3(Mul(x, y))
  {
    hide MulBits, Add, XTime;
    MulBitsAdd(x, XTime(x), y, 8);
    MulBitsXTime(x, y, 8);
  }

  function Shift(y: bv8, k: nat): bv8
    decreases k
  {
    if k == 0 then y else Shift(Half(y), k - 1)
  }

  lemma HalfAndTerm(y: bv8)
    ensures Add(Term(1, y), XTime(Half(y))) == y
  {
  }

  lemma {:induction false} MulBitsOne(y: bv8, k: nat)
    requires Shift(y, k) == 0
    ensures MulBits(1, y, k) == y
    decreases k
  {
    hide Add, Term, XTime, Half;
    if k > 0 {
      MulBitsXTime(1, Half(y), k - 1);
      MulBitsOne(Half(y), k - 1);
      HalfAndTerm(y);
    }
  }

  lemma MulOne(y: bv8)
    ensures Mul(1, y) == y
  {
    hide MulBits;
    assert Shift(y, 8) == 0;
    MulBitsOne(y, 8);
  }

  // ---------------------------------------------------------------- powers of the generator

  function Pow3(k: nat): bv8 {
    if k == 0 then 1 else Times3(Pow3(k - 1))
  }

  lemma {:induction false} MulPow3(i: nat, j: nat)
    ensures Mul(Pow3(i), Pow3(j)) == Pow3(i + j)
    decreases i
  {
    hide Mul, Times3;
    if i == 0 {
      MulOne(Pow3(j));
    } else {
      MulPow3(i - 1, j);
      MulTimes3(Pow3(i - 1), Pow3(j));
    }
  }

  function Times81(x: bv8): bv8 {
    Times3(Times3(Times3(Times3(x))))
  }

  /** None of the next four multiples is 1. */
  predicate Apart(x: bv8) {
    Times3(x) != 1 && Times3(Times3(x)) != 1 && Times3(Times3(Times3(x))) != 1 && Times81(x) != 1
  }

  lemma FourSteps(k: nat, x: bv8)
    requires Pow3(k) == x && Apart(x)
    ensures Pow3(k + 4) == Times81(x) && forall j :: k < j <= k + 4 ==> Pow3(j) != 1
  {
    hide Times3;
    assert Pow3(k + 1) == Times3(x);
    assert Pow3(k + 2) == Times3(Times3(x));
    assert Pow3(k + 3) == Times3(Times3(Times3(x)));
  }

  lemma SeventeenSteps(k: nat, x: bv8, a: bv8, b: bv8, c: bv8, d: bv8, y: bv8)
    requires Pow3(k) == x
    requires Apart(x) && Times81(x) == a
    requires Apart(a) && Times81(a) == b
    requires Apart(b) && Times81(b) == c
    requires Apart(c) && Times81(c) == d
    requires Times3(d) == y
    ensures Pow3(k + 17) == y && forall j :: k < j < k + 17 ==> Pow3(j) != 1
  {
    hide Times3, Times81, Apart;
    FourSteps(k, x);
    FourSteps(k + 4, a);
    FourSteps(k + 8, b);
    FourSteps(k + 12, c);
  }

  lemma Steps0To51()
    requires Pow3(0) == 0x01
    ensures Pow3(51) == 0x0C && forall k :: 0 < k < 51 ==> Pow3(k) != 1
  {
    hide Pow3;
    SeventeenSteps(0, 0x01, 0x11, 0x1A, 0xA1, 0x5F, 0xE1);
    SeventeenSteps(17, 0xE1, 0x73, 0x02, 0x22, 0x34, 0x5C);
    SeventeenSteps(34, 0x5C, 0xEB, 0xD9, 0xE6, 0x04, 0x0C);
  }

  lemma Steps51To102()
    requires Pow3(51) == 0x0C
    ensures Pow3(102) == 0x50 && forall k :: 51 < k < 102 ==> Pow3(k) != 1
  {
    hide Pow3;
    SeventeenSteps(51, 0x0C, 0xCC, 0xB8, 0xCD, 0xA9, 0xE0);
    SeventeenSteps(68, 0xE0, 0x62, 0x18, 0x83, 0x6B, 0xBD);
    SeventeenSteps(85, 0xBD, 0x98, 0xDB, 0xC4, 0x30, 0x50);
  }

  lemma Steps102To153()
    requires Pow3(102) == 0x50
    ensures Pow3(153) == 0xED && forall k :: 102 < k < 153 ==> Pow3(k) != 1
  {
    hide Pow3;
    SeventeenSteps(102, 0x50, 0x27, 0x61, 0x2B, 0xAD, 0xEC);
    SeventeenSteps(119, 0xEC, 0xAE, 0xA0, 0x4E, 0xC2, 0x5D);
    SeventeenSteps(136, 0x5D, 0xFA, 0xC3, 0x47, 0x5B, 0xED);
  }

  lemma Steps153To204()
    requires Pow3(153) == 0xED
    ensures Pow3(204) == 0xB0 && forall k :: 153 < k < 204 ==> Pow3(k) != 1
  {
    hide Pow3;
    SeventeenSteps(153, 0xED, 0xBF, 0xBA, 0xEF, 0x9D, 0xBC);
    SeventeenSteps(170, 0xBC, 0x89, 0xC1, 0x65, 0x6F, 0xB1);
    SeventeenSteps(187, 0xB1, 0x54, 0x63, 0x09, 0x99, 0xB0);
  }

  lemma Steps204To255()
    requires Pow3(204) == 0xB0
    ensures Pow3(255) == 0x01 && forall k :: 204 < k < 255 ==> Pow3(k) != 1
  {
    hide Pow3;
    SeventeenSteps(204, 0xB0, 0x45, 0x79, 0xA8, 0xC6, 0x51);
    SeventeenSteps(221, 0x51, 0x36, 0x7B, 0x8A, 0xF2, 0x0D);
    SeventeenSteps(238, 0x0D, 0xDD, 0xA2, 0x6C, 0xF6, 0x01);
  }

  /** 3 generates the group: its powers come back to 1 after 255 steps and not before. */
  lemma Order()
    ensures Pow3(255) == 1 && forall k :: 0 < k < 255 ==> Pow3(k) != 1
  {
    hide Pow3;
    Pow3Zero();
    Steps0To51();
    Steps51To102();
    Steps102To153();
    Steps153To204();
    Steps204To255();
  }

  lemma Pow3Zero()
    ensures Pow3(0) == 1
  {
  }

  lemma Times3Injective(x: bv8, y: bv8)
    ensures Times3(x) == Times3(y) ==> x == y
    ensures x != 0 ==> Times3(x) != 0
  {
  }

  lemma {:induction false} Pow3Nonzero(k: nat)
    ensures Pow3(k) != 0
  {
    if k > 0 {
      Pow3Nonzero(k - 1);
      Times3Injective(Pow3(k - 1), 0);
    }
  }

  lemma {:induction false} Pow3Apart(i: nat, d: nat)
    requires 0 < d < 255
    ensures Pow3(i) != Pow3(i + d)
  {
    if i == 0 {
      Order();
    } else {
      hide Times3;
      Pow3Apart(i - 1, d);
      Times3Injective(Pow3(i - 1), Pow3(i - 1 + d));
    }
  }

  lemma {:induction false} Pow3Period(k: nat, m: nat)
    ensures Pow3(k + 255 * m) == Pow3(k)
    decreases m
  {
    hide Pow3, Mul;
    if m > 0 {
      var j := k + 255 * (m - 1);
      Order();
      MulPow3(255, j);
      MulOne(Pow3(j));
      Pow3Period(k, m - 1);
    }
  }

  // ---------------------------------------------------------------- logarithms

  /** The first n powers of 3, as numbers. */
  function Powers(n: nat): set<int> {
    if n == 0 then {} else Powers(n - 1) + {Pow3(n - 1) as int}
  }

  lemma AsInt(x: bv8, y: bv8)
    ensures 0 <= x as int < 256 && (x as int == y as int <==> x == y)
  {
  }

  lemma {:induction false} PowersHas(n: nat, v: int)
    requires v in Powers(n)
    ensures 0 < v < 256 && exists k: nat :: k < n && Pow3(k) as int == v
  {
    hide Pow3;
    if v == Pow3(n - 1) as int {
      Pow3Nonzero(n - 1);
      AsInt(Pow3(n - 1), 0);
    } else {
      PowersHas(n - 1, v);
    }
  }

  lemma {:induction false} PowersCount(n: nat)
    requires n <= 255
    ensures |Powers(n)| == n
  {
    hide Pow3;
    if n > 0 {
      PowersCount(n - 1);
      if Pow3(n - 1) as int in Powers(n - 1) {
        PowersHas(n - 1, Pow3(n - 1) as int);
        var k: nat :| k < n - 1 && Pow3(k) as int == Pow3(n - 1) as int;
        AsInt(Pow3(k), Pow3(n - 1));
        Pow3Apart(k, n - 1 - k);
      }
    }
  }

  function UpTo(n: nat): set<int> {
    if n == 0 then {} else UpTo(n - 1) + {n as int}
  }

  lemma {:induction false} UpToHas(n: nat)
    ensures |UpTo(n)| == n && forall v: int :: v in UpTo(n) <==> 0 < v <= n
  {
    if n > 0 { UpToHas(n - 1); }
  }

  lemma SameSize(a: set<int>, b: set<int>)
    requires a <= b && |a| == |b|
    ensures a == b
  {
    assert b == a + (b - a);
    assert |b - a| == 0;
  }

  /** Every nonzero element is a power of 3. */
  lemma HasLog(x: bv8) returns (k: nat)
    requires x != 0
    ensures k < 255 && Pow3(k) == x
  {
    hide Pow3;
    AsInt(x, 0);
    PowersCount(255);
    UpToHas(255);
    forall v | v in Powers(255) ensures v in UpTo(255) { PowersHas(255, v); }
    SameSize(Powers(255), UpTo(255));
    PowersHas(255, x as int);
    k :| k < 255 && Pow3(k) as int == x as int;
    AsInt(Pow3(k), x);
  }

  // ---------------------------------------------------------------- inverses

  function Power(x: bv8, n: nat): bv8 {
    if n == 0 then 1 else Mul(Power(x, n - 1), x)
  }

  /** The inverse of x, and 0 for 0. */
  function Inv(x: bv8): bv8 {
    Power(x, 254)
  }

  lemma {:induction false} PowerOfPow3(k: nat, n: nat)
    ensures Power(Pow3(k), n) == Pow3(k * n)
    decreases n
  {
    hide Pow3, Mul;
    if n == 0 {
      Pow3Zero();
    } else {
      PowerOfPow3(k, n - 1);
      MulPow3(k * (n - 1), k);
      assert k * (n - 1) + k == k * n;
    }
  }

  lemma {:induction false} MulBitsZero(x: bv8, k: nat)
    ensures MulBits(x, 0, k) == 0
    decreases k
  {
    if k > 0 {
      MulBitsZero(XTime(x), k - 1);
      assert Half(0) == 0 && Term(x, 0) == 0 && Add(0, 0) == 0;
    }
  }

  lemma InvZero()
    ensures Inv(0) == 0
  {
    hide MulBits;
    MulBitsZero(Power(0, 253), 8);
  }

  /** The inverse of 3^l as the table generation finds it. */
  lemma InvOfPow3(l: nat)
    requires l <= 255
    ensures Inv(Pow3(l)) == Pow3(255 - l)
  {
    hide Pow3, Power;
    PowerOfPow3(l, 254);
    if l == 0 {
      Pow3Zero();
      Order();
    } else {
      Pow3Period(255 - l, l - 1);
    }
  }

  /** Inv is the inverse FIPS 197 asks for. */
  lemma InvIsInverse(x: bv8)
    requires x != 0
    ensures Mul(x, Inv(x)) == 1
  {
    hide Pow3, Inv, Mul;
    var k := HasLog(x);
    InvOfPow3(k);
    MulPow3(k, 255 - k);
    Order();
  }

  lemma InvInv(x: bv8)
    ensures Inv(Inv(x)) == x
  {
    hide Pow3, Inv;
    if x == 0 {
      InvZero();
    } else {
      var k := HasLog(x);
      InvOfPow3(k);
      InvOfPow3(255 - k);
    }
  }

  // ---------------------------------------------------------------- the S-box

  function RotLeft(x: bv8, k: nat): bv8
    requires k <= 8
  {
    (x << k) | (x >> (8 - k))
  }

  function Affine(x: bv8): bv8 {
    x ^ RotLeft(x, 1) ^ RotLeft(x, 2) ^ RotLeft(x, 3) ^ RotLeft(x, 4) ^ 0x63
  }

  function InvAffine(y: bv8): bv8 {
    RotLeft(y, 1) ^ RotLeft(y, 3) ^ RotLeft(y, 6) ^ 0x05
  }

  /** Section 5.1.1 of FIPS 197. */
  function SBox(x: bv8): bv8 {
    Affine(Inv(x))
  }

  /** Section 5.3.2 of FIPS 197. */
  function InvSBox(y: bv8): bv8 {
    Inv(InvAffine(y))
  }

  lemma AffineInverse(x: bv8)
    ensures InvAffine(Affine(x)) == x
  {
  }

  lemma InvAffineInverse(x: bv8)
    ensures Affine(InvAffine(x)) == x
  {
  }

  lemma SBoxInverse(x: bv8)
    ensures InvSBox(SBox(x)) == x && SBox(InvSBox(x)) == x
  {
    hide Inv, Affine, InvAffine;
    AffineInverse(Inv(x));
    InvInv(x);
    InvInv(InvAffine(x));
    InvAffineInverse(x);
  }
}
