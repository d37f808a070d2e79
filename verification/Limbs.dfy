/**
 The limb representation of mbedtls/library/bignum.c: little-endian sequences of
 64-bit limbs, their value, and the unsigned machine operations the code uses.
 */
module Limbs {
  import opened Arith

  /** biL, biH, and the number of values of a limb and of a half limb. */
  const BIL: nat := 64
  const BIH: nat := 32
  const B: nat := 0x1_0000_0000_0000_0000
  const H: nat := 0x1_0000_0000

  type Limb = x: nat | x < B

  // ---------------------------------------------------------------- machine words

  function WAdd(x: Limb, y: Limb): Limb { (x + y) % B }
  function WSub(x: Limb, y: Limb): Limb { (x - y) % B }
  function WMul(x: Limb, y: Limb): Limb { x * y % B }

  /** The C comparison used as a number. */
  function Flag(c: bool): Limb { if c then 1 else 0 }

  /** Bitwise or of two unsigned numbers. */
  function BitOr(x: nat, y: nat): nat
    decreases x + y
  {
    if x == 0 && y == 0 then 0
    else 2 * BitOr(x / 2, y / 2) + (if x % 2 == 1 || y % 2 == 1 then 1 else 0)
  }

  lemma {:induction false} BitOrZero(x: nat)
    ensures BitOr(x, 0) == x && BitOr(0, x) == x
    decreases x
  {
    if x > 0 { BitOrZero(x / 2); }
  }

  /** Or of a multiple of 2^k and a number below 2^k is their sum. */
  lemma {:induction false} BitOrDisjoint(x: nat, y: nat, k: nat)
    requires x % Pow2(k) == 0 && y < Pow2(k)
    ensures BitOr(x, y) == x + y
    decreases k
  {
    if k == 0 {
      BitOrZero(x);
    } else {
      var h := Pow2(k - 1);
      var q := x / Pow2(k);
      assert x == 2 * h * q;
      MulAssoc(2, h, q);
      assert x / 2 == h * q;
      DividesBy(h, x / 2, q);
      BitOrDisjoint(x / 2, y / 2, k - 1);
      if x == 0 && y == 0 {
      } else {
        assert BitOr(x, y) == 2 * (x / 2 + y / 2) + (if x % 2 == 1 || y % 2 == 1 then 1 else 0);
      }
    }
  }

  lemma BitOrSwap(x: nat, y: nat, k: nat)
    requires x % Pow2(k) == 0 && y < Pow2(k)
    ensures BitOr(y, x) == x + y
  {
    BitOrComm(y, x);
    BitOrDisjoint(x, y, k);
  }

  lemma {:induction false} BitOrComm(x: nat, y: nat)
    ensures BitOr(x, y) == BitOr(y, x)
    decreases x + y
  {
    if x != 0 || y != 0 { BitOrComm(x / 2, y / 2); }
  }

  lemma WAddCarry(x: Limb, y: Limb)
    ensures WAdd(x, y) + B * Flag(WAdd(x, y) < y) == x + y
  {
    if x + y < B {
      DivModUnique(x + y, B, 0, x + y);
    } else {
      DivModUnique(x + y, B, 1, x + y - B);
    }
  }

  lemma WSubBorrow(x: Limb, y: Limb)
    ensures WSub(x, y) - B * Flag(x < y) == x - y
  {
    if x >= y {
      DivModUnique(x - y, B, 0, x - y);
    } else {
      DivModUnique(x - y, B, -1, x - y + B);
    }
  }

  lemma WExact(x: int)
    requires 0 <= x < B
    ensures x % B == x
  {
    DivModUnique(x, B, 0, x);
  }

  // ---------------------------------------------------------------- values

  function BPow(n: nat): (r: nat)
    ensures 0 < r
  {
    PowPos(B, n);
    Pow(B, n)
  }

  /** The number a limb sequence stands for: sum of s[i] * B^i. */
  function Val(s: seq<Limb>): (v: nat)
  {
    if |s| == 0 then 0
    else Val(s[..|s| - 1]) + s[|s| - 1] * BPow(|s| - 1)
  }

  lemma ValEmpty()
    ensures Val([]) == 0
  {
  }

  lemma BPow0()
    ensures BPow(0) == 1
  {
  }

  lemma BPowSucc(n: nat)
    ensures BPow(n + 1) == B * BPow(n)
  {
  }

  lemma BPowAdd(m: nat, n: nat)
    ensures BPow(m + n) == BPow(m) * BPow(n)
  {
    PowAdd(B, m, n);
  }

  lemma BPowMono(m: nat, n: nat)
    requires m <= n
    ensures BPow(m) <= BPow(n)
  {
    PowMono(B, m, n);
  }

  lemma ValSnoc(s: seq<Limb>, i: nat)
    requires i < |s|
    ensures Val(s[..i + 1]) == Val(s[..i]) + s[i] * BPow(i)
  {
    assert s[..i + 1][..i] == s[..i];
  }

  lemma ValFull(s: seq<Limb>)
    ensures s[..|s|] == s && Val(s[..|s|]) == Val(s)
  {
    assert s[..|s|] == s;
  }

  lemma {:induction false} ValBound(s: seq<Limb>)
    ensures Val(s) < BPow(|s|)
  {
    if |s| > 0 {
      var n := |s| - 1;
      ValBound(s[..n]);
      MulMono(s[n], B - 1, BPow(n));
      BPowSucc(n);
      assert (B - 1) * BPow(n) == B * BPow(n) - BPow(n);
    }
  }

  lemma {:induction false} ValSplit(s: seq<Limb>, k: nat)
    requires k <= |s|
    ensures Val(s) == Val(s[..k]) + BPow(k) * Val(s[k..])
  {
    if k == |s| {
      assert s[..k] == s;
    } else {
      hide BPow;
      var n := |s| - 1;
      ValSplit(s[..n], k);
      assert s[..n][..k] == s[..k];
      assert s[k..][..|s[k..]| - 1] == s[..n][k..];
      BPowAdd(k, n - k);
      assert Val(s[k..]) == Val(s[..n][k..]) + s[n] * BPow(n - k);
      assert BPow(k) * (Val(s[..n][k..]) + s[n] * BPow(n - k))
          == BPow(k) * Val(s[..n][k..]) + s[n] * BPow(n) by {
        assert BPow(k) * (s[n] * BPow(n - k)) == s[n] * (BPow(k) * BPow(n - k)) by {
          MulAssoc(BPow(k), s[n], BPow(n - k));
          MulAssoc(s[n], BPow(k), BPow(n - k));
        }
      }
    }
  }

  lemma ValSingle(x: Limb)
    ensures Val([x]) == x
  {
    assert [x][..0] == [];
    assert BPow(0) == 1;
  }

  lemma ValCons(s: seq<Limb>)
    requires |s| > 0
    ensures Val(s) == s[0] + B * Val(s[1..])
  {
    ValSplit(s, 1);
    assert s[..1] == [s[0]];
    ValSingle(s[0]);
    assert BPow(1) == B * BPow(0) == B;
  }

  lemma {:induction false} ValZeros(s: seq<Limb>)
    requires forall j :: 0 <= j < |s| ==> s[j] == 0
    ensures Val(s) == 0
  {
    if |s| > 0 { ValZeros(s[..|s| - 1]); }
  }

  lemma ValHighZeros(s: seq<Limb>, n: nat)
    requires n <= |s| && forall j :: n <= j < |s| ==> s[j] == 0
    ensures Val(s) == Val(s[..n])
  {
    ValSplit(s, n);
    ValZeros(s[n..]);
  }

  lemma ValUpdate(s: seq<Limb>, i: nat, x: Limb)
    requires i < |s|
    ensures Val(s[i := x]) == Val(s) + (x - s[i]) * BPow(i)
  {
    hide Val, BPow;
    var t := s[i := x];
    ValSplit(s, i + 1);
    ValSplit(t, i + 1);
    ValSnoc(s, i);
    ValSnoc(t, i);
    assert s[..i] == t[..i] && s[i + 1..] == t[i + 1..];
    assert (x - s[i]) * BPow(i) == x * BPow(i) - s[i] * BPow(i);
  }

  /** Splitting off everything from limb n upwards is division by B^n. */
  lemma ValDivMod(s: seq<Limb>, n: nat)
    requires n <= |s|
    ensures Val(s) / BPow(n) == Val(s[n..]) && Val(s) % BPow(n) == Val(s[..n])
  {
    ValSplit(s, n);
    ValBound(s[..n]);
    DivModUnique(Val(s), BPow(n), Val(s[n..]), Val(s[..n]));
  }

  lemma ValPositive(s: seq<Limb>, i: nat)
    requires i < |s| && s[i] != 0
    ensures Val(s) >= BPow(i)
  {
    ValSplit(s, i + 1);
    ValSnoc(s, i);
    MulMono(1, s[i], BPow(i));
    MulMono(0, Val(s[i + 1..]), BPow(i + 1));
  }

  /** A value below B^n has only zero limbs from n upwards. */
  lemma ValSmall(s: seq<Limb>, n: nat)
    requires Val(s) < BPow(n)
    ensures forall j :: n <= j < |s| ==> s[j] == 0
    ensures n <= |s| ==> Val(s) == Val(s[..n])
  {
    forall j | n <= j < |s|
      ensures s[j] == 0
    {
      if s[j] != 0 {
        ValPositive(s, j);
        BPowMono(n, j);
      }
    }
    if n <= |s| { ValHighZeros(s, n); }
  }

  /** The limb that decides a comparison from the top. */
  lemma ValTopLess(s: seq<Limb>, t: seq<Limb>, i: nat)
    requires i < |s| && i < |t| && s[i] < t[i]
    ensures Val(s[..i + 1]) < Val(t[..i + 1])
  {
    ValSnoc(s, i);
    ValSnoc(t, i);
    ValBound(s[..i]);
    MulMono(s[i] + 1, t[i], BPow(i));
    assert (s[i] + 1) * BPow(i) == s[i] * BPow(i) + BPow(i);
  }

  lemma Pow2Bil()
    ensures Pow2(32) == H && Pow2(64) == B && H * H == B
  {
    assert Pow(2, 8) == 256;
    PowAdd(2, 8, 8);
    PowAdd(2, 16, 16);
    PowAdd(2, 32, 32);
  }

  lemma {:induction false} BPowIsPow2(n: nat)
    ensures BPow(n) == Pow2(64 * n)
  {
    Pow2Bil();
    PowMul(2, 64, n);
  }
}
