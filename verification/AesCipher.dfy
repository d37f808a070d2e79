/** The cipher and the inverse cipher of FIPS 197, and the table-driven rounds of aes.c. */
module AesCipher {
  import opened Gf256
  import opened Words
  import opened AesRound
  import opened AesTables

  // ---------------------------------------------------------------- the steps of FIPS 197

  function SubWord(w: bv32): bv32 {
    Pack(SBox(B0(w)), SBox(B1(w)), SBox(B2(w)), SBox(B3(w)))
  }

  function InvSubWord(w: bv32): bv32 {
    Pack(InvSBox(B0(w)), InvSBox(B1(w)), InvSBox(B2(w)), InvSBox(B3(w)))
  }

  function SubBytes(s: State): State {
    State(SubWord(s.c0), SubWord(s.c1), SubWord(s.c2), SubWord(s.c3))
  }

  function InvSubBytes(s: State): State {
    State(InvSubWord(s.c0), InvSubWord(s.c1), InvSubWord(s.c2), InvSubWord(s.c3))
  }

  /** The bytes of one column after a rotation of the rows. */
  function Gather(a: bv32, b: bv32, c: bv32, d: bv32): bv32 {
    Pack(B0(a), B1(b), B2(c), B3(d))
  }

  /** Row i moves i places to the left. */
  function ShiftRows(s: State): State {
    State(Gather(s.c0, s.c1, s.c2, s.c3), Gather(s.c1, s.c2, s.c3, s.c0), Gather(s.c2, s.c3, s.c0, s.c1), Gather(s.c3, s.c0, s.c1, s.c2))
  }

  /** Row i moves i places to the right. */
  function InvShiftRows(s: State): State {
    State(Gather(s.c0, s.c3, s.c2, s.c1), Gather(s.c1, s.c0, s.c3, s.c2), Gather(s.c2, s.c1, s.c0, s.c3), Gather(s.c3, s.c2, s.c1, s.c0))
  }

  function MixColumns(s: State): State {
    State(MixColumn(s.c0), MixColumn(s.c1), MixColumn(s.c2), MixColumn(s.c3))
  }

  function InvMixColumns(s: State): State {
    State(InvMixColumn(s.c0), InvMixColumn(s.c1), InvMixColumn(s.c2), InvMixColumn(s.c3))
  }

  /** Four words of a key schedule. */
  function KeyAt(rk: seq<bv32>, at: nat): State
    requires at + 4 <= |rk|
  {
    State(rk[at], rk[at + 1], rk[at + 2], rk[at + 3])
  }

  // ---------------------------------------------------------------- Cipher and InvCipher (section 5 of FIPS 197)

  /** The state after round r of the cipher, r below the last. */
  function Rounds(rk: seq<bv32>, r: nat, s: State): State
    requires 4 * r + 4 <= |rk|
    decreases r
  {
    if r == 0 then AddKey(s, KeyAt(rk, 0))
    else AddKey(MixColumns(ShiftRows(SubBytes(Rounds(rk, r - 1, s)))), KeyAt(rk, 4 * r))
  }

  function Cipher(rk: seq<bv32>, nr: nat, s: State): State
    requires 0 < nr && 4 * nr + 4 <= |rk|
  {
    AddKey(ShiftRows(SubBytes(Rounds(rk, nr - 1, s))), KeyAt(rk, 4 * nr))
  }

  /** The state of the inverse cipher after n of its rounds. */
  function InvRounds(rk: seq<bv32>, nr: nat, n: nat, s: State): State
    requires n < nr && 4 * nr + 4 <= |rk|
    decreases n
  {
    if n == 0 then AddKey(s, KeyAt(rk, 4 * nr))
    else InvMixColumns(AddKey(InvSubBytes(InvShiftRows(InvRounds(rk, nr, n - 1, s))), KeyAt(rk, 4 * (nr - n))))
  }

  function InvCipher(rk: seq<bv32>, nr: nat, s: State): State
    requires 0 < nr && 4 * nr + 4 <= |rk|
  {
    AddKey(InvSubBytes(InvShiftRows(InvRounds(rk, nr, nr - 1, s))), KeyAt(rk, 0))
  }

  lemma SubWordInverse(w: bv32)
    ensures InvSubWord(SubWord(w)) == w
  {
    hide Pack, B0, B1, B2, B3, SBox, InvSBox;
    BytesOfPack(SBox(B0(w)), SBox(B1(w)), SBox(B2(w)), SBox(B3(w)));
    SBoxInverse(B0(w));
    SBoxInverse(B1(w));
    SBoxInverse(B2(w));
    SBoxInverse(B3(w));
    PackOfBytes(w);
  }

  lemma SubBytesInverse(s: State)
    ensures InvSubBytes(SubBytes(s)) == s
  {
    hide SubWord, InvSubWord;
    SubWordInverse(s.c0);
    SubWordInverse(s.c1);
    SubWordInverse(s.c2);
    SubWordInverse(s.c3);
  }

  lemma BytesOfGather(a: bv32, b: bv32, c: bv32, d: bv32)
    ensures var w := Gather(a, b, c, d); B0(w) == B0(a) && B1(w) == B1(b) && B2(w) == B2(c) && B3(w) == B3(d)
  {
    hide Pack, B0, B1, B2, B3;
    BytesOfPack(B0(a), B1(b), B2(c), B3(d));
  }

  lemma ShiftRowsInverse(s: State)
    ensures InvShiftRows(ShiftRows(s)) == s
  {
    hide Pack, B0, B1, B2, B3;
    var t := ShiftRows(s);
    ShiftRowsBytes(s);
    PackOfBytes(s.c0);
    PackOfBytes(s.c1);
    PackOfBytes(s.c2);
    PackOfBytes(s.c3);
  }

  lemma ShiftRowsBytes(s: State)
    ensures var t := ShiftRows(s);
            && B0(t.c0) == B0(s.c0) && B1(t.c0) == B1(s.c1) && B2(t.c0) == B2(s.c2) && B3(t.c0) == B3(s.c3)
            && B0(t.c1) == B0(s.c1) && B1(t.c1) == B1(s.c2) && B2(t.c1) == B2(s.c3) && B3(t.c1) == B3(s.c0)
            && B0(t.c2) == B0(s.c2) && B1(t.c2) == B1(s.c3) && B2(t.c2) == B2(s.c0) && B3(t.c2) == B3(s.c1)
            && B0(t.c3) == B0(s.c3) && B1(t.c3) == B1(s.c0) && B2(t.c3) == B2(s.c1) && B3(t.c3) == B3(s.c2)
  {
    hide Gather, B0, B1, B2, B3;
    BytesOfGather(s.c0, s.c1, s.c2, s.c3);
    BytesOfGather(s.c1, s.c2, s.c3, s.c0);
    BytesOfGather(s.c2, s.c3, s.c0, s.c1);
    BytesOfGather(s.c3, s.c0, s.c1, s.c2);
  }

  lemma MixColumnsInverse(s: State)
    ensures InvMixColumns(MixColumns(s)) == s
  {
    hide MixColumn, InvMixColumn;
    InvMixOfMix(s.c0);
    InvMixOfMix(s.c1);
    InvMixOfMix(s.c2);
    InvMixOfMix(s.c3);
  }

  /** Each round of the inverse cipher takes back one round of the cipher. */
  lemma {:induction false} RoundsInverse(rk: seq<bv32>, nr: nat, n: nat, s: State)
    requires n < nr && 4 * nr + 4 <= |rk|
    ensures InvRounds(rk, nr, n, Cipher(rk, nr, s)) == ShiftRows(SubBytes(Rounds(rk, nr - 1 - n, s)))
    decreases n
  {
    hide AddKey, ShiftRows, InvShiftRows, SubBytes, InvSubBytes, MixColumns, InvMixColumns;
    if n == 0 {
      AddKeyCancel(ShiftRows(SubBytes(Rounds(rk, nr - 1, s))), KeyAt(rk, 4 * nr));
    } else {
      RoundsInverse(rk, nr, n - 1, s);
      var r := nr - n;
      var x := Rounds(rk, r, s);
      ShiftRowsInverse(SubBytes(x));
      SubBytesInverse(x);
      var y := ShiftRows(SubBytes(Rounds(rk, r - 1, s)));
      AddKeyCancel(MixColumns(y), KeyAt(rk, 4 * r));
      MixColumnsInverse(y);
    }
  }

  /** InvCipher undoes Cipher, whatever the round keys. */
  lemma CipherInverse(rk: seq<bv32>, nr: nat, s: State)
    requires 0 < nr && 4 * nr + 4 <= |rk|
    ensures InvCipher(rk, nr, Cipher(rk, nr, s)) == s
  {
    hide AddKey, ShiftRows, InvShiftRows, SubBytes, InvSubBytes, Cipher, InvRounds;
    RoundsInverse(rk, nr, nr - 1, s);
    var x := Rounds(rk, 0, s);
    ShiftRowsInverse(SubBytes(x));
    SubBytesInverse(x);
    AddKeyCancel(s, KeyAt(rk, 0));
  }

  // ---------------------------------------------------------------- the equivalent inverse cipher

  /** The schedule of mbedtls_aes_setkey_dec: reversed, the inner round keys through InvMixColumns. */
  ghost predicate IsDecSchedule(dk: seq<bv32>, rk: seq<bv32>, nr: nat)
    requires 4 * nr + 4 <= |rk| && 4 * nr + 4 <= |dk|
  {
    && KeyAt(dk, 0) == KeyAt(rk, 4 * nr)
    && KeyAt(dk, 4 * nr) == KeyAt(rk, 0)
    && forall r: nat :: 0 < r < nr ==> KeyAt(dk, 4 * r) == InvMixColumns(KeyAt(rk, 4 * (nr - r)))
  }

  /** The rounds in the order of the cipher's own rounds, as the code does them. */
  function EqRounds(dk: seq<bv32>, r: nat, s: State): State
    requires 4 * r + 4 <= |dk|
    decreases r
  {
    if r == 0 then AddKey(s, KeyAt(dk, 0))
    else AddKey(InvMixColumns(InvSubBytes(InvShiftRows(EqRounds(dk, r - 1, s)))), KeyAt(dk, 4 * r))
  }

  function EqInvCipher(dk: seq<bv32>, nr: nat, s: State): State
    requires 0 < nr && 4 * nr + 4 <= |dk|
  {
    AddKey(InvSubBytes(InvShiftRows(EqRounds(dk, nr - 1, s))), KeyAt(dk, 4 * nr))
  }

  lemma InvMixAddKey(s: State, k: State)
    ensures InvMixColumns(AddKey(s, k)) == AddKey(InvMixColumns(s), InvMixColumns(k))
  {
    hide InvMixColumn, Xor;
    InvMixXor(s.c0, k.c0);
    InvMixXor(s.c1, k.c1);
    InvMixXor(s.c2, k.c2);
    InvMixXor(s.c3, k.c3);
  }

  lemma {:induction false} EqRoundsAre(dk: seq<bv32>, rk: seq<bv32>, nr: nat, n: nat, s: State)
    requires n < nr && 4 * nr + 4 <= |rk| && 4 * nr + 4 <= |dk| && IsDecSchedule(dk, rk, nr)
    ensures EqRounds(dk, n, s) == InvRounds(rk, nr, n, s)
    decreases n
  {
    hide AddKey, InvShiftRows, InvSubBytes, InvMixColumns, KeyAt;
    if n > 0 {
      EqRoundsAre(dk, rk, nr, n - 1, s);
      InvMixAddKey(InvSubBytes(InvShiftRows(EqRounds(dk, n - 1, s))), KeyAt(rk, 4 * (nr - n)));
    }
  }

  /** Section 5.3.5 of FIPS 197: with the transformed schedule the two inverse ciphers agree. */
  lemma EquivalentInverse(dk: seq<bv32>, rk: seq<bv32>, nr: nat, s: State)
    requires 0 < nr && 4 * nr + 4 <= |rk| && 4 * nr + 4 <= |dk| && IsDecSchedule(dk, rk, nr)
    ensures EqInvCipher(dk, nr, s) == InvCipher(rk, nr, s)
  {
    hide AddKey, InvShiftRows, InvSubBytes, EqRounds, InvRounds;
    EqRoundsAre(dk, rk, nr, nr - 1, s);
  }
}
