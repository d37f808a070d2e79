/** Key schedules and block encryption of aes.c with the generated tables. */
module Aes {
  import Arith
  import Bytes
  import opened Gf256
  import opened Words
  import opened AesRound
  import opened AesTables
  import opened AesCipher

  const ERR_INVALID_KEY_LENGTH: int := -0x0020

  // ---------------------------------------------------------------- table lookups

  lemma SBoxLookup(t: Tables, x: bv8)
    requires Good(t)
    ensures x as int < 256 && t.fsb[x as int] == SBox(x) && t.rsb[x as int] == InvSBox(x)
  {
    hide SBox, InvSBox, GoodForward, GoodReverse, GoodRcon;
    IndexOf(x);
  }

  lemma ForwardLookup(t: Tables, x: bv8)
    requires Good(t)
    ensures x as int < 256 && var f := ForwardEntry(SBox(x));
            && t.ft0[x as int] == f && t.ft1[x as int] == Rotl8(f)
            && t.ft2[x as int] == Rotl8(Rotl8(f)) && t.ft3[x as int] == Rotl8(Rotl8(Rotl8(f)))
  {
    hide SBox, ForwardEntry, Rotl8, GoodSBoxes, GoodReverse, GoodRcon;
    IndexOf(x);
  }

  lemma ReverseLookup(t: Tables, x: bv8)
    requires Good(t)
    ensures x as int < 256 && var f := ReverseEntry(InvSBox(x));
            && t.rt0[x as int] == f && t.rt1[x as int] == Rotl8(f)
            && t.rt2[x as int] == Rotl8(Rotl8(f)) && t.rt3[x as int] == Rotl8(Rotl8(Rotl8(f)))
  {
    hide InvSBox, ReverseEntry, Rotl8, GoodSBoxes, GoodForward, GoodRcon;
    IndexOf(x);
  }

  lemma XorAssoc(a: bv32, b: bv32, c: bv32)
    ensures Xor(Xor(a, b), c) == Xor(a, Xor(b, c))
  {
  }

  /** The four lookups added to a round key from left to right. */
  function XorChain(k: bv32, a: bv32, b: bv32, c: bv32, d: bv32): bv32 {
    Xor(Xor(Xor(Xor(k, a), b), c), d)
  }

  lemma XorChainIs(k: bv32, a: bv32, b: bv32, c: bv32, d: bv32)
    ensures XorChain(k, a, b, c, d) == Xor(Sum32(a, b, c, d), k)
  {
    hide Xor;
    XorAssoc(k, a, b);
    XorAssoc(Xor(k, Xor(a, b)), c, d);
    XorAssoc(k, Xor(a, b), Xor(c, d));
    XorCancel(k, Sum32(a, b, c, d));
  }

  /** One word of AES_FROUND. */
  method ForwardWord(t: Tables, k: bv32, a: bv32, b: bv32, c: bv32, d: bv32) returns (x: bv32)
    requires Good(t)
    ensures x == Xor(MixBytes(SBox(B0(a)), SBox(B1(b)), SBox(B2(c)), SBox(B3(d))), k)
  {
    hide Good, B0, B1, B2, B3, SBox, ForwardEntry, Rotl8, Sum32, Xor, MixBytes, XorChain;
    ForwardLookup(t, B0(a));
    ForwardLookup(t, B1(b));
    ForwardLookup(t, B2(c));
    ForwardLookup(t, B3(d));
    Lengths(t);
    x := XorChain(k, t.ft0[B0(a) as int], t.ft1[B1(b) as int], t.ft2[B2(c) as int], t.ft3[B3(d) as int]);
    XorChainIs(k, t.ft0[B0(a) as int], t.ft1[B1(b) as int], t.ft2[B2(c) as int], t.ft3[B3(d) as int]);
    ForwardTable(SBox(B0(a)), SBox(B1(b)), SBox(B2(c)), SBox(B3(d)));
  }

  /** One word of AES_RROUND. */
  method ReverseWord(t: Tables, k: bv32, a: bv32, b: bv32, c: bv32, d: bv32) returns (x: bv32)
    requires Good(t)
    ensures x == Xor(InvMixBytes(InvSBox(B0(a)), InvSBox(B1(b)), InvSBox(B2(c)), InvSBox(B3(d))), k)
  {
    hide Good, B0, B1, B2, B3, InvSBox, ReverseEntry, Rotl8, Sum32, Xor, InvMixBytes, XorChain;
    ReverseLookup(t, B0(a));
    ReverseLookup(t, B1(b));
    ReverseLookup(t, B2(c));
    ReverseLookup(t, B3(d));
    Lengths(t);
    x := XorChain(k, t.rt0[B0(a) as int], t.rt1[B1(b) as int], t.rt2[B2(c) as int], t.rt3[B3(d) as int]);
    XorChainIs(k, t.rt0[B0(a) as int], t.rt1[B1(b) as int], t.rt2[B2(c) as int], t.rt3[B3(d) as int]);
    ReverseTable(InvSBox(B0(a)), InvSBox(B1(b)), InvSBox(B2(c)), InvSBox(B3(d)));
  }

  lemma Lengths(t: Tables)
    requires Good(t)
    ensures |t.fsb| == 256 == |t.rsb| && |t.rcon| == 10
    ensures 256 == |t.ft0| == |t.ft1| == |t.ft2| == |t.ft3| == |t.rt0| == |t.rt1| == |t.rt2| == |t.rt3|
  {
  }

  // ---------------------------------------------------------------- rounds

  lemma SubShift(a: bv32, b: bv32, c: bv32, d: bv32)
    ensures Gather(SubWord(a), SubWord(b), SubWord(c), SubWord(d)) == Pack(SBox(B0(a)), SBox(B1(b)), SBox(B2(c)), SBox(B3(d)))
  {
    hide Pack, B0, B1, B2, B3, SBox;
    BytesOfPack(SBox(B0(a)), SBox(B1(a)), SBox(B2(a)), SBox(B3(a)));
    BytesOfPack(SBox(B0(b)), SBox(B1(b)), SBox(B2(b)), SBox(B3(b)));
    BytesOfPack(SBox(B0(c)), SBox(B1(c)), SBox(B2(c)), SBox(B3(c)));
    BytesOfPack(SBox(B0(d)), SBox(B1(d)), SBox(B2(d)), SBox(B3(d)));
  }

  lemma MixOfPack(a: bv8, b: bv8, c: bv8, d: bv8)
    ensures MixColumn(Pack(a, b, c, d)) == MixBytes(a, b, c, d) && InvMixColumn(Pack(a, b, c, d)) == InvMixBytes(a, b, c, d)
  {
    hide Pack, B0, B1, B2, B3, MixBytes, InvMixBytes;
    BytesOfPack(a, b, c, d);
  }

  lemma ForwardColumn(a: bv32, b: bv32, c: bv32, d: bv32)
    ensures MixColumn(Gather(SubWord(a), SubWord(b), SubWord(c), SubWord(d)))
         == MixBytes(SBox(B0(a)), SBox(B1(b)), SBox(B2(c)), SBox(B3(d)))
  {
    hide Gather, SubWord, MixColumn, MixBytes, Pack, B0, B1, B2, B3, SBox;
    SubShift(a, b, c, d);
    MixOfPack(SBox(B0(a)), SBox(B1(b)), SBox(B2(c)), SBox(B3(d)));
  }

  lemma InvSubGather(a: bv32, b: bv32, c: bv32, d: bv32)
    ensures InvSubWord(Gather(a, b, c, d)) == Pack(InvSBox(B0(a)), InvSBox(B1(b)), InvSBox(B2(c)), InvSBox(B3(d)))
  {
    hide Pack, B0, B1, B2, B3, InvSBox;
    BytesOfPack(B0(a), B1(b), B2(c), B3(d));
  }

  lemma ReverseColumn(a: bv32, b: bv32, c: bv32, d: bv32)
    ensures InvMixColumn(InvSubWord(Gather(a, b, c, d)))
         == InvMixBytes(InvSBox(B0(a)), InvSBox(B1(b)), InvSBox(B2(c)), InvSBox(B3(d)))
  {
    hide Gather, InvSubWord, InvMixColumn, InvMixBytes, Pack, B0, B1, B2, B3, InvSBox;
    InvSubGather(a, b, c, d);
    MixOfPack(InvSBox(B0(a)), InvSBox(B1(b)), InvSBox(B2(c)), InvSBox(B3(d)));
  }

  /** AES_FROUND: a round of the cipher by four lookups a column. */
  method ForwardRound(t: Tables, rk: seq<bv32>, at: nat, y: State) returns (x: State)
    requires Good(t) && at + 4 <= |rk|
    ensures x == AddKey(MixColumns(ShiftRows(SubBytes(y))), KeyAt(rk, at))
  {
    hide Good, SBox, B0, B1, B2, B3, MixBytes, MixColumn, Gather, SubWord, Xor;
    var x0 := ForwardWord(t, rk[at], y.c0, y.c1, y.c2, y.c3);
    var x1 := ForwardWord(t, rk[at + 1], y.c1, y.c2, y.c3, y.c0);
    var x2 := ForwardWord(t, rk[at + 2], y.c2, y.c3, y.c0, y.c1);
    var x3 := ForwardWord(t, rk[at + 3], y.c3, y.c0, y.c1, y.c2);
    x := State(x0, x1, x2, x3);
    ForwardColumn(y.c0, y.c1, y.c2, y.c3);
    ForwardColumn(y.c1, y.c2, y.c3, y.c0);
    ForwardColumn(y.c2, y.c3, y.c0, y.c1);
    ForwardColumn(y.c3, y.c0, y.c1, y.c2);
  }

  /** AES_RROUND: a round of the equivalent inverse cipher. */
  method ReverseRound(t: Tables, rk: seq<bv32>, at: nat, y: State) returns (x: State)
    requires Good(t) && at + 4 <= |rk|
    ensures x == AddKey(InvMixColumns(InvSubBytes(InvShiftRows(y))), KeyAt(rk, at))
  {
    hide Good, InvSBox, B0, B1, B2, B3, InvMixBytes, InvMixColumn, Gather, InvSubWord, Xor;
    var x0 := ReverseWord(t, rk[at], y.c0, y.c3, y.c2, y.c1);
    var x1 := ReverseWord(t, rk[at + 1], y.c1, y.c0, y.c3, y.c2);
    var x2 := ReverseWord(t, rk[at + 2], y.c2, y.c1, y.c0, y.c3);
    var x3 := ReverseWord(t, rk[at + 3], y.c3, y.c2, y.c1, y.c0);
    x := State(x0, x1, x2, x3);
    ReverseColumn(y.c0, y.c3, y.c2, y.c1);
    ReverseColumn(y.c1, y.c0, y.c3, y.c2);
    ReverseColumn(y.c2, y.c1, y.c0, y.c3);
    ReverseColumn(y.c3, y.c2, y.c1, y.c0);
  }

  /** The column the bytes a, b, c and d give with the matrix of section 5.1.3 of FIPS 197. */
  lemma MixColumnIs(a: bv8, b: bv8, c: bv8, d: bv8)
    ensures MixBytes(a, b, c, d) ==
      Pack(Add(Add(Mul(a, 2), Mul(b, 3)), Add(c, d)),
           Add(Add(Mul(b, 2), Mul(c, 3)), Add(d, a)),
           Add(Add(Mul(c, 2), Mul(d, 3)), Add(a, b)),
           Add(Add(Mul(d, 2), Mul(a, 3)), Add(b, c)))
  {
    hide Pack, Mul, Add;
  }

  /** The cipher column by column, in the S-box, the field product and the round keys: the first key, */
  lemma CipherStart(rk: seq<bv32>, s: State)
    requires 4 <= |rk|
    ensures Rounds(rk, 0, s) == State(Xor(s.c0, rk[0]), Xor(s.c1, rk[1]), Xor(s.c2, rk[2]), Xor(s.c3, rk[3]))
  {
    hide Xor;
  }

  /** a round, byte i of a column coming from the column i places on, */
  lemma CipherRound(rk: seq<bv32>, r: nat, s: State)
    requires 0 < r && 4 * r + 4 <= |rk|
    ensures var y, x := Rounds(rk, r - 1, s), Rounds(rk, r, s);
            && x.c0 == Xor(MixBytes(SBox(B0(y.c0)), SBox(B1(y.c1)), SBox(B2(y.c2)), SBox(B3(y.c3))), rk[4 * r + 0])
            && x.c1 == Xor(MixBytes(SBox(B0(y.c1)), SBox(B1(y.c2)), SBox(B2(y.c3)), SBox(B3(y.c0))), rk[4 * r + 1])
            && x.c2 == Xor(MixBytes(SBox(B0(y.c2)), SBox(B1(y.c3)), SBox(B2(y.c0)), SBox(B3(y.c1))), rk[4 * r + 2])
            && x.c3 == Xor(MixBytes(SBox(B0(y.c3)), SBox(B1(y.c0)), SBox(B2(y.c1)), SBox(B3(y.c2))), rk[4 * r + 3])
  {
    hide Xor, MixBytes, MixColumn, Gather, SubWord, SBox, B0, B1, B2, B3;
    var y := Rounds(rk, r - 1, s);
    ForwardColumn(y.c0, y.c1, y.c2, y.c3);
    ForwardColumn(y.c1, y.c2, y.c3, y.c0);
    ForwardColumn(y.c2, y.c3, y.c0, y.c1);
    ForwardColumn(y.c3, y.c0, y.c1, y.c2);
  }

  /** and the last round without the matrix. */
  lemma CipherEnd(rk: seq<bv32>, nr: nat, s: State)
    requires 0 < nr && 4 * nr + 4 <= |rk|
    ensures var y, x := Rounds(rk, nr - 1, s), Cipher(rk, nr, s);
            && x.c0 == Xor(Pack(SBox(B0(y.c0)), SBox(B1(y.c1)), SBox(B2(y.c2)), SBox(B3(y.c3))), rk[4 * nr + 0])
            && x.c1 == Xor(Pack(SBox(B0(y.c1)), SBox(B1(y.c2)), SBox(B2(y.c3)), SBox(B3(y.c0))), rk[4 * nr + 1])
            && x.c2 == Xor(Pack(SBox(B0(y.c2)), SBox(B1(y.c3)), SBox(B2(y.c0)), SBox(B3(y.c1))), rk[4 * nr + 2])
            && x.c3 == Xor(Pack(SBox(B0(y.c3)), SBox(B1(y.c0)), SBox(B2(y.c1)), SBox(B3(y.c2))), rk[4 * nr + 3])
  {
    hide Xor, Pack, Gather, SubWord, SBox, B0, B1, B2, B3, Rounds;
    var y := Rounds(rk, nr - 1, s);
    SubShift(y.c0, y.c1, y.c2, y.c3);
    SubShift(y.c1, y.c2, y.c3, y.c0);
    SubShift(y.c2, y.c3, y.c0, y.c1);
    SubShift(y.c3, y.c0, y.c1, y.c2);
  }

  // ---------------------------------------------------------------- the last round

  /** Four S-box outputs put in their places and added to a round key. */
  method LastWord(box: seq<bv8>, k: bv32, a: bv32, b: bv32, c: bv32, d: bv32) returns (x: bv32)
    requires |box| == 256
    ensures var e0, e1, e2, e3 := B0(a) as int, B1(b) as int, B2(c) as int, B3(d) as int;
            && e0 < 256 && e1 < 256 && e2 < 256 && e3 < 256
            && x == Xor(Pack(box[e0], box[e1], box[e2], box[e3]), k)
  {
    hide B0, B1, B2, B3, Xor, Pack;
    IndexOf(B0(a));
    IndexOf(B1(b));
    IndexOf(B2(c));
    IndexOf(B3(d));
    x := Xor(k, Pack(box[B0(a) as int], box[B1(b) as int], box[B2(c) as int], box[B3(d) as int]));
    XorCancel(k, Pack(box[B0(a) as int], box[B1(b) as int], box[B2(c) as int], box[B3(d) as int]));
  }

  method LastForward(t: Tables, rk: seq<bv32>, at: nat, y: State) returns (x: State)
    requires Good(t) && at + 4 <= |rk|
    ensures x == AddKey(ShiftRows(SubBytes(y)), KeyAt(rk, at))
  {
    hide Good, SBox, B0, B1, B2, B3, Gather, SubWord, Xor, Pack;
    Lengths(t);
    var x0 := LastWord(t.fsb, rk[at], y.c0, y.c1, y.c2, y.c3);
    var x1 := LastWord(t.fsb, rk[at + 1], y.c1, y.c2, y.c3, y.c0);
    var x2 := LastWord(t.fsb, rk[at + 2], y.c2, y.c3, y.c0, y.c1);
    var x3 := LastWord(t.fsb, rk[at + 3], y.c3, y.c0, y.c1, y.c2);
    x := State(x0, x1, x2, x3);
    SubShiftByTable(t, y.c0, y.c1, y.c2, y.c3);
    SubShiftByTable(t, y.c1, y.c2, y.c3, y.c0);
    SubShiftByTable(t, y.c2, y.c3, y.c0, y.c1);
    SubShiftByTable(t, y.c3, y.c0, y.c1, y.c2);
  }

  lemma SubShiftByTable(t: Tables, a: bv32, b: bv32, c: bv32, d: bv32)
    requires Good(t) && |t.fsb| == 256
    ensures var e0, e1, e2, e3 := B0(a) as int, B1(b) as int, B2(c) as int, B3(d) as int;
            && e0 < 256 && e1 < 256 && e2 < 256 && e3 < 256
            && Pack(t.fsb[e0], t.fsb[e1], t.fsb[e2], t.fsb[e3]) == Gather(SubWord(a), SubWord(b), SubWord(c), SubWord(d))
  {
    hide Good, SBox, InvSBox, B0, B1, B2, B3, Gather, SubWord, Pack;
    Lengths(t);
    SubShift(a, b, c, d);
    SBoxLookup(t, B0(a));
    SBoxLookup(t, B1(b));
    SBoxLookup(t, B2(c));
    SBoxLookup(t, B3(d));
  }

  method LastReverse(t: Tables, rk: seq<bv32>, at: nat, y: State) returns (x: State)
    requires Good(t) && at + 4 <= |rk|
    ensures x == AddKey(InvSubBytes(InvShiftRows(y)), KeyAt(rk, at))
  {
    hide Good, InvSBox, B0, B1, B2, B3, Gather, InvSubWord, Xor, Pack;
    Lengths(t);
    var x0 := LastWord(t.rsb, rk[at], y.c0, y.c3, y.c2, y.c1);
    var x1 := LastWord(t.rsb, rk[at + 1], y.c1, y.c0, y.c3, y.c2);
    var x2 := LastWord(t.rsb, rk[at + 2], y.c2, y.c1, y.c0, y.c3);
    var x3 := LastWord(t.rsb, rk[at + 3], y.c3, y.c2, y.c1, y.c0);
    x := State(x0, x1, x2, x3);
    InvSubByTable(t, y.c0, y.c3, y.c2, y.c1);
    InvSubByTable(t, y.c1, y.c0, y.c3, y.c2);
    InvSubByTable(t, y.c2, y.c1, y.c0, y.c3);
    InvSubByTable(t, y.c3, y.c2, y.c1, y.c0);
  }

  lemma InvSubByTable(t: Tables, a: bv32, b: bv32, c: bv32, d: bv32)
    requires Good(t) && |t.rsb| == 256
    ensures var e0, e1, e2, e3 := B0(a) as int, B1(b) as int, B2(c) as int, B3(d) as int;
            && e0 < 256 && e1 < 256 && e2 < 256 && e3 < 256
            && Pack(t.rsb[e0], t.rsb[e1], t.rsb[e2], t.rsb[e3]) == InvSubWord(Gather(a, b, c, d))
  {
    hide Good, SBox, InvSBox, B0, B1, B2, B3, Gather, InvSubWord, Pack;
    Lengths(t);
    InvSubGather(a, b, c, d);
    SBoxLookup(t, B0(a));
    SBoxLookup(t, B1(b));
    SBoxLookup(t, B2(c));
    SBoxLookup(t, B3(d));
  }

  // ---------------------------------------------------------------- blocks

  /** GET_UINT32_LE four times. */
  function Load(b: seq<bv8>): State
    requires |b| == 16
  {
    State(Pack(b[0], b[1], b[2], b[3]), Pack(b[4], b[5], b[6], b[7]), Pack(b[8], b[9], b[10], b[11]), Pack(b[12], b[13], b[14], b[15]))
  }

  /** PUT_UINT32_LE four times. */
  function Store(s: State): (b: seq<bv8>)
    ensures |b| == 16
  {
    Put(s.c0) + Put(s.c1) + Put(s.c2) + Put(s.c3)
  }

  function Put(w: bv32): (b: seq<bv8>)
    ensures |b| == 4
  {
    [B0(w), B1(w), B2(w), B3(w)]
  }

  lemma PutPack(b: seq<bv8>, i: nat)
    requires i + 4 <= |b|
    ensures Put(Pack(b[i], b[i + 1], b[i + 2], b[i + 3])) == b[i..i + 4]
  {
    hide Pack, B0, B1, B2, B3;
    BytesOfPack(b[i], b[i + 1], b[i + 2], b[i + 3]);
  }

  lemma LoadStore(s: State)
    ensures Load(Store(s)) == s
  {
    hide Pack, B0, B1, B2, B3;
    PackOfBytes(s.c0);
    PackOfBytes(s.c1);
    PackOfBytes(s.c2);
    PackOfBytes(s.c3);
  }

  lemma StoreLoad(b: seq<bv8>)
    requires |b| == 16
    ensures Store(Load(b)) == b
  {
    hide Pack, Put;
    PutPack(b, 0);
    PutPack(b, 4);
    PutPack(b, 8);
    PutPack(b, 12);
    assert b == b[0..4] + b[4..8] + b[8..12] + b[12..16];
  }

  /** mbedtls_internal_aes_encrypt. */
  method EncryptBlock(t: Tables, nr: nat, rk: seq<bv32>, input: seq<bv8>) returns (output: seq<bv8>)
    requires Good(t) && |input| == 16 && 2 <= nr && nr % 2 == 0 && 4 * nr + 4 <= |rk|
    ensures output == Store(Cipher(rk, nr, Load(input)))
  {
    hide Good, Load, Store, AddKey, MixColumns, ShiftRows, SubBytes;
    var x := AddKey(Load(input), KeyAt(rk, 0));
    var i, at: nat := nr / 2 - 1, 4;
    while i > 0
      invariant 0 <= i && at == 4 * (nr - 1 - 2 * i) && x == Rounds(rk, nr - 2 - 2 * i, Load(input))
    {
      var y := ForwardRound(t, rk, at, x);
      x := ForwardRound(t, rk, at + 4, y);
      at := at + 8;
      i := i - 1;
    }
    var y := ForwardRound(t, rk, at, x);
    x := LastForward(t, rk, at + 4, y);
    output := Store(x);
  }

  /** mbedtls_internal_aes_decrypt. */
  method DecryptBlock(t: Tables, nr: nat, rk: seq<bv32>, input: seq<bv8>) returns (output: seq<bv8>)
    requires Good(t) && |input| == 16 && 2 <= nr && nr % 2 == 0 && 4 * nr + 4 <= |rk|
    ensures output == Store(EqInvCipher(rk, nr, Load(input)))
  {
    hide Good, Load, Store, AddKey, InvMixColumns, InvShiftRows, InvSubBytes;
    var x := AddKey(Load(input), KeyAt(rk, 0));
    var i, at: nat := nr / 2 - 1, 4;
    while i > 0
      invariant 0 <= i && at == 4 * (nr - 1 - 2 * i) && x == EqRounds(rk, nr - 2 - 2 * i, Load(input))
    {
      var y := ReverseRound(t, rk, at, x);
      x := ReverseRound(t, rk, at + 4, y);
      at := at + 8;
      i := i - 1;
    }
    var y := ReverseRound(t, rk, at, x);
    x := LastReverse(t, rk, at + 4, y);
    output := Store(x);
  }

  // ---------------------------------------------------------------- key expansion

  function RotWord(w: bv32): bv32 {
    Pack(B1(w), B2(w), B3(w), B0(w))
  }

  /** Word i of the expanded key (section 5.2 of FIPS 197, figure 11). */
  function Schedule(key: seq<bv32>, i: nat): bv32
    requires 0 < |key|
    decreases i
  {
    var nk := |key|;
    if i < nk then key[i]
    else
      var temp := Schedule(key, i - 1);
      Xor(Schedule(key, i - nk),
          if i % nk == 0 then Xor(SubWord(RotWord(temp)), Rcon(i / nk - 1) as bv32)
          else if nk > 6 && i % nk == 4 then SubWord(temp)
          else temp)
  }

  /** The first n words are expanded. */
  ghost predicate Expanded(rk: seq<bv32>, key: seq<bv32>, n: nat) {
    0 < |key| && n <= |rk| == 68 && forall i: nat :: i < n ==> rk[i] == Schedule(key, i)
  }

  lemma ExpandedNext(rk: seq<bv32>, key: seq<bv32>, n: nat, w: bv32)
    requires Expanded(rk, key, n) && n < 68 && w == Schedule(key, n)
    ensures Expanded(rk[n := w], key, n + 1)
  {
    hide Schedule;
  }

  /** rk[n] = rk[n - nk] ^ rk[n - 1] */
  method PlainWord(rk0: seq<bv32>, ghost key: seq<bv32>, nk: nat, n: nat) returns (rk: seq<bv32>)
    requires |key| == nk && Expanded(rk0, key, n) && 0 < nk <= n < 68
    requires n % nk != 0 && (nk > 6 ==> n % nk != 4)
    ensures Expanded(rk, key, n + 1)
  {
    hide Xor, SubWord, RotWord, Rcon;
    rk := rk0[n := Xor(rk0[n - nk], rk0[n - 1])];
    ExpandedNext(rk0, key, n, rk[n]);
  }

  /** The S-box applied to four bytes of a word in the given order. */
  lemma SubByTable(t: Tables, a: bv8, b: bv8, c: bv8, d: bv8)
    requires Good(t) && |t.fsb| == 256
    ensures a as int < 256 && b as int < 256 && c as int < 256 && d as int < 256
    ensures Pack(t.fsb[a as int], t.fsb[b as int], t.fsb[c as int], t.fsb[d as int]) == Pack(SBox(a), SBox(b), SBox(c), SBox(d))
  {
    hide Good, SBox, InvSBox, Pack;
    SBoxLookup(t, a);
    SBoxLookup(t, b);
    SBoxLookup(t, c);
    SBoxLookup(t, d);
  }

  lemma SubRot(w: bv32)
    ensures SubWord(RotWord(w)) == Pack(SBox(B1(w)), SBox(B2(w)), SBox(B3(w)), SBox(B0(w)))
  {
    hide Pack, B0, B1, B2, B3, SBox;
    BytesOfPack(B1(w), B2(w), B3(w), B0(w));
  }

  /** The first word of a group: with the rotation and round constant i. */
  method CoreWord(t: Tables, rk0: seq<bv32>, ghost key: seq<bv32>, nk: nat, i: nat) returns (rk: seq<bv32>)
    requires Good(t) && |key| == nk && 0 < nk && i < 10 && nk * i + nk < 68 && Expanded(rk0, key, nk * i + nk)
    ensures Expanded(rk, key, nk * i + nk + 1)
  {
    hide Good, Xor, SubWord, RotWord, Rcon, Schedule, SBox, Pack, B0, B1, B2, B3;
    Lengths(t);
    var n := nk * i + nk;
    var w := rk0[n - 1];
    SubByTable(t, B1(w), B2(w), B3(w), B0(w));
    rk := rk0[n := Xor(Xor(rk0[n - nk], t.rcon[i]),
      Pack(t.fsb[B1(w) as int], t.fsb[B2(w) as int], t.fsb[B3(w) as int], t.fsb[B0(w) as int]))];
    SubRot(w);
    CoreWordIs(t, key, nk, i);
    XorAssoc(rk0[n - nk], t.rcon[i], SubWord(RotWord(w)));
    XorCancel(t.rcon[i], SubWord(RotWord(w)));
    ExpandedNext(rk0, key, n, rk[n]);
  }

  lemma CoreWordIs(t: Tables, key: seq<bv32>, nk: nat, i: nat)
    requires Good(t) && |key| == nk && 0 < nk && i < 10
    ensures var n := nk * i + nk;
            |t.rcon| == 10 && Schedule(key, n) == Xor(Schedule(key, n - nk), Xor(SubWord(RotWord(Schedule(key, n - 1))), t.rcon[i]))
  {
    hide Xor, SubWord, RotWord, Rcon, GoodSBoxes, GoodForward, GoodReverse;
    var n := nk * i + nk;
    GroupOf(nk, i);
  }

  lemma GroupOf(nk: nat, i: nat)
    requires 0 < nk
    ensures (nk * i + nk) % nk == 0 && (nk * i + nk) / nk - 1 == i
  {
    Arith.DivModUnique(nk * i + nk, nk, i + 1, 0);
  }

  /** The extra substitution of 256-bit keys. */
  method SubstWord(t: Tables, rk0: seq<bv32>, ghost key: seq<bv32>, n: nat) returns (rk: seq<bv32>)
    requires Good(t) && |key| == 8 && 8 <= n < 68 && n % 8 == 4 && Expanded(rk0, key, n)
    ensures Expanded(rk, key, n + 1)
  {
    hide Good, Xor, RotWord, Rcon, SBox, Pack, B0, B1, B2, B3;
    Lengths(t);
    var w := rk0[n - 1];
    SubByTable(t, B0(w), B1(w), B2(w), B3(w));
    rk := rk0[n := Xor(rk0[n - 8], Pack(t.fsb[B0(w) as int], t.fsb[B1(w) as int], t.fsb[B2(w) as int], t.fsb[B3(w) as int]))];
    ExpandedNext(rk0, key, n, rk[n]);
  }

  method Expand128(t: Tables, rk0: seq<bv32>, ghost key: seq<bv32>) returns (rk: seq<bv32>)
    requires Good(t) && |key| == 4 && Expanded(rk0, key, 4)
    ensures Expanded(rk, key, 44)
  {
    hide Good, Expanded;
    rk := rk0;
    for i := 0 to 10
      invariant Expanded(rk, key, 4 * i + 4)
    {
      rk := CoreWord(t, rk, key, 4, i);
      rk := PlainWord(rk, key, 4, 4 * i + 5);
      rk := PlainWord(rk, key, 4, 4 * i + 6);
      rk := PlainWord(rk, key, 4, 4 * i + 7);
    }
  }

  /** Two words more than the cipher uses are written. */
  method Expand192(t: Tables, rk0: seq<bv32>, ghost key: seq<bv32>) returns (rk: seq<bv32>)
    requires Good(t) && |key| == 6 && Expanded(rk0, key, 6)
    ensures Expanded(rk, key, 54)
  {
    hide Good, Expanded;
    rk := rk0;
    for i := 0 to 8
      invariant Expanded(rk, key, 6 * i + 6)
    {
      rk := CoreWord(t, rk, key, 6, i);
      rk := PlainWord(rk, key, 6, 6 * i + 7);
      rk := PlainWord(rk, key, 6, 6 * i + 8);
      rk := PlainWord(rk, key, 6, 6 * i + 9);
      rk := PlainWord(rk, key, 6, 6 * i + 10);
      rk := PlainWord(rk, key, 6, 6 * i + 11);
    }
  }

  /** Four words more than the cipher uses are written. */
  method Expand256(t: Tables, rk0: seq<bv32>, ghost key: seq<bv32>) returns (rk: seq<bv32>)
    requires Good(t) && |key| == 8 && Expanded(rk0, key, 8)
    ensures Expanded(rk, key, 64)
  {
    hide Good, Expanded;
    rk := rk0;
    for i := 0 to 7
      invariant Expanded(rk, key, 8 * i + 8)
    {
      rk := CoreWord(t, rk, key, 8, i);
      rk := PlainWord(rk, key, 8, 8 * i + 9);
      rk := PlainWord(rk, key, 8, 8 * i + 10);
      rk := PlainWord(rk, key, 8, 8 * i + 11);
      rk := SubstWord(t, rk, key, 8 * i + 12);
      rk := PlainWord(rk, key, 8, 8 * i + 13);
      rk := PlainWord(rk, key, 8, 8 * i + 14);
      rk := PlainWord(rk, key, 8, 8 * i + 15);
    }
  }

  /** The key bytes as little-endian words. */
  function KeyWords(key: seq<bv8>, n: nat): (w: seq<bv32>)
    requires 4 * n <= |key|
    ensures |w| == n
  {
    seq(n, i requires 0 <= i < n => Pack(key[4 * i], key[4 * i + 1], key[4 * i + 2], key[4 * i + 3]))
  }

  predicate KeySize(keybits: int) {
    keybits == 128 || keybits == 192 || keybits == 256
  }

  /** The number of rounds for a key size. */
  function RoundsFor(keybits: int): nat {
    if keybits == 128 then 10 else if keybits == 192 then 12 else 14
  }

  /** The round keys of a key: the words of its expansion the cipher uses. */
  function RoundKeys(key: seq<bv8>, keybits: int): (rk: seq<bv32>)
    requires KeySize(keybits) && keybits / 8 <= |key|
    ensures |rk| == 4 * RoundsFor(keybits) + 4
  {
    var words := KeyWords(key, keybits / 32);
    seq(4 * RoundsFor(keybits) + 4, i requires 0 <= i => Schedule(words, i))
  }

  method LoadKey(key: seq<bv8>, nk: nat) returns (rk: seq<bv32>)
    requires 0 < nk <= 8 && 4 * nk <= |key|
    ensures Expanded(rk, KeyWords(key, nk), nk)
  {
    hide Pack;
    rk := seq(68, i => 0);
    for i := 0 to nk
      invariant |rk| == 68
      invariant forall j :: 0 <= j < i ==> rk[j] == KeyWords(key, nk)[j]
    {
      rk := rk[i := Pack(key[4 * i], key[4 * i + 1], key[4 * i + 2], key[4 * i + 3])];
    }
  }

  lemma ExpandedIs(rk: seq<bv32>, key: seq<bv8>, keybits: int, n: nat)
    requires KeySize(keybits) && keybits / 8 <= |key| && 4 * RoundsFor(keybits) + 4 <= n
    requires Expanded(rk, KeyWords(key, keybits / 32), n)
    ensures rk[..4 * RoundsFor(keybits) + 4] == RoundKeys(key, keybits)
  {
    hide Schedule, KeyWords;
  }

  /** The round keys, by the loop for the key size; rk ends with what the cipher reads. */
  method ExpandKey(t: Tables, key: seq<bv8>, keybits: int) returns (nr: nat, rk: seq<bv32>)
    requires Good(t) && KeySize(keybits) && keybits / 8 <= |key|
    ensures nr == RoundsFor(keybits) && rk == RoundKeys(key, keybits)
  {
    hide Good, KeyWords, RoundKeys, Schedule;
    nr := RoundsFor(keybits);
    rk := LoadKey(key, keybits / 32);
    ghost var words := KeyWords(key, keybits / 32);
    if nr == 10 {
      rk := Expand128(t, rk, words);
      ExpandedIs(rk, key, keybits, 44);
    } else if nr == 12 {
      rk := Expand192(t, rk, words);
      ExpandedIs(rk, key, keybits, 54);
    } else {
      rk := Expand256(t, rk, words);
      ExpandedIs(rk, key, keybits, 64);
    }
    rk := rk[..4 * nr + 4];
  }

  /** The round constants by value. */
  lemma RconIs(i: nat)
    requires i < 10
    ensures Rcon(i) as bv32 == [0x01, 0x02, 0x04, 0x08, 0x10, 0x20, 0x40, 0x80, 0x1B, 0x36][i]
  {
    hide Rcon;
    RconSteps();
    if i == 0 {} else if i == 1 {} else if i == 2 {} else if i == 3 {} else if i == 4 {}
    else if i == 5 {} else if i == 6 {} else if i == 7 {} else if i == 8 {} else {}
  }

  lemma RconSteps()
    ensures Rcon(0) == 0x01 && Rcon(1) == 0x02 && Rcon(2) == 0x04 && Rcon(3) == 0x08 && Rcon(4) == 0x10
    ensures Rcon(5) == 0x20 && Rcon(6) == 0x40 && Rcon(7) == 0x80 && Rcon(8) == 0x1B && Rcon(9) == 0x36
  {
    assert Rcon(0) == 0x01;
    assert Rcon(1) == 0x02;
    assert Rcon(2) == 0x04;
    assert Rcon(3) == 0x08;
    assert Rcon(4) == 0x10;
    assert Rcon(5) == 0x20;
    assert Rcon(6) == 0x40;
    assert Rcon(7) == 0x80;
    assert Rcon(8) == 0x1B;
  }

  /** The four kinds of words of an expanded key, in the S-box and the bytes of the word before. */
  lemma CoreLaw(words: seq<bv32>, i: nat)
    requires 4 <= |words| <= i && i % |words| == 0 && 0 <= i / |words| - 1 < 10
    ensures Schedule(words, i) == Xor(Schedule(words, i - |words|),
      Xor(Pack(SBox(B1(Schedule(words, i - 1))), SBox(B2(Schedule(words, i - 1))), SBox(B3(Schedule(words, i - 1))), SBox(B0(Schedule(words, i - 1)))),
          [0x01, 0x02, 0x04, 0x08, 0x10, 0x20, 0x40, 0x80, 0x1B, 0x36][i / |words| - 1]))
  {
    hide Pack, Xor, SBox, B0, B1, B2, B3, Rcon, SubWord, RotWord;
    SubRot(Schedule(words, i - 1));
    RconIs(i / |words| - 1);
  }

  lemma SubstLaw(words: seq<bv32>, i: nat)
    requires |words| == 8 <= i && i % 8 == 4
    ensures Schedule(words, i) == Xor(Schedule(words, i - 8),
      Pack(SBox(B0(Schedule(words, i - 1))), SBox(B1(Schedule(words, i - 1))), SBox(B2(Schedule(words, i - 1))), SBox(B3(Schedule(words, i - 1)))))
  {
    hide Pack, Xor, SBox, B0, B1, B2, B3, Rcon;
  }

  lemma PlainLaw(words: seq<bv32>, i: nat)
    requires 4 <= |words| <= i && i % |words| != 0 && (|words| > 6 ==> i % |words| != 4)
    ensures Schedule(words, i) == Xor(Schedule(words, i - |words|), Schedule(words, i - 1))
  {
    hide Pack, Xor, SBox, B0, B1, B2, B3, Rcon;
  }

  lemma FirstWords(key: seq<bv8>, nk: nat, i: nat)
    requires 4 * nk <= |key| && i < nk
    ensures Schedule(KeyWords(key, nk), i) == Pack(key[4 * i], key[4 * i + 1], key[4 * i + 2], key[4 * i + 3])
  {
    hide Pack;
  }

  lemma RoundKeysAre(key: seq<bv8>, keybits: int)
    requires KeySize(keybits) && keybits / 8 <= |key|
    ensures forall i: nat :: i < 4 * RoundsFor(keybits) + 4 ==> RoundKeys(key, keybits)[i] == Schedule(KeyWords(key, keybits / 32), i)
  {
    hide Schedule, KeyWords;
  }

  lemma Law128(key: seq<bv8>, rk: seq<bv32>)
    requires 16 <= |key| && rk == RoundKeys(key, 128)
    ensures |rk| == 44
    ensures forall i: nat :: i < 4 ==> rk[i] == Pack(key[4 * i], key[4 * i + 1], key[4 * i + 2], key[4 * i + 3])
    ensures forall i: nat :: 4 <= i < 44 && i % 4 == 0 ==>
      rk[i] == Xor(rk[i - 4], Xor(Pack(SBox(B1(rk[i - 1])), SBox(B2(rk[i - 1])), SBox(B3(rk[i - 1])), SBox(B0(rk[i - 1]))), [0x01, 0x02, 0x04, 0x08, 0x10, 0x20, 0x40, 0x80, 0x1B, 0x36][i / 4 - 1]))
    ensures forall i: nat :: 4 <= i < 44 && i % 4 != 0 ==> rk[i] == Xor(rk[i - 4], rk[i - 1])
  {
    hide Pack, Xor, SBox, B0, B1, B2, B3, Schedule, KeyWords, RoundKeys;
    var words := KeyWords(key, 4);
    RoundKeysAre(key, 128);
    forall i: nat | i < 4
      ensures rk[i] == Pack(key[4 * i], key[4 * i + 1], key[4 * i + 2], key[4 * i + 3])
    {
      FirstWords(key, 4, i);
    }
    forall i: nat | 4 <= i < 44 && i % 4 == 0
      ensures rk[i] == Xor(rk[i - 4], Xor(Pack(SBox(B1(rk[i - 1])), SBox(B2(rk[i - 1])), SBox(B3(rk[i - 1])), SBox(B0(rk[i - 1]))), [0x01, 0x02, 0x04, 0x08, 0x10, 0x20, 0x40, 0x80, 0x1B, 0x36][i / 4 - 1]))
    {
      CoreLaw(words, i);
    }
    forall i: nat | 4 <= i < 44 && i % 4 != 0
      ensures rk[i] == Xor(rk[i - 4], rk[i - 1])
    {
      PlainLaw(words, i);
    }
  }

  lemma Law192(key: seq<bv8>, rk: seq<bv32>)
    requires 24 <= |key| && rk == RoundKeys(key, 192)
    ensures |rk| == 52
    ensures forall i: nat :: i < 6 ==> rk[i] == Pack(key[4 * i], key[4 * i + 1], key[4 * i + 2], key[4 * i + 3])
    ensures forall i: nat :: 6 <= i < 52 && i % 6 == 0 ==>
      rk[i] == Xor(rk[i - 6], Xor(Pack(SBox(B1(rk[i - 1])), SBox(B2(rk[i - 1])), SBox(B3(rk[i - 1])), SBox(B0(rk[i - 1]))), [0x01, 0x02, 0x04, 0x08, 0x10, 0x20, 0x40, 0x80, 0x1B, 0x36][i / 6 - 1]))
    ensures forall i: nat :: 6 <= i < 52 && i % 6 != 0 ==> rk[i] == Xor(rk[i - 6], rk[i - 1])
  {
    hide Pack, Xor, SBox, B0, B1, B2, B3, Schedule, KeyWords, RoundKeys;
    var words := KeyWords(key, 6);
    RoundKeysAre(key, 192);
    forall i: nat | i < 6
      ensures rk[i] == Pack(key[4 * i], key[4 * i + 1], key[4 * i + 2], key[4 * i + 3])
    {
      FirstWords(key, 6, i);
    }
    forall i: nat | 6 <= i < 52 && i % 6 == 0
      ensures rk[i] == Xor(rk[i - 6], Xor(Pack(SBox(B1(rk[i - 1])), SBox(B2(rk[i - 1])), SBox(B3(rk[i - 1])), SBox(B0(rk[i - 1]))), [0x01, 0x02, 0x04, 0x08, 0x10, 0x20, 0x40, 0x80, 0x1B, 0x36][i / 6 - 1]))
    {
      CoreLaw(words, i);
    }
    forall i: nat | 6 <= i < 52 && i % 6 != 0
      ensures rk[i] == Xor(rk[i - 6], rk[i - 1])
    {
      PlainLaw(words, i);
    }
  }

  lemma Law256(key: seq<bv8>, rk: seq<bv32>)
    requires 32 <= |key| && rk == RoundKeys(key, 256)
    ensures |rk| == 60
    ensures forall i: nat :: i < 8 ==> rk[i] == Pack(key[4 * i], key[4 * i + 1], key[4 * i + 2], key[4 * i + 3])
    ensures forall i: nat :: 8 <= i < 60 && i % 8 == 0 ==>
      rk[i] == Xor(rk[i - 8], Xor(Pack(SBox(B1(rk[i - 1])), SBox(B2(rk[i - 1])), SBox(B3(rk[i - 1])), SBox(B0(rk[i - 1]))), [0x01, 0x02, 0x04, 0x08, 0x10, 0x20, 0x40, 0x80, 0x1B, 0x36][i / 8 - 1]))
    ensures forall i: nat :: 8 <= i < 60 && i % 8 == 4 ==>
      rk[i] == Xor(rk[i - 8], Pack(SBox(B0(rk[i - 1])), SBox(B1(rk[i - 1])), SBox(B2(rk[i - 1])), SBox(B3(rk[i - 1]))))
    ensures forall i: nat :: 8 <= i < 60 && i % 8 != 0 && i % 8 != 4 ==> rk[i] == Xor(rk[i - 8], rk[i - 1])
  {
    hide Pack, Xor, SBox, B0, B1, B2, B3, Schedule, KeyWords, RoundKeys;
    var words := KeyWords(key, 8);
    RoundKeysAre(key, 256);
    forall i: nat | i < 8
      ensures rk[i] == Pack(key[4 * i], key[4 * i + 1], key[4 * i + 2], key[4 * i + 3])
    {
      FirstWords(key, 8, i);
    }
    forall i: nat | 8 <= i < 60 && i % 8 == 0
      ensures rk[i] == Xor(rk[i - 8], Xor(Pack(SBox(B1(rk[i - 1])), SBox(B2(rk[i - 1])), SBox(B3(rk[i - 1])), SBox(B0(rk[i - 1]))), [0x01, 0x02, 0x04, 0x08, 0x10, 0x20, 0x40, 0x80, 0x1B, 0x36][i / 8 - 1]))
    {
      CoreLaw(words, i);
    }
    forall i: nat | 8 <= i < 60 && i % 8 == 4
      ensures rk[i] == Xor(rk[i - 8], Pack(SBox(B0(rk[i - 1])), SBox(B1(rk[i - 1])), SBox(B2(rk[i - 1])), SBox(B3(rk[i - 1]))))
    {
      SubstLaw(words, i);
    }
    forall i: nat | 8 <= i < 60 && i % 8 != 0 && i % 8 != 4
      ensures rk[i] == Xor(rk[i - 8], rk[i - 1])
    {
      PlainLaw(words, i);
    }
  }

  // ---------------------------------------------------------------- the decryption schedule

  method InverseWord(t: Tables, w: bv32) returns (x: bv32)
    requires Good(t)
    ensures x == InvMixColumn(w)
  {
    hide Good, SBox, InvSBox, B0, B1, B2, B3, Xor, Sum32, Rotl8, ReverseEntry, Pack, InvMixBytes;
    Lengths(t);
    SBoxLookup(t, B0(w));
    SBoxLookup(t, B1(w));
    SBoxLookup(t, B2(w));
    SBoxLookup(t, B3(w));
    var a, b, c, d := t.fsb[B0(w) as int], t.fsb[B1(w) as int], t.fsb[B2(w) as int], t.fsb[B3(w) as int];
    ReverseLookup(t, a);
    ReverseLookup(t, b);
    ReverseLookup(t, c);
    ReverseLookup(t, d);
    SBoxInverse(B0(w));
    SBoxInverse(B1(w));
    SBoxInverse(B2(w));
    SBoxInverse(B3(w));
    x := Sum32(t.rt0[a as int], t.rt1[b as int], t.rt2[c as int], t.rt3[d as int]);
    ReverseTable(B0(w), B1(w), B2(w), B3(w));
  }

  /** The first n round keys of the decryption schedule. */
  ghost predicate DecPrefix(dk: seq<bv32>, rk: seq<bv32>, nr: nat, n: nat)
    requires 4 * nr + 4 <= |rk|
  {
    && 0 < n <= nr && |dk| == 4 * n
    && KeyAt(dk, 0) == KeyAt(rk, 4 * nr)
    && forall r: nat :: 0 < r < n ==> KeyAt(dk, 4 * r) == InvMixColumns(KeyAt(rk, 4 * (nr - r)))
  }

  lemma DecPrefixNext(dk: seq<bv32>, rk: seq<bv32>, nr: nat, n: nat, k: State)
    requires 4 * nr + 4 <= |rk| && DecPrefix(dk, rk, nr, n) && n < nr
    requires k == InvMixColumns(KeyAt(rk, 4 * (nr - n)))
    ensures DecPrefix(dk + [k.c0, k.c1, k.c2, k.c3], rk, nr, n + 1)
  {
    hide InvMixColumns;
    var dk' := dk + [k.c0, k.c1, k.c2, k.c3];
    forall r: nat | 0 < r < n + 1
      ensures KeyAt(dk', 4 * r) == InvMixColumns(KeyAt(rk, 4 * (nr - r)))
    {
      if r < n { assert KeyAt(dk', 4 * r) == KeyAt(dk, 4 * r); }
    }
    assert KeyAt(dk', 0) == KeyAt(dk, 0);
  }

  lemma DecPrefixEnd(dk: seq<bv32>, rk: seq<bv32>, nr: nat, k: State)
    requires 4 * nr + 4 <= |rk| && DecPrefix(dk, rk, nr, nr) && k == KeyAt(rk, 0)
    ensures IsDecSchedule(dk + [k.c0, k.c1, k.c2, k.c3], rk, nr)
  {
    hide InvMixColumns;
    var dk' := dk + [k.c0, k.c1, k.c2, k.c3];
    forall r: nat | 0 < r < nr
      ensures KeyAt(dk', 4 * r) == InvMixColumns(KeyAt(rk, 4 * (nr - r)))
    {
      assert KeyAt(dk', 4 * r) == KeyAt(dk, 4 * r);
    }
    assert KeyAt(dk', 0) == KeyAt(dk, 0);
  }

  method InvertKeys(t: Tables, nr: nat, rk: seq<bv32>) returns (dk: seq<bv32>)
    requires Good(t) && 0 < nr && |rk| == 4 * nr + 4
    ensures |dk| == 4 * nr + 4 && IsDecSchedule(dk, rk, nr)
  {
    hide Good, InvMixColumn, DecPrefix, IsDecSchedule;
    var sk: nat := 4 * nr;
    dk := [rk[sk], rk[sk + 1], rk[sk + 2], rk[sk + 3]];
    DecPrefixStart(dk, rk, nr);
    var i := nr - 1;
    while i > 0
      invariant 0 <= i < nr && sk == 4 * (i + 1) && |dk| == 4 * (nr - i)
      invariant DecPrefix(dk, rk, nr, nr - i)
    {
      sk := sk - 4;
      var a := InverseWord(t, rk[sk]);
      var b := InverseWord(t, rk[sk + 1]);
      var c := InverseWord(t, rk[sk + 2]);
      var d := InverseWord(t, rk[sk + 3]);
      DecPrefixNext(dk, rk, nr, nr - i, State(a, b, c, d));
      dk := dk + [a, b, c, d];
      i := i - 1;
    }
    sk := sk - 4;
    DecPrefixEnd(dk, rk, nr, KeyAt(rk, 0));
    dk := dk + [rk[sk], rk[sk + 1], rk[sk + 2], rk[sk + 3]];
  }

  lemma DecPrefixStart(dk: seq<bv32>, rk: seq<bv32>, nr: nat)
    requires 0 < nr && |rk| == 4 * nr + 4 && dk == [rk[4 * nr], rk[4 * nr + 1], rk[4 * nr + 2], rk[4 * nr + 3]]
    ensures DecPrefix(dk, rk, nr, 1)
  {
  }

  // ---------------------------------------------------------------- contexts

  datatype Mode = Encrypt | Decrypt

  /** mbedtls_aes_context: the number of rounds and the round keys. */
  class Context {
    var nr: nat
    var rk: seq<bv32>

    ghost predicate Ready()
      reads this
    {
      2 <= nr && nr % 2 == 0 && |rk| == 4 * nr + 4
    }

    /** mbedtls_aes_init. */
    constructor ()
      ensures nr == 0 && rk == []
    {
      nr := 0;
      rk := [];
    }

    /** mbedtls_aes_setkey_enc: the key expansion of FIPS 197. */
    method SetkeyEnc(t: Tables, key: seq<bv8>, keybits: int) returns (ret: int)
      requires Good(t) && (KeySize(keybits) ==> keybits / 8 <= |key|)
      modifies this
      ensures !KeySize(keybits) ==> ret == ERR_INVALID_KEY_LENGTH && nr == old(nr) && rk == old(rk)
      ensures KeySize(keybits) ==> ret == 0 && Ready() && nr == RoundsFor(keybits) && rk == RoundKeys(key, keybits)
      ensures keybits == 128 ==> nr == 10 && |rk| == 44
      ensures keybits == 128 ==> forall i: nat :: i < 4 ==> rk[i] == Pack(key[4 * i], key[4 * i + 1], key[4 * i + 2], key[4 * i + 3])
      ensures keybits == 128 ==> forall i: nat :: 4 <= i < 44 && i % 4 == 0 ==>
          rk[i] == Xor(rk[i - 4], Xor(Pack(SBox(B1(rk[i - 1])), SBox(B2(rk[i - 1])), SBox(B3(rk[i - 1])), SBox(B0(rk[i - 1]))), [0x01, 0x02, 0x04, 0x08, 0x10, 0x20, 0x40, 0x80, 0x1B, 0x36][i / 4 - 1]))
      ensures keybits == 128 ==> forall i: nat :: 4 <= i < 44 && i % 4 != 0 ==> rk[i] == Xor(rk[i - 4], rk[i - 1])
      ensures keybits == 192 ==> nr == 12 && |rk| == 52
      ensures keybits == 192 ==> forall i: nat :: i < 6 ==> rk[i] == Pack(key[4 * i], key[4 * i + 1], key[4 * i + 2], key[4 * i + 3])
      ensures keybits == 192 ==> forall i: nat :: 6 <= i < 52 && i % 6 == 0 ==>
          rk[i] == Xor(rk[i - 6], Xor(Pack(SBox(B1(rk[i - 1])), SBox(B2(rk[i - 1])), SBox(B3(rk[i - 1])), SBox(B0(rk[i - 1]))), [0x01, 0x02, 0x04, 0x08, 0x10, 0x20, 0x40, 0x80, 0x1B, 0x36][i / 6 - 1]))
      ensures keybits == 192 ==> forall i: nat :: 6 <= i < 52 && i % 6 != 0 ==> rk[i] == Xor(rk[i - 6], rk[i - 1])
      ensures keybits == 256 ==> nr == 14 && |rk| == 60
      ensures keybits == 256 ==> forall i: nat :: i < 8 ==> rk[i] == Pack(key[4 * i], key[4 * i + 1], key[4 * i + 2], key[4 * i + 3])
      ensures keybits == 256 ==> forall i: nat :: 8 <= i < 60 && i % 8 == 0 ==>
          rk[i] == Xor(rk[i - 8], Xor(Pack(SBox(B1(rk[i - 1])), SBox(B2(rk[i - 1])), SBox(B3(rk[i - 1])), SBox(B0(rk[i - 1]))), [0x01, 0x02, 0x04, 0x08, 0x10, 0x20, 0x40, 0x80, 0x1B, 0x36][i / 8 - 1]))
      ensures keybits == 256 ==> forall i: nat :: 8 <= i < 60 && i % 8 == 4 ==>
          rk[i] == Xor(rk[i - 8], Pack(SBox(B0(rk[i - 1])), SBox(B1(rk[i - 1])), SBox(B2(rk[i - 1])), SBox(B3(rk[i - 1]))))
      ensures keybits == 256 ==> forall i: nat :: 8 <= i < 60 && i % 8 != 0 && i % 8 != 4 ==> rk[i] == Xor(rk[i - 8], rk[i - 1])
    {
      hide Good, RoundKeys, Pack, Xor, SBox, B0, B1, B2, B3;
      if !KeySize(keybits) { return ERR_INVALID_KEY_LENGTH; }
      nr, rk := ExpandKey(t, key, keybits);
      ret := 0;
      if keybits == 128 {
        Law128(key, rk);
      } else if keybits == 192 {
        Law192(key, rk);
      } else {
        Law256(key, rk);
      }
    }

    /** mbedtls_aes_setkey_dec: the schedule of the equivalent inverse cipher for the same key. */
    method SetkeyDec(t: Tables, key: seq<bv8>, keybits: int) returns (ret: int)
      requires Good(t) && (KeySize(keybits) ==> keybits / 8 <= |key|)
      modifies this
      ensures !KeySize(keybits) ==> ret == ERR_INVALID_KEY_LENGTH && nr == old(nr) && rk == old(rk)
      ensures KeySize(keybits) ==> ret == 0 && Ready() && nr == RoundsFor(keybits) && IsDecSchedule(rk, RoundKeys(key, keybits), nr)
    {
      hide Good, RoundKeys, IsDecSchedule;
      var cty := new Context();
      ret := cty.SetkeyEnc(t, key, keybits);
      if ret != 0 { return; }
      nr := cty.nr;
      rk := InvertKeys(t, nr, cty.rk);
    }

    /** mbedtls_aes_crypt_ecb. */
    method CryptEcb(t: Tables, mode: Mode, input: seq<bv8>) returns (output: seq<bv8>)
      requires Good(t) && Ready() && |input| == 16
      ensures mode == Encrypt ==> output == Store(Cipher(rk, nr, Load(input)))
      ensures mode == Decrypt ==> output == Store(EqInvCipher(rk, nr, Load(input)))
    {
      hide Good, Load, Store, Cipher, EqInvCipher;
      if mode == Encrypt {
        output := EncryptBlock(t, nr, rk, input);
      } else {
        output := DecryptBlock(t, nr, rk, input);
      }
    }
  }

  /** Decryption with the schedule of setkey_dec undoes encryption with the schedule of setkey_enc. */
  lemma DecryptUndoesEncrypt(key: seq<bv8>, keybits: int, dk: seq<bv32>, block: seq<bv8>)
    requires KeySize(keybits) && keybits / 8 <= |key| && |block| == 16 && |dk| == 4 * RoundsFor(keybits) + 4
    requires IsDecSchedule(dk, RoundKeys(key, keybits), RoundsFor(keybits))
    ensures var nr := RoundsFor(keybits);
            Store(EqInvCipher(dk, nr, Load(Store(Cipher(RoundKeys(key, keybits), nr, Load(block)))))) == block
  {
    hide Load, Store, Cipher, EqInvCipher, RoundKeys, IsDecSchedule, InvCipher;
    var nr := RoundsFor(keybits);
    var rk := RoundKeys(key, keybits);
    var c := Cipher(rk, nr, Load(block));
    LoadStore(c);
    EquivalentInverse(dk, rk, nr, c);
    CipherInverse(rk, nr, Load(block));
    StoreLoad(block);
  }

  // ---------------------------------------------------------------- AES as a block cipher

  function ToBits(s: seq<Bytes.Byte>): (b: seq<bv8>)
    ensures |b| == |s|
  {
    seq(|s|, i requires 0 <= i < |s| => s[i] as bv8)
  }

  function FromBits(b: seq<bv8>): (s: seq<Bytes.Byte>)
    ensures |s| == |b|
  {
    seq(|b|, i requires 0 <= i < |b| => IndexOf(b[i]); b[i] as int)
  }

  lemma BitsOfBytes(s: seq<Bytes.Byte>)
    ensures FromBits(ToBits(s)) == s
  {
    forall i | 0 <= i < |s| ensures (s[i] as bv8) as int == s[i] { ByteOf(s[i]); }
  }

  lemma BytesOfBits(b: seq<bv8>)
    ensures ToBits(FromBits(b)) == b
  {
    forall i | 0 <= i < |b| ensures 0 <= b[i] as int < 256 && (b[i] as int) as bv8 == b[i] { IndexOf(b[i]); }
  }

  /** AES with one key, as the modes of operation use it. */
  function AesWith(key: seq<bv8>, keybits: int): Bytes.BlockCipher
    requires KeySize(keybits) && keybits / 8 <= |key|
  {
    var nr, rk := RoundsFor(keybits), RoundKeys(key, keybits);
    Bytes.BlockCipher(16,
      (x: seq<Bytes.Byte>) => if |x| == 16 then FromBits(Store(Cipher(rk, nr, Load(ToBits(x))))) else x,
      (x: seq<Bytes.Byte>) => if |x| == 16 then FromBits(Store(InvCipher(rk, nr, Load(ToBits(x))))) else x)
  }

  /** What is proved of the modes of operation for every block cipher holds for AES. */
  lemma AesIsBlockCipher(key: seq<bv8>, keybits: int)
    requires KeySize(keybits) && keybits / 8 <= |key|
    ensures AesWith(key, keybits).Valid()
  {
    hide Load, Store, Cipher, InvCipher, RoundKeys, ToBits, FromBits;
    var c := AesWith(key, keybits);
    forall x: seq<Bytes.Byte> | |x| == 16
      ensures |c.enc(x)| == 16 && c.dec(c.enc(x)) == x && |c.dec(x)| == 16
    {
      var nr, rk := RoundsFor(keybits), RoundKeys(key, keybits);
      var s := Cipher(rk, nr, Load(ToBits(x)));
      BytesOfBits(Store(s));
      LoadStore(s);
      CipherInverse(rk, nr, Load(ToBits(x)));
      StoreLoad(ToBits(x));
      BitsOfBytes(x);
    }
  }

  /** Its two directions are what the code computes: CryptEcb under the schedules of SetkeyEnc and SetkeyDec. */
  lemma AesWithIsCode(key: seq<bv8>, keybits: int, dk: seq<bv32>, x: seq<Bytes.Byte>)
    requires KeySize(keybits) && keybits / 8 <= |key| && |x| == 16 && |dk| == 4 * RoundsFor(keybits) + 4
    requires IsDecSchedule(dk, RoundKeys(key, keybits), RoundsFor(keybits))
    ensures var nr, c := RoundsFor(keybits), AesWith(key, keybits);
            && c.enc(x) == FromBits(Store(Cipher(RoundKeys(key, keybits), nr, Load(ToBits(x)))))
            && c.dec(x) == FromBits(Store(EqInvCipher(dk, nr, Load(ToBits(x)))))
  {
    hide Load, Store, Cipher, InvCipher, EqInvCipher, IsDecSchedule, RoundKeys, ToBits, FromBits;
    EquivalentInverse(dk, RoundKeys(key, keybits), RoundsFor(keybits), Load(ToBits(x)));
  }
}
