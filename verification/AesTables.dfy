/** aes_gen_tables of aes.c: logarithm tables, S-boxes, round constants and T-tables. */
module AesTables {
  import opened Gf256
  import opened Words
  import opened AesRound
  import opened BoxTables

  datatype Tables = Tables(
    fsb: seq<bv8>, rsb: seq<bv8>,
    ft0: seq<bv32>, ft1: seq<bv32>, ft2: seq<bv32>, ft3: seq<bv32>,
    rt0: seq<bv32>, rt1: seq<bv32>, rt2: seq<bv32>, rt3: seq<bv32>,
    rcon: seq<bv32>)

  /** The round constants: powers of x (section 5.2 of FIPS 197). */
  function Rcon(i: nat): bv8 {
    if i == 0 then 1 else XTime(Rcon(i - 1))
  }

  ghost predicate GoodSBoxes(fsb: seq<bv8>, rsb: seq<bv8>) {
    && |fsb| == 256 == |rsb|
    && (forall i: nat :: i < 256 ==> fsb[i] == SBox(i as bv8))
    && (forall i: nat :: i < 256 ==> rsb[i] == InvSBox(i as bv8))
  }

  ghost predicate GoodForward(ft0: seq<bv32>, ft1: seq<bv32>, ft2: seq<bv32>, ft3: seq<bv32>, n: nat) {
    && n <= 256 == |ft0| == |ft1| == |ft2| == |ft3|
    && (forall i: nat :: i < n ==> ft0[i] == ForwardEntry(SBox(i as bv8)))
    && (forall i: nat :: i < n ==> ft1[i] == Rotl8(ft0[i]))
    && (forall i: nat :: i < n ==> ft2[i] == Rotl8(ft1[i]))
    && (forall i: nat :: i < n ==> ft3[i] == Rotl8(ft2[i]))
  }

  ghost predicate GoodReverse(rt0: seq<bv32>, rt1: seq<bv32>, rt2: seq<bv32>, rt3: seq<bv32>, n: nat) {
    && n <= 256 == |rt0| == |rt1| == |rt2| == |rt3|
    && (forall i: nat :: i < n ==> rt0[i] == ReverseEntry(InvSBox(i as bv8)))
    && (forall i: nat :: i < n ==> rt1[i] == Rotl8(rt0[i]))
    && (forall i: nat :: i < n ==> rt2[i] == Rotl8(rt1[i]))
    && (forall i: nat :: i < n ==> rt3[i] == Rotl8(rt2[i]))
  }

  ghost predicate GoodRcon(rcon: seq<bv32>) {
    |rcon| == 10 && forall i: nat :: i < 10 ==> rcon[i] == Rcon(i) as bv32
  }

  ghost predicate Good(t: Tables) {
    && GoodSBoxes(t.fsb, t.rsb) && GoodRcon(t.rcon)
    && GoodForward(t.ft0, t.ft1, t.ft2, t.ft3, 256) && GoodReverse(t.rt0, t.rt1, t.rt2, t.rt3, 256)
  }

  lemma ByteOf(i: nat)
    requires i < 256
    ensures (i as bv8) as int == i
  {
    // a case split on the low digit keeps the conversion within the solver's reach
    var h, l := i / 16, i % 16;
    assert i == 16 * h + l;
    if l == 0 {} else if l == 1 {} else if l == 2 {} else if l == 3 {}
    else if l == 4 {} else if l == 5 {} else if l == 6 {} else if l == 7 {}
    else if l == 8 {} else if l == 9 {} else if l == 10 {} else if l == 11 {}
    else if l == 12 {} else if l == 13 {} else if l == 14 {} else {}
  }

  lemma IndexOf(x: bv8)
    ensures 0 <= x as int < 256 && (x as int) as bv8 == x
  {
  }

  // ---------------------------------------------------------------- pow and log

  /** log[v] is a logarithm of v. */
  ghost predicate LogAt(log: seq<nat>, v: int) {
    0 <= v < |log| && log[v] <= 255 && Pow3(log[v]) as int == v
  }

  function PowIndex(k: nat): (v: int)
    ensures 0 < v < 256
  {
    Pow3Nonzero(k);
    AsInt(Pow3(k), 0);
    Pow3(k) as int
  }

  ghost predicate PowLogLoop(pow: seq<bv8>, log: seq<nat>, i: nat) {
    && i <= 256 == |pow| == |log|
    && (forall j: nat :: j < i ==> pow[j] == Pow3(j))
    && (forall j: nat :: j < i ==> LogAt(log, PowIndex(j)))
  }

  lemma PowLogStep(pow: seq<bv8>, log: seq<nat>, i: nat)
    requires PowLogLoop(pow, log, i) && i < 256
    ensures PowLogLoop(pow[i := Pow3(i)], log[PowIndex(i) := i], i + 1)
  {
    hide PowIndex, LogAt, Pow3;
    var log' := log[PowIndex(i) := i];
    forall j: nat | j < i + 1
      ensures LogAt(log', PowIndex(j))
    {
      LogAtStep(log, i, j);
    }
  }

  lemma LogAtStep(log: seq<nat>, i: nat, j: nat)
    requires i < 256 == |log| && (i == j || LogAt(log, PowIndex(j)))
    ensures LogAt(log[PowIndex(i) := i], PowIndex(j))
  {
    hide Pow3;
    if PowIndex(i) == PowIndex(j) { AsInt(Pow3(i), Pow3(j)); }
  }

  lemma PowLogEnd(pow: seq<bv8>, log: seq<nat>, v: int)
    requires PowLogLoop(pow, log, 256) && 0 < v < 256
    ensures LogAt(log, v)
  {
    hide LogAt, Pow3;
    ByteOf(v);
    AsInt(v as bv8, 0);
    var k := HasLog(v as bv8);
    assert PowIndex(k) == v;
  }

  /** What the two tables are: powers of 3 and logarithms to that base. */
  ghost predicate GoodPowLog(pow: seq<bv8>, log: seq<nat>) {
    && |pow| == 256 == |log|
    && (forall i: nat :: i < 256 ==> pow[i] == Pow3(i))
    && (forall v: int :: 0 < v < 256 ==> LogAt(log, v))
  }

  method PowLog() returns (pow: seq<bv8>, log: seq<nat>)
    ensures GoodPowLog(pow, log)
  {
    hide Times3, Pow3, LogAt, PowLogLoop, PowIndex;
    pow := seq(256, i => 0);
    log := seq(256, i => 0);
    PowLogStart(pow, log);
    var i: nat, x: bv8 := 0, 1;
    while i < 256
      invariant i <= 256 && |pow| == 256 == |log| && x == Pow3(i)
      invariant PowLogLoop(pow, log, i)
    {
      PowLogStep(pow, log, i);
      PowIndexIs(i);
      pow := pow[i := x];
      log := log[x as int := i];
      x := Times3(x);
      i := i + 1;
    }
    PowLogDone(pow, log);
  }

  lemma PowLogStart(pow: seq<bv8>, log: seq<nat>)
    requires |pow| == 256 == |log|
    ensures PowLogLoop(pow, log, 0) && Pow3(0) == 1
  {
  }

  lemma PowIndexIs(i: nat)
    ensures PowIndex(i) == Pow3(i) as int && Pow3(i + 1) == Times3(Pow3(i))
  {
  }

  lemma PowLogDone(pow: seq<bv8>, log: seq<nat>)
    requires PowLogLoop(pow, log, 256)
    ensures GoodPowLog(pow, log)
  {
    hide LogAt, PowIndex, Pow3;
    forall v: int | 0 < v < 256
      ensures LogAt(log, v)
    {
      PowLogEnd(pow, log, v);
    }
  }

  // ---------------------------------------------------------------- round constants

  method RoundConstants() returns (rcon: seq<bv32>)
    ensures GoodRcon(rcon)
  {
    hide XTime;
    rcon := seq(10, i => 0);
    var i, x: bv8 := 0, 1;
    while i < 10
      invariant 0 <= i <= 10 && |rcon| == 10 && x == Rcon(i)
      invariant forall j: nat :: j < i ==> rcon[j] == Rcon(j) as bv32
    {
      rcon := rcon[i := x as bv32];
      x := XTime(x);
      i := i + 1;
    }
  }

  // ---------------------------------------------------------------- S-boxes

  /** The affine map by four rotations of one place each. */
  method AffineSteps(x0: bv8) returns (x: bv8)
    ensures x == Affine(x0)
  {
    x := x0;
    var y := x;
    y := (y << 1) | (y >> 7);
    x := x ^ y;
    y := (y << 1) | (y >> 7);
    x := x ^ y;
    y := (y << 1) | (y >> 7);
    x := x ^ y;
    y := (y << 1) | (y >> 7);
    x := x ^ (y ^ 0x63);
  }

  function SBoxIndex(i: nat): (v: int)
    requires i < 256
    ensures 0 <= v < 256
  {
    AsInt(SBox(i as bv8), 0);
    SBox(i as bv8) as int
  }

  ghost predicate SBoxLoop(fsb: seq<bv8>, rsb: seq<bv8>, n: nat) {
    && n <= 256 == |fsb| == |rsb|
    && (forall i: nat :: i < n ==> fsb[i] == SBox(i as bv8))
    && (forall i: nat :: i < n ==> rsb[SBoxIndex(i)] == i as bv8)
  }

  lemma SBoxStep(fsb: seq<bv8>, rsb: seq<bv8>, n: nat)
    requires SBoxLoop(fsb, rsb, n) && n < 256
    ensures SBoxLoop(fsb[n := SBox(n as bv8)], rsb[SBoxIndex(n) := n as bv8], n + 1)
  {
    hide SBox, SBoxIndex;
    var rsb' := rsb[SBoxIndex(n) := n as bv8];
    forall i: nat | i < n + 1
      ensures rsb'[SBoxIndex(i)] == i as bv8
    {
      if i < n { SBoxApart(i, n); }
    }
  }

  lemma SBoxDone(fsb: seq<bv8>, rsb: seq<bv8>)
    requires SBoxLoop(fsb, rsb, 256)
    ensures GoodSBoxes(fsb, rsb)
  {
    hide SBox, InvSBox, SBoxIndex;
    forall v: nat | v < 256
      ensures rsb[v] == InvSBox(v as bv8)
    {
      SBoxPreimage(v);
      assert rsb[SBoxIndex(InvSBox(v as bv8) as int)] == (InvSBox(v as bv8) as int) as bv8;
    }
  }

  lemma SBoxPreimage(v: nat)
    requires v < 256
    ensures var x := InvSBox(v as bv8); 0 <= x as int < 256 && (x as int) as bv8 == x && SBoxIndex(x as int) == v
  {
    hide SBox, InvSBox;
    ByteOf(v);
    SBoxInverse(v as bv8);
    IndexOf(InvSBox(v as bv8));
  }

  method SBoxes(pow: seq<bv8>, log: seq<nat>) returns (fsb: seq<bv8>, rsb: seq<bv8>)
    requires GoodPowLog(pow, log)
    ensures GoodSBoxes(fsb, rsb)
  {
    hide SBox, Pow3, Affine, LogAt, GoodSBoxes, SBoxLoop, SBoxIndex;
    fsb := seq(256, i => 0);
    rsb := seq(256, i => 0);
    SBoxZero(fsb, rsb);
    fsb := fsb[0 := 0x63];
    rsb := rsb[0x63 := 0];
    var i: nat := 1;
    while i < 256
      invariant 1 <= i <= 256 && |fsb| == 256 == |rsb|
      invariant SBoxLoop(fsb, rsb, i)
    {
      assert LogAt(log, i);
      SBoxFromLog(log, i);
      SBoxStep(fsb, rsb, i);
      var x := pow[255 - log[i]];
      x := AffineSteps(x);
      fsb := fsb[i := x];
      rsb := rsb[x as int := i as bv8];
      i := i + 1;
    }
    SBoxDone(fsb, rsb);
  }

  lemma SBoxZero(fsb: seq<bv8>, rsb: seq<bv8>)
    requires |fsb| == 256 == |rsb|
    ensures SBoxLoop(fsb[0 := 0x63], rsb[0x63 := 0], 1)
  {
    hide Inv;
    InvZero();
    assert SBox(0) == 0x63;
    assert SBoxIndex(0) == 0x63;
  }

  lemma SBoxFromLog(log: seq<nat>, i: nat)
    requires 0 < i < 256 == |log| && LogAt(log, i)
    ensures log[i] <= 255 && SBox(i as bv8) == Affine(Pow3(255 - log[i])) && SBoxIndex(i) == SBox(i as bv8) as int
  {
    hide Pow3, Affine, Inv;
    ByteOf(i);
    AsInt(i as bv8, Pow3(log[i]));
    InvOfPow3(log[i]);
  }

  lemma SBoxApart(i: nat, j: nat)
    requires i < 256 && j < 256 && i != j
    ensures SBoxIndex(i) != SBoxIndex(j)
  {
    hide SBox, InvSBox;
    ByteOf(i);
    ByteOf(j);
    SBoxInverse(i as bv8);
    SBoxInverse(j as bv8);
    AsInt(SBox(i as bv8), SBox(j as bv8));
  }

  // ---------------------------------------------------------------- the tables in ROM

  /** Read through the inverse affine map, the literal table divides by 3 where its index is multiplied by 3. */
  lemma TableStep(x: bv8)
    requires x != 0
    ensures Times3(InvAffine(Sb1(Times3(x)))) == InvAffine(Sb1(x))
  {
  }

  lemma TableStart()
    ensures InvAffine(Sb1(1)) == 1 && Sb1(0) == 0x63
  {
  }

  lemma {:induction false} TableInverts(k: nat)
    requires k <= 255
    ensures InvAffine(Sb1(Pow3(k))) == Pow3(255 - k)
  {
    hide Times3, InvAffine, Sb1, Pow3;
    if k == 0 {
      Pow3Zero();
      Order();
      TableStart();
    } else {
      TableInverts(k - 1);
      Pow3Nonzero(k - 1);
      TableStep(Pow3(k - 1));
      PowIndexIs(k - 1);
      PowIndexIs(255 - k);
      Times3Injective(InvAffine(Sb1(Pow3(k))), Pow3(255 - k));
    }
  }

  /** FSb and RSb as aes.c lists them for MBEDTLS_AES_ROM_TABLES are the S-boxes of FIPS 197. */
  lemma RomTables(x: bv8)
    ensures Sb1(x) == SBox(x) && Is1(x) == InvSBox(x)
  {
    hide Times3, InvAffine, Affine, Sb1, Is1, Pow3, Inv, SBox, InvSBox;
    RomForward(x);
    RomForward(InvSBox(x));
    SBoxInverse(x);
    FirstBoxes(InvSBox(x));
  }

  lemma RomForward(x: bv8)
    ensures Sb1(x) == SBox(x)
  {
    hide Times3, InvAffine, Affine, Sb1, Pow3, Inv;
    if x == 0 {
      InvZero();
      TableStart();
      AffineZero();
    } else {
      var k := HasLog(x);
      TableInverts(k);
      InvOfPow3(k);
      InvAffineInverse(Sb1(x));
    }
  }

  lemma AffineZero()
    ensures Affine(0) == 0x63
  {
  }

  // ---------------------------------------------------------------- T-tables

  /** The product from logarithms. */
  function MulByLog(pow: seq<bv8>, log: seq<nat>, x: bv8, y: bv8): (r: bv8)
    requires GoodPowLog(pow, log)
    ensures r == Mul(y, x)
  {
    hide Pow3, Mul, MulBits;
    AsInt(x, 0);
    AsInt(y, 0);
    if x != 0 && y != 0 then
      MulByLogIs(pow, log, x, y);
      pow[(log[x as int] + log[y as int]) % 255]
    else
      MulZero(x);
      MulZero(y);
      0
  }

  lemma MulZero(x: bv8)
    ensures Mul(x, 0) == 0 && Mul(0, x) == 0
  {
    hide Mul, Add;
    assert Mul(x, 0) == 0 by { MulBitsZero(x, 8); MulUnfold(x, 0); }
    MulAdd(0, 0, x);
    AddCancel(Mul(0, x), Mul(0, x));
    AddCancel(0, 0);
  }

  lemma MulUnfold(x: bv8, y: bv8)
    ensures Mul(x, y) == MulBits(x, y, 8)
  {
  }

  lemma MulByLogIs(pow: seq<bv8>, log: seq<nat>, x: bv8, y: bv8)
    requires GoodPowLog(pow, log) && 0 < x as int < 256 && 0 < y as int < 256
    ensures pow[(log[x as int] + log[y as int]) % 255] == Mul(y, x)
  {
    hide Pow3, Mul;
    assert LogAt(log, x as int) && LogAt(log, y as int);
    var i, j := log[x as int], log[y as int];
    AsInt(Pow3(i), x);
    AsInt(Pow3(j), y);
    MulPow3(j, i);
    Pow3Period((i + j) % 255, (i + j) / 255);
  }

  method ForwardAt(x: bv8) returns (w: bv32)
    ensures w == ForwardEntry(x)
  {
    hide XTime, Mul, Pack, Add;
    var y := XTime(x);
    var z := Add(y, x);
    w := Pack(y, x, x, z);
    Double(x);
    AddComm(x, y);
  }

  method ReverseAt(pow: seq<bv8>, log: seq<nat>, x: bv8) returns (w: bv32)
    requires GoodPowLog(pow, log)
    ensures w == ReverseEntry(x)
  {
    hide Mul, Pack, GoodPowLog;
    w := Pack(MulByLog(pow, log, 0x0E, x), MulByLog(pow, log, 0x09, x), MulByLog(pow, log, 0x0D, x), MulByLog(pow, log, 0x0B, x));
  }

  lemma ForwardStep(ft0: seq<bv32>, ft1: seq<bv32>, ft2: seq<bv32>, ft3: seq<bv32>, n: nat)
    requires GoodForward(ft0, ft1, ft2, ft3, n) && n < 256
    ensures var f := ForwardEntry(SBox(n as bv8));
            GoodForward(ft0[n := f], ft1[n := Rotl8(f)], ft2[n := Rotl8(Rotl8(f))], ft3[n := Rotl8(Rotl8(Rotl8(f)))], n + 1)
  {
    hide ForwardEntry, SBox, Rotl8;
  }

  lemma ReverseStep(rt0: seq<bv32>, rt1: seq<bv32>, rt2: seq<bv32>, rt3: seq<bv32>, n: nat)
    requires GoodReverse(rt0, rt1, rt2, rt3, n) && n < 256
    ensures var g := ReverseEntry(InvSBox(n as bv8));
            GoodReverse(rt0[n := g], rt1[n := Rotl8(g)], rt2[n := Rotl8(Rotl8(g))], rt3[n := Rotl8(Rotl8(Rotl8(g)))], n + 1)
  {
    hide ReverseEntry, InvSBox, Rotl8;
  }

  lemma TablesStart(z: seq<bv32>)
    requires |z| == 256
    ensures GoodForward(z, z, z, z, 0) && GoodReverse(z, z, z, z, 0)
  {
  }

  method RoundTables(pow: seq<bv8>, log: seq<nat>, fsb: seq<bv8>, rsb: seq<bv8>, rcon: seq<bv32>) returns (t: Tables)
    requires GoodPowLog(pow, log) && GoodSBoxes(fsb, rsb) && GoodRcon(rcon)
    ensures Good(t)
  {
    hide GoodPowLog, SBox, InvSBox, Rotl8, ForwardEntry, ReverseEntry, GoodRcon, GoodForward, GoodReverse;
    var zeros: seq<bv32> := seq(256, i => 0);
    var ft0, ft1, ft2, ft3 := zeros, zeros, zeros, zeros;
    var rt0, rt1, rt2, rt3 := zeros, zeros, zeros, zeros;
    TablesStart(zeros);
    var i: nat := 0;
    while i < 256
      invariant i <= 256 == |ft0| == |ft1| == |ft2| == |ft3| == |rt0| == |rt1| == |rt2| == |rt3|
      invariant GoodForward(ft0, ft1, ft2, ft3, i)
      invariant GoodReverse(rt0, rt1, rt2, rt3, i)
    {
      ForwardStep(ft0, ft1, ft2, ft3, i);
      ReverseStep(rt0, rt1, rt2, rt3, i);
      var f := ForwardAt(fsb[i]);
      ft0 := ft0[i := f];
      ft1 := ft1[i := Rotl8(ft0[i])];
      ft2 := ft2[i := Rotl8(ft1[i])];
      ft3 := ft3[i := Rotl8(ft2[i])];
      var g := ReverseAt(pow, log, rsb[i]);
      rt0 := rt0[i := g];
      rt1 := rt1[i := Rotl8(rt0[i])];
      rt2 := rt2[i := Rotl8(rt1[i])];
      rt3 := rt3[i := Rotl8(rt2[i])];
      i := i + 1;
    }
    t := Tables(fsb, rsb, ft0, ft1, ft2, ft3, rt0, rt1, rt2, rt3, rcon);
  }

  /** aes_gen_tables. */
  method GenTables() returns (t: Tables)
    ensures Good(t)
  {
    hide *;
    var pow, log := PowLog();
    var rcon := RoundConstants();
    var fsb, rsb := SBoxes(pow, log);
    t := RoundTables(pow, log, fsb, rsb, rcon);
  }
}
