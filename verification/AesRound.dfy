/** The cipher and the inverse cipher of FIPS 197 on little-endian 32-bit columns, and the T-tables of aes.c. */
module AesRound {
  import opened Gf256
  import opened Words

  // ---------------------------------------------------------------- columns

  function Sum(a: bv8, b: bv8, c: bv8, d: bv8): bv8 {
    Add(Add(a, b), Add(c, d))
  }

  /** A row of the matrix of MixColumns (section 5.1.3 of FIPS 197). */
  function MixByte(a: bv8, b: bv8, c: bv8, d: bv8): bv8 {
    Sum(Mul(a, 2), Mul(b, 3), c, d)
  }

  /** A row of the matrix of InvMixColumns (section 5.3.3 of FIPS 197). */
  function InvMixByte(a: bv8, b: bv8, c: bv8, d: bv8): bv8 {
    Sum(Mul(a, 0x0E), Mul(b, 0x0B), Mul(c, 0x0D), Mul(d, 0x09))
  }

  function MixBytes(a: bv8, b: bv8, c: bv8, d: bv8): bv32 {
    Pack(MixByte(a, b, c, d), MixByte(b, c, d, a), MixByte(c, d, a, b), MixByte(d, a, b, c))
  }

  function InvMixBytes(a: bv8, b: bv8, c: bv8, d: bv8): bv32 {
    Pack(InvMixByte(a, b, c, d), InvMixByte(b, c, d, a), InvMixByte(c, d, a, b), InvMixByte(d, a, b, c))
  }

  function MixColumn(w: bv32): bv32 {
    MixBytes(B0(w), B1(w), B2(w), B3(w))
  }

  function InvMixColumn(w: bv32): bv32 {
    InvMixBytes(B0(w), B1(w), B2(w), B3(w))
  }

  /** Multiplication by a number of four bits. */
  lemma MulLow(x: bv8, y: bv8)
    requires y & 0xF0 == 0
    ensures var x2 := XTime(x); var x4 := XTime(x2); var x8 := XTime(x4);
            Mul(x, y) == Add(Term(x, y), Add(Term(x2, Half(y)), Add(Term(x4, Half(Half(y))), Term(x8, Half(Half(Half(y)))))))
  {
    hide Add, XTime, Term;
    var x2 := XTime(x);
    var x4 := XTime(x2);
    var x8 := XTime(x4);
    var y2 := Half(y);
    var y4 := Half(y2);
    var y8 := Half(y4);
    assert Half(y8) == 0;
    hide Half;
    assert MulBits(x, y, 8) == Add(Term(x, y), MulBits(x2, y2, 7));
    assert MulBits(x2, y2, 7) == Add(Term(x2, y2), MulBits(x4, y4, 6));
    assert MulBits(x4, y4, 6) == Add(Term(x4, y4), MulBits(x8, y8, 5));
    assert MulBits(x8, y8, 5) == Add(Term(x8, y8), MulBits(XTime(x8), 0, 4));
    MulBitsZero(XTime(x8), 4);
    AddCancel(Term(x8, y8), 0);
  }

  /** The multiples the matrices use, by repeated doubling. */
  lemma Double(x: bv8)
    ensures Mul(x, 2) == XTime(x) && Mul(x, 3) == Add(x, XTime(x))
  {
    hide Mul, XTime, Add;
    MulLow(x, 2);
    MulLow(x, 3);
    AddZero(0);
    AddZero(x);
    AddZero(XTime(x));
  }

  lemma Multiples(x: bv8)
    ensures var x2 := XTime(x); var x4 := XTime(x2); var x8 := XTime(x4);
            && Mul(x, 0x09) == Add(x, x8) && Mul(x, 0x0B) == Add(x, Add(x2, x8))
            && Mul(x, 0x0D) == Add(x, Add(x4, x8)) && Mul(x, 0x0E) == Add(x2, Add(x4, x8))
  {
    hide Mul, XTime, Add;
    MulLow(x, 0x09);
    MulLow(x, 0x0B);
    MulLow(x, 0x0D);
    MulLow(x, 0x0E);
    var x2 := XTime(x);
    var x4 := XTime(x2);
    var x8 := XTime(x4);
    AddZero(x8);
    AddZero(Add(x4, x8));
    AddZero(Add(x2, Add(x4, x8)));
  }

  lemma AddZero(x: bv8)
    ensures Add(0, x) == x && Add(x, 0) == x
  {
  }

  lemma SumAdd(a: bv8, b: bv8, c: bv8, d: bv8, a': bv8, b': bv8, c': bv8, d': bv8)
    ensures Add(Sum(a, b, c, d), Sum(a', b', c', d')) == Sum(Add(a, a'), Add(b, b'), Add(c, c'), Add(d, d'))
  {
    hide Add;
    AddSwap(Add(a, b), Add(c, d), Add(a', b'), Add(c', d'));
    AddSwap(a, b, a', b');
    AddSwap(c, d, c', d');
  }

  /** A square of numbers summed by rows and by columns. */
  lemma Transpose(a: bv8, b: bv8, c: bv8, d: bv8, e: bv8, f: bv8, g: bv8, h: bv8,
    i: bv8, j: bv8, k: bv8, l: bv8, m: bv8, n: bv8, o: bv8, p: bv8)
    ensures Sum(Sum(a, b, c, d), Sum(e, f, g, h), Sum(i, j, k, l), Sum(m, n, o, p))
         == Sum(Sum(a, e, i, m), Sum(b, f, j, n), Sum(c, g, k, o), Sum(d, h, l, p))
  {
    hide Add;
    SumAdd(a, b, c, d, e, f, g, h);
    SumAdd(i, j, k, l, m, n, o, p);
    SumAdd(Add(a, e), Add(b, f), Add(c, g), Add(d, h), Add(i, m), Add(j, n), Add(k, o), Add(l, p));
  }

  lemma MulSum(a: bv8, b: bv8, c: bv8, d: bv8, y: bv8)
    ensures Mul(Sum(a, b, c, d), y) == Sum(Mul(a, y), Mul(b, y), Mul(c, y), Mul(d, y))
  {
    hide Add, Mul;
    MulAdd(Add(a, b), Add(c, d), y);
    MulAdd(a, b, y);
    MulAdd(c, d, y);
  }

  lemma MulSums(a: bv8, b: bv8, c: bv8, d: bv8, y: bv8)
    ensures Mul(MixByte(a, b, c, d), y) == Sum(Mul(Mul(a, 2), y), Mul(Mul(b, 3), y), Mul(c, y), Mul(d, y))
  {
    hide Mul, Sum;
    MulSum(Mul(a, 2), Mul(b, 3), c, d, y);
  }

  // The entries of the product of the two matrices.

  lemma Entry0(x: bv8)
    ensures Sum(Mul(Mul(x, 2), 0x0E), Mul(x, 0x0B), Mul(x, 0x0D), Mul(Mul(x, 3), 0x09)) == x
  {
    hide Mul;
    Double(x);
    Multiples(x);
    Multiples(XTime(x));
    Multiples(Add(x, XTime(x)));
  }

  lemma Entry1(x: bv8)
    ensures Sum(Mul(Mul(x, 3), 0x0E), Mul(Mul(x, 2), 0x0B), Mul(x, 0x0D), Mul(x, 0x09)) == 0
  {
    hide Mul;
    Double(x);
    Multiples(x);
    Multiples(XTime(x));
    Multiples(Add(x, XTime(x)));
  }

  lemma Entry2(x: bv8)
    ensures Sum(Mul(x, 0x0E), Mul(Mul(x, 3), 0x0B), Mul(Mul(x, 2), 0x0D), Mul(x, 0x09)) == 0
  {
    hide Mul;
    Double(x);
    Multiples(x);
    Multiples(XTime(x));
    Multiples(Add(x, XTime(x)));
  }

  lemma Entry3(x: bv8)
    ensures Sum(Mul(x, 0x0E), Mul(x, 0x0B), Mul(Mul(x, 3), 0x0D), Mul(Mul(x, 2), 0x09)) == 0
  {
    hide Mul;
    Double(x);
    Multiples(x);
    Multiples(XTime(x));
    Multiples(Add(x, XTime(x)));
  }

  lemma SumRotate(a: bv8, b: bv8, c: bv8, d: bv8)
    ensures Sum(a, b, c, d) == Sum(d, a, b, c) == Sum(c, d, a, b) == Sum(b, c, d, a)
  {
    hide Add;
    AddComm(Add(a, b), Add(c, d));
    AddSwap(d, c, a, b);
    AddComm(c, d);
    AddComm(b, c);
    AddComm(a, d);
    AddComm(a, c);
    AddComm(b, d);
    AddSwap(a, b, d, c);
    AddComm(Add(d, a), Add(b, c));
  }

  lemma InvMixByteOfMix(a: bv8, b: bv8, c: bv8, d: bv8)
    ensures InvMixByte(MixByte(a, b, c, d), MixByte(b, c, d, a), MixByte(c, d, a, b), MixByte(d, a, b, c)) == a
  {
    hide Mul, Sum, MixByte;
    MulSums(a, b, c, d, 0x0E);
    MulSums(b, c, d, a, 0x0B);
    MulSums(c, d, a, b, 0x0D);
    MulSums(d, a, b, c, 0x09);
    SumRotate(Mul(Mul(b, 2), 0x0B), Mul(Mul(c, 3), 0x0B), Mul(d, 0x0B), Mul(a, 0x0B));
    SumRotate(Mul(Mul(c, 2), 0x0D), Mul(Mul(d, 3), 0x0D), Mul(a, 0x0D), Mul(b, 0x0D));
    SumRotate(Mul(Mul(d, 2), 0x09), Mul(Mul(a, 3), 0x09), Mul(b, 0x09), Mul(c, 0x09));
    Transpose(Mul(Mul(a, 2), 0x0E), Mul(Mul(b, 3), 0x0E), Mul(c, 0x0E), Mul(d, 0x0E),
      Mul(a, 0x0B), Mul(Mul(b, 2), 0x0B), Mul(Mul(c, 3), 0x0B), Mul(d, 0x0B),
      Mul(a, 0x0D), Mul(b, 0x0D), Mul(Mul(c, 2), 0x0D), Mul(Mul(d, 3), 0x0D),
      Mul(Mul(a, 3), 0x09), Mul(b, 0x09), Mul(c, 0x09), Mul(Mul(d, 2), 0x09));
    Entry0(a);
    Entry1(b);
    Entry2(c);
    Entry3(d);
    SumZero(a);
  }

  lemma SumZero(a: bv8)
    ensures Sum(a, 0, 0, 0) == a
  {
  }

  /** The two matrices are inverse to each other. */
  lemma InvMixOfMix(w: bv32)
    ensures InvMixColumn(MixColumn(w)) == w
  {
    hide Pack, B0, B1, B2, B3, MixByte, InvMixByte;
    var a, b, c, d := B0(w), B1(w), B2(w), B3(w);
    PackOfBytes(w);
    BytesOfPack(MixByte(a, b, c, d), MixByte(b, c, d, a), MixByte(c, d, a, b), MixByte(d, a, b, c));
    InvMixByteOfMix(a, b, c, d);
    InvMixByteOfMix(b, c, d, a);
    InvMixByteOfMix(c, d, a, b);
    InvMixByteOfMix(d, a, b, c);
  }

  lemma InvMixByteAdd(a: bv8, b: bv8, c: bv8, d: bv8, a': bv8, b': bv8, c': bv8, d': bv8)
    ensures InvMixByte(Add(a, a'), Add(b, b'), Add(c, c'), Add(d, d')) == Add(InvMixByte(a, b, c, d), InvMixByte(a', b', c', d'))
  {
    hide Mul, Add, Sum;
    MulAdd(a, a', 0x0E);
    MulAdd(b, b', 0x0B);
    MulAdd(c, c', 0x0D);
    MulAdd(d, d', 0x09);
    SumAdd(Mul(a, 0x0E), Mul(b, 0x0B), Mul(c, 0x0D), Mul(d, 0x09), Mul(a', 0x0E), Mul(b', 0x0B), Mul(c', 0x0D), Mul(d', 0x09));
  }

  lemma InvMixXor(v: bv32, w: bv32)
    ensures InvMixColumn(Xor(v, w)) == Xor(InvMixColumn(v), InvMixColumn(w))
  {
    hide Pack, B0, B1, B2, B3, Xor, InvMixByte, Add;
    BytesOfXor(v, w);
    var a, b, c, d := B0(v), B1(v), B2(v), B3(v);
    var a', b', c', d' := B0(w), B1(w), B2(w), B3(w);
    InvMixByteAdd(a, b, c, d, a', b', c', d');
    InvMixByteAdd(b, c, d, a, b', c', d', a');
    InvMixByteAdd(c, d, a, b, c', d', a', b');
    InvMixByteAdd(d, a, b, c, d', a', b', c');
    XorOfPack(InvMixByte(a, b, c, d), InvMixByte(b, c, d, a), InvMixByte(c, d, a, b), InvMixByte(d, a, b, c),
      InvMixByte(a', b', c', d'), InvMixByte(b', c', d', a'), InvMixByte(c', d', a', b'), InvMixByte(d', a', b', c'));
  }

  // ---------------------------------------------------------------- T-tables

  /** The column one S-box output contributes: entries of FT0 and RT0. */
  function ForwardEntry(s: bv8): bv32 {
    Pack(Mul(s, 2), s, s, Mul(s, 3))
  }

  function ReverseEntry(r: bv8): bv32 {
    Pack(Mul(r, 0x0E), Mul(r, 0x09), Mul(r, 0x0D), Mul(r, 0x0B))
  }

  function Sum32(a: bv32, b: bv32, c: bv32, d: bv32): bv32 {
    Xor(Xor(a, b), Xor(c, d))
  }

  lemma PackSum(a0: bv8, a1: bv8, a2: bv8, a3: bv8, b0: bv8, b1: bv8, b2: bv8, b3: bv8,
    c0: bv8, c1: bv8, c2: bv8, c3: bv8, d0: bv8, d1: bv8, d2: bv8, d3: bv8)
    ensures Sum32(Pack(a0, a1, a2, a3), Pack(b0, b1, b2, b3), Pack(c0, c1, c2, c3), Pack(d0, d1, d2, d3))
         == Pack(Sum(a0, b0, c0, d0), Sum(a1, b1, c1, d1), Sum(a2, b2, c2, d2), Sum(a3, b3, c3, d3))
  {
    hide Pack, Xor, Add;
    XorOfPack(a0, a1, a2, a3, b0, b1, b2, b3);
    XorOfPack(c0, c1, c2, c3, d0, d1, d2, d3);
    XorOfPack(Add(a0, b0), Add(a1, b1), Add(a2, b2), Add(a3, b3), Add(c0, d0), Add(c1, d1), Add(c2, d2), Add(c3, d3));
  }

  lemma Rotations(a: bv8, b: bv8, c: bv8, d: bv8)
    ensures var w := Pack(a, b, c, d);
            Rotl8(w) == Pack(d, a, b, c) && Rotl8(Rotl8(w)) == Pack(c, d, a, b) && Rotl8(Rotl8(Rotl8(w))) == Pack(b, c, d, a)
  {
    hide Pack, Rotl8;
    Rotl8OfPack(a, b, c, d);
    Rotl8OfPack(d, a, b, c);
    Rotl8OfPack(c, d, a, b);
  }

  /** Four lookups do MixColumns. */
  lemma ForwardTable(a: bv8, b: bv8, c: bv8, d: bv8)
    ensures Sum32(ForwardEntry(a), Rotl8(ForwardEntry(b)), Rotl8(Rotl8(ForwardEntry(c))), Rotl8(Rotl8(Rotl8(ForwardEntry(d)))))
         == MixBytes(a, b, c, d)
  {
    hide Pack, Rotl8, Mul, Sum, Sum32;
    Rotations(Mul(b, 2), b, b, Mul(b, 3));
    Rotations(Mul(c, 2), c, c, Mul(c, 3));
    Rotations(Mul(d, 2), d, d, Mul(d, 3));
    PackSum(Mul(a, 2), a, a, Mul(a, 3), Mul(b, 3), Mul(b, 2), b, b, c, Mul(c, 3), Mul(c, 2), c, d, d, Mul(d, 3), Mul(d, 2));
    SumRotate(a, Mul(b, 2), Mul(c, 3), d);
    SumRotate(a, b, Mul(c, 2), Mul(d, 3));
    SumRotate(Mul(a, 3), b, c, Mul(d, 2));
  }

  /** Four lookups do InvMixColumns. */
  lemma ReverseTable(a: bv8, b: bv8, c: bv8, d: bv8)
    ensures Sum32(ReverseEntry(a), Rotl8(ReverseEntry(b)), Rotl8(Rotl8(ReverseEntry(c))), Rotl8(Rotl8(Rotl8(ReverseEntry(d)))))
         == InvMixBytes(a, b, c, d)
  {
    hide Pack, Rotl8, Mul, Sum, Sum32;
    Rotations(Mul(b, 0x0E), Mul(b, 0x09), Mul(b, 0x0D), Mul(b, 0x0B));
    Rotations(Mul(c, 0x0E), Mul(c, 0x09), Mul(c, 0x0D), Mul(c, 0x0B));
    Rotations(Mul(d, 0x0E), Mul(d, 0x09), Mul(d, 0x0D), Mul(d, 0x0B));
    PackSum(Mul(a, 0x0E), Mul(a, 0x09), Mul(a, 0x0D), Mul(a, 0x0B), Mul(b, 0x0B), Mul(b, 0x0E), Mul(b, 0x09), Mul(b, 0x0D),
      Mul(c, 0x0D), Mul(c, 0x0B), Mul(c, 0x0E), Mul(c, 0x09), Mul(d, 0x09), Mul(d, 0x0D), Mul(d, 0x0B), Mul(d, 0x0E));
    SumRotate(Mul(a, 0x09), Mul(b, 0x0E), Mul(c, 0x0B), Mul(d, 0x0D));
    SumRotate(Mul(a, 0x0D), Mul(b, 0x09), Mul(c, 0x0E), Mul(d, 0x0B));
    SumRotate(Mul(a, 0x0B), Mul(b, 0x0D), Mul(c, 0x09), Mul(d, 0x0E));
  }
}
