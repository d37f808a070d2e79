/** ARIA of mbedtls/library/aria.c: the flipped, A-transformed key schedule inverts the cipher. */
module Aria {
  import opened Gf256
  import opened Words
  import opened BoxTables

  // ---------------------------------------------------------------- the affine transform

  /** The transform A of section 2.4.3 of RFC 5794: a 16 x 16 matrix of bits over the bytes of the block. */
  function DiffuseBytes(x0: bv8, x1: bv8, x2: bv8, x3: bv8, x4: bv8, x5: bv8, x6: bv8, x7: bv8,
    x8: bv8, x9: bv8, x10: bv8, x11: bv8, x12: bv8, x13: bv8, x14: bv8, x15: bv8): State
  {
    State(
      Pack(x3 ^ x4 ^ x6 ^ x8 ^ x9 ^ x13 ^ x14,
           x2 ^ x5 ^ x7 ^ x8 ^ x9 ^ x12 ^ x15,
           x1 ^ x4 ^ x6 ^ x10 ^ x11 ^ x12 ^ x15,
           x0 ^ x5 ^ x7 ^ x10 ^ x11 ^ x13 ^ x14),
      Pack(x0 ^ x2 ^ x5 ^ x8 ^ x11 ^ x14 ^ x15,
           x1 ^ x3 ^ x4 ^ x9 ^ x10 ^ x14 ^ x15,
           x0 ^ x2 ^ x7 ^ x9 ^ x10 ^ x12 ^ x13,
           x1 ^ x3 ^ x6 ^ x8 ^ x11 ^ x12 ^ x13),
      Pack(x0 ^ x1 ^ x4 ^ x7 ^ x10 ^ x13 ^ x15,
           x0 ^ x1 ^ x5 ^ x6 ^ x11 ^ x12 ^ x14,
           x2 ^ x3 ^ x5 ^ x6 ^ x8 ^ x13 ^ x15,
           x2 ^ x3 ^ x4 ^ x7 ^ x9 ^ x12 ^ x14),
      Pack(x1 ^ x2 ^ x6 ^ x7 ^ x9 ^ x11 ^ x12,
           x0 ^ x3 ^ x6 ^ x7 ^ x8 ^ x10 ^ x13,
           x0 ^ x3 ^ x4 ^ x5 ^ x9 ^ x11 ^ x14,
           x1 ^ x2 ^ x4 ^ x5 ^ x8 ^ x10 ^ x15))
  }

  function Diffuse(s: State): State {
    DiffuseBytes(B0(s.c0), B1(s.c0), B2(s.c0), B3(s.c0), B0(s.c1), B1(s.c1), B2(s.c1), B3(s.c1),
      B0(s.c2), B1(s.c2), B2(s.c2), B3(s.c2), B0(s.c3), B1(s.c3), B2(s.c3), B3(s.c3))
  }

  /** A block with the given bytes. */
  function BlockOf(x0: bv8, x1: bv8, x2: bv8, x3: bv8, x4: bv8, x5: bv8, x6: bv8, x7: bv8,
    x8: bv8, x9: bv8, x10: bv8, x11: bv8, x12: bv8, x13: bv8, x14: bv8, x15: bv8): State
  {
    State(Pack(x0, x1, x2, x3),
    Pack(x4, x5, x6, x7),
    Pack(x8, x9, x10, x11),
    Pack(x12, x13, x14, x15))
  }

  lemma DiffuseBlock(x0: bv8, x1: bv8, x2: bv8, x3: bv8, x4: bv8, x5: bv8, x6: bv8, x7: bv8,
    x8: bv8, x9: bv8, x10: bv8, x11: bv8, x12: bv8, x13: bv8, x14: bv8, x15: bv8)
    ensures Diffuse(BlockOf(x0, x1, x2, x3, x4, x5, x6, x7, x8, x9, x10, x11, x12, x13, x14, x15))
         == DiffuseBytes(x0, x1, x2, x3, x4, x5, x6, x7, x8, x9, x10, x11, x12, x13, x14, x15)
  {
    hide Pack, B0, B1, B2, B3, DiffuseBytes;
    BytesOfPack(x0, x1, x2, x3);
    BytesOfPack(x4, x5, x6, x7);
    BytesOfPack(x8, x9, x10, x11);
    BytesOfPack(x12, x13, x14, x15);
  }

  lemma BlockOfBytes(s: State)
    ensures BlockOf(B0(s.c0), B1(s.c0), B2(s.c0), B3(s.c0), B0(s.c1), B1(s.c1), B2(s.c1), B3(s.c1),
      B0(s.c2), B1(s.c2), B2(s.c2), B3(s.c2), B0(s.c3), B1(s.c3), B2(s.c3), B3(s.c3)) == s
  {
    hide Pack, B0, B1, B2, B3;
    PackOfBytes(s.c0);
    PackOfBytes(s.c1);
    PackOfBytes(s.c2);
    PackOfBytes(s.c3);
  }

  /** The square of the matrix is the identity. */
  lemma MatrixSquared(x0: bv8, x1: bv8, x2: bv8, x3: bv8, x4: bv8, x5: bv8, x6: bv8, x7: bv8,
    x8: bv8, x9: bv8, x10: bv8, x11: bv8, x12: bv8, x13: bv8, x14: bv8, x15: bv8)
    ensures
      var y0 := x3 ^ x4 ^ x6 ^ x8 ^ x9 ^ x13 ^ x14;
      var y1 := x2 ^ x5 ^ x7 ^ x8 ^ x9 ^ x12 ^ x15;
      var y2 := x1 ^ x4 ^ x6 ^ x10 ^ x11 ^ x12 ^ x15;
      var y3 := x0 ^ x5 ^ x7 ^ x10 ^ x11 ^ x13 ^ x14;
      var y4 := x0 ^ x2 ^ x5 ^ x8 ^ x11 ^ x14 ^ x15;
      var y5 := x1 ^ x3 ^ x4 ^ x9 ^ x10 ^ x14 ^ x15;
      var y6 := x0 ^ x2 ^ x7 ^ x9 ^ x10 ^ x12 ^ x13;
      var y7 := x1 ^ x3 ^ x6 ^ x8 ^ x11 ^ x12 ^ x13;
      var y8 := x0 ^ x1 ^ x4 ^ x7 ^ x10 ^ x13 ^ x15;
      var y9 := x0 ^ x1 ^ x5 ^ x6 ^ x11 ^ x12 ^ x14;
      var y10 := x2 ^ x3 ^ x5 ^ x6 ^ x8 ^ x13 ^ x15;
      var y11 := x2 ^ x3 ^ x4 ^ x7 ^ x9 ^ x12 ^ x14;
      var y12 := x1 ^ x2 ^ x6 ^ x7 ^ x9 ^ x11 ^ x12;
      var y13 := x0 ^ x3 ^ x6 ^ x7 ^ x8 ^ x10 ^ x13;
      var y14 := x0 ^ x3 ^ x4 ^ x5 ^ x9 ^ x11 ^ x14;
      var y15 := x1 ^ x2 ^ x4 ^ x5 ^ x8 ^ x10 ^ x15;
      DiffuseBytes(y0, y1, y2, y3, y4, y5, y6, y7, y8, y9, y10, y11, y12, y13, y14, y15)
        == BlockOf(x0, x1, x2, x3, x4, x5, x6, x7, x8, x9, x10, x11, x12, x13, x14, x15)
  {
    hide Pack;
  }

  lemma DiffuseTwice(x0: bv8, x1: bv8, x2: bv8, x3: bv8, x4: bv8, x5: bv8, x6: bv8, x7: bv8,
    x8: bv8, x9: bv8, x10: bv8, x11: bv8, x12: bv8, x13: bv8, x14: bv8, x15: bv8)
    ensures Diffuse(DiffuseBytes(x0, x1, x2, x3, x4, x5, x6, x7, x8, x9, x10, x11, x12, x13, x14, x15))
         == BlockOf(x0, x1, x2, x3, x4, x5, x6, x7, x8, x9, x10, x11, x12, x13, x14, x15)
  {
    hide Pack, Diffuse;
    var y0 := x3 ^ x4 ^ x6 ^ x8 ^ x9 ^ x13 ^ x14;
    var y1 := x2 ^ x5 ^ x7 ^ x8 ^ x9 ^ x12 ^ x15;
    var y2 := x1 ^ x4 ^ x6 ^ x10 ^ x11 ^ x12 ^ x15;
    var y3 := x0 ^ x5 ^ x7 ^ x10 ^ x11 ^ x13 ^ x14;
    var y4 := x0 ^ x2 ^ x5 ^ x8 ^ x11 ^ x14 ^ x15;
    var y5 := x1 ^ x3 ^ x4 ^ x9 ^ x10 ^ x14 ^ x15;
    var y6 := x0 ^ x2 ^ x7 ^ x9 ^ x10 ^ x12 ^ x13;
    var y7 := x1 ^ x3 ^ x6 ^ x8 ^ x11 ^ x12 ^ x13;
    var y8 := x0 ^ x1 ^ x4 ^ x7 ^ x10 ^ x13 ^ x15;
    var y9 := x0 ^ x1 ^ x5 ^ x6 ^ x11 ^ x12 ^ x14;
    var y10 := x2 ^ x3 ^ x5 ^ x6 ^ x8 ^ x13 ^ x15;
    var y11 := x2 ^ x3 ^ x4 ^ x7 ^ x9 ^ x12 ^ x14;
    var y12 := x1 ^ x2 ^ x6 ^ x7 ^ x9 ^ x11 ^ x12;
    var y13 := x0 ^ x3 ^ x6 ^ x7 ^ x8 ^ x10 ^ x13;
    var y14 := x0 ^ x3 ^ x4 ^ x5 ^ x9 ^ x11 ^ x14;
    var y15 := x1 ^ x2 ^ x4 ^ x5 ^ x8 ^ x10 ^ x15;
    DiffuseBlock(y0, y1, y2, y3, y4, y5, y6, y7, y8, y9, y10, y11, y12, y13, y14, y15);
    MatrixSquared(x0, x1, x2, x3, x4, x5, x6, x7, x8, x9, x10, x11, x12, x13, x14, x15);
  }

  /** A is an involution. */
  lemma DiffuseInvolution(s: State)
    ensures Diffuse(Diffuse(s)) == s
  {
    hide DiffuseBytes, BlockOf, B0, B1, B2, B3;
    DiffuseTwice(B0(s.c0), B1(s.c0), B2(s.c0), B3(s.c0), B0(s.c1), B1(s.c1), B2(s.c1), B3(s.c1),
      B0(s.c2), B1(s.c2), B2(s.c2), B3(s.c2), B0(s.c3), B1(s.c3), B2(s.c3), B3(s.c3));
    BlockOfBytes(s);
  }

  lemma AddRaw(a: bv8, b: bv8)
    ensures Add(a, b) == a ^ b
  {
  }

  lemma MatrixXor(x0: bv8, x1: bv8, x2: bv8, x3: bv8, x4: bv8, x5: bv8, x6: bv8, x7: bv8,
    x8: bv8, x9: bv8, x10: bv8, x11: bv8, x12: bv8, x13: bv8, x14: bv8, x15: bv8,
    z0: bv8, z1: bv8, z2: bv8, z3: bv8, z4: bv8, z5: bv8, z6: bv8, z7: bv8,
    z8: bv8, z9: bv8, z10: bv8, z11: bv8, z12: bv8, z13: bv8, z14: bv8, z15: bv8)
    ensures DiffuseBytes(x0 ^ z0, x1 ^ z1, x2 ^ z2, x3 ^ z3, x4 ^ z4, x5 ^ z5, x6 ^ z6, x7 ^ z7,
              x8 ^ z8, x9 ^ z9, x10 ^ z10, x11 ^ z11, x12 ^ z12, x13 ^ z13, x14 ^ z14, x15 ^ z15)
         == State(
              Pack(Add(x3 ^ x4 ^ x6 ^ x8 ^ x9 ^ x13 ^ x14, z3 ^ z4 ^ z6 ^ z8 ^ z9 ^ z13 ^ z14),
                   Add(x2 ^ x5 ^ x7 ^ x8 ^ x9 ^ x12 ^ x15, z2 ^ z5 ^ z7 ^ z8 ^ z9 ^ z12 ^ z15),
                   Add(x1 ^ x4 ^ x6 ^ x10 ^ x11 ^ x12 ^ x15, z1 ^ z4 ^ z6 ^ z10 ^ z11 ^ z12 ^ z15),
                   Add(x0 ^ x5 ^ x7 ^ x10 ^ x11 ^ x13 ^ x14, z0 ^ z5 ^ z7 ^ z10 ^ z11 ^ z13 ^ z14)),
              Pack(Add(x0 ^ x2 ^ x5 ^ x8 ^ x11 ^ x14 ^ x15, z0 ^ z2 ^ z5 ^ z8 ^ z11 ^ z14 ^ z15),
                   Add(x1 ^ x3 ^ x4 ^ x9 ^ x10 ^ x14 ^ x15, z1 ^ z3 ^ z4 ^ z9 ^ z10 ^ z14 ^ z15),
                   Add(x0 ^ x2 ^ x7 ^ x9 ^ x10 ^ x12 ^ x13, z0 ^ z2 ^ z7 ^ z9 ^ z10 ^ z12 ^ z13),
                   Add(x1 ^ x3 ^ x6 ^ x8 ^ x11 ^ x12 ^ x13, z1 ^ z3 ^ z6 ^ z8 ^ z11 ^ z12 ^ z13)),
              Pack(Add(x0 ^ x1 ^ x4 ^ x7 ^ x10 ^ x13 ^ x15, z0 ^ z1 ^ z4 ^ z7 ^ z10 ^ z13 ^ z15),
                   Add(x0 ^ x1 ^ x5 ^ x6 ^ x11 ^ x12 ^ x14, z0 ^ z1 ^ z5 ^ z6 ^ z11 ^ z12 ^ z14),
                   Add(x2 ^ x3 ^ x5 ^ x6 ^ x8 ^ x13 ^ x15, z2 ^ z3 ^ z5 ^ z6 ^ z8 ^ z13 ^ z15),
                   Add(x2 ^ x3 ^ x4 ^ x7 ^ x9 ^ x12 ^ x14, z2 ^ z3 ^ z4 ^ z7 ^ z9 ^ z12 ^ z14)),
              Pack(Add(x1 ^ x2 ^ x6 ^ x7 ^ x9 ^ x11 ^ x12, z1 ^ z2 ^ z6 ^ z7 ^ z9 ^ z11 ^ z12),
                   Add(x0 ^ x3 ^ x6 ^ x7 ^ x8 ^ x10 ^ x13, z0 ^ z3 ^ z6 ^ z7 ^ z8 ^ z10 ^ z13),
                   Add(x0 ^ x3 ^ x4 ^ x5 ^ x9 ^ x11 ^ x14, z0 ^ z3 ^ z4 ^ z5 ^ z9 ^ z11 ^ z14),
                   Add(x1 ^ x2 ^ x4 ^ x5 ^ x8 ^ x10 ^ x15, z1 ^ z2 ^ z4 ^ z5 ^ z8 ^ z10 ^ z15)))
  {
    hide Pack;
  }

  /** aria_a, assignment by assignment. The byte permutations ARIA_P1: ( A B C D ) -> ( B A D C ) and
      ARIA_P2: ( A B C D ) -> ( C D A B ) are written out, so that the solver sees one expression over bits. */
  function AriaAWords(a: bv32, b: bv32, c: bv32, d: bv32): State {
    var ta := b;
    var b := a;
    var a := ((ta >> 16) ^ (ta << 16));
    var tb := ((d >> 16) ^ (d << 16));
    var d := (((c >> 8) & 0x00FF_00FF) ^ ((c & 0x00FF_00FF) << 8));
    var c := (((tb >> 8) & 0x00FF_00FF) ^ ((tb & 0x00FF_00FF) << 8));
    var ta := ta ^ d;
    var tc := ((b >> 16) ^ (b << 16));
    var ta := (((ta >> 8) & 0x00FF_00FF) ^ ((ta & 0x00FF_00FF) << 8)) ^ tc ^ c;
    var tb := tb ^ ((d >> 16) ^ (d << 16));
    var tc := tc ^ (((a >> 8) & 0x00FF_00FF) ^ ((a & 0x00FF_00FF) << 8));
    var b := b ^ (ta ^ tb);
    var tb := ((tb >> 16) ^ (tb << 16)) ^ ta;
    var a := a ^ (((tb >> 8) & 0x00FF_00FF) ^ ((tb & 0x00FF_00FF) << 8));
    var ta := ((ta >> 16) ^ (ta << 16));
    var d := d ^ ((((ta >> 8) & 0x00FF_00FF) ^ ((ta & 0x00FF_00FF) << 8)) ^ tc);
    var tc := ((tc >> 16) ^ (tc << 16));
    var c := c ^ ((((tc >> 8) & 0x00FF_00FF) ^ ((tc & 0x00FF_00FF) << 8)) ^ ta);
    State(a, b, c, d)
  }

  /** The code on words made of bytes. */
  lemma CodeOnBytes(x0: bv8, x1: bv8, x2: bv8, x3: bv8, x4: bv8, x5: bv8, x6: bv8, x7: bv8,
    x8: bv8, x9: bv8, x10: bv8, x11: bv8, x12: bv8, x13: bv8, x14: bv8, x15: bv8)
    ensures
      var y0 := x3 ^ x4 ^ x6 ^ x8 ^ x9 ^ x13 ^ x14;
      var y1 := x2 ^ x5 ^ x7 ^ x8 ^ x9 ^ x12 ^ x15;
      var y2 := x1 ^ x4 ^ x6 ^ x10 ^ x11 ^ x12 ^ x15;
      var y3 := x0 ^ x5 ^ x7 ^ x10 ^ x11 ^ x13 ^ x14;
      var y4 := x0 ^ x2 ^ x5 ^ x8 ^ x11 ^ x14 ^ x15;
      var y5 := x1 ^ x3 ^ x4 ^ x9 ^ x10 ^ x14 ^ x15;
      var y6 := x0 ^ x2 ^ x7 ^ x9 ^ x10 ^ x12 ^ x13;
      var y7 := x1 ^ x3 ^ x6 ^ x8 ^ x11 ^ x12 ^ x13;
      var y8 := x0 ^ x1 ^ x4 ^ x7 ^ x10 ^ x13 ^ x15;
      var y9 := x0 ^ x1 ^ x5 ^ x6 ^ x11 ^ x12 ^ x14;
      var y10 := x2 ^ x3 ^ x5 ^ x6 ^ x8 ^ x13 ^ x15;
      var y11 := x2 ^ x3 ^ x4 ^ x7 ^ x9 ^ x12 ^ x14;
      var y12 := x1 ^ x2 ^ x6 ^ x7 ^ x9 ^ x11 ^ x12;
      var y13 := x0 ^ x3 ^ x6 ^ x7 ^ x8 ^ x10 ^ x13;
      var y14 := x0 ^ x3 ^ x4 ^ x5 ^ x9 ^ x11 ^ x14;
      var y15 := x1 ^ x2 ^ x4 ^ x5 ^ x8 ^ x10 ^ x15;
      var a := (x0 as bv32) ^ ((x1 as bv32) << 8) ^ ((x2 as bv32) << 16) ^ ((x3 as bv32) << 24);
      var b := (x4 as bv32) ^ ((x5 as bv32) << 8) ^ ((x6 as bv32) << 16) ^ ((x7 as bv32) << 24);
      var c := (x8 as bv32) ^ ((x9 as bv32) << 8) ^ ((x10 as bv32) << 16) ^ ((x11 as bv32) << 24);
      var d := (x12 as bv32) ^ ((x13 as bv32) << 8) ^ ((x14 as bv32) << 16) ^ ((x15 as bv32) << 24);
      AriaAWords(a, b, c, d) == State(
        (y0 as bv32) ^ ((y1 as bv32) << 8) ^ ((y2 as bv32) << 16) ^ ((y3 as bv32) << 24),
        (y4 as bv32) ^ ((y5 as bv32) << 8) ^ ((y6 as bv32) << 16) ^ ((y7 as bv32) << 24),
        (y8 as bv32) ^ ((y9 as bv32) << 8) ^ ((y10 as bv32) << 16) ^ ((y11 as bv32) << 24),
        (y12 as bv32) ^ ((y13 as bv32) << 8) ^ ((y14 as bv32) << 16) ^ ((y15 as bv32) << 24))
  {
  }

  lemma PackRaw(a: bv8, b: bv8, c: bv8, d: bv8)
    ensures Pack(a, b, c, d) == (a as bv32) ^ ((b as bv32) << 8) ^ ((c as bv32) << 16) ^ ((d as bv32) << 24)
  {
  }

  lemma CodeOnBlock(x0: bv8, x1: bv8, x2: bv8, x3: bv8, x4: bv8, x5: bv8, x6: bv8, x7: bv8,
    x8: bv8, x9: bv8, x10: bv8, x11: bv8, x12: bv8, x13: bv8, x14: bv8, x15: bv8)
    ensures var s := BlockOf(x0, x1, x2, x3, x4, x5, x6, x7, x8, x9, x10, x11, x12, x13, x14, x15);
            AriaAWords(s.c0, s.c1, s.c2, s.c3) == DiffuseBytes(x0, x1, x2, x3, x4, x5, x6, x7, x8, x9, x10, x11, x12, x13, x14, x15)
  {
    hide Pack, AriaAWords;
    var y0 := x3 ^ x4 ^ x6 ^ x8 ^ x9 ^ x13 ^ x14;
    var y1 := x2 ^ x5 ^ x7 ^ x8 ^ x9 ^ x12 ^ x15;
    var y2 := x1 ^ x4 ^ x6 ^ x10 ^ x11 ^ x12 ^ x15;
    var y3 := x0 ^ x5 ^ x7 ^ x10 ^ x11 ^ x13 ^ x14;
    var y4 := x0 ^ x2 ^ x5 ^ x8 ^ x11 ^ x14 ^ x15;
    var y5 := x1 ^ x3 ^ x4 ^ x9 ^ x10 ^ x14 ^ x15;
    var y6 := x0 ^ x2 ^ x7 ^ x9 ^ x10 ^ x12 ^ x13;
    var y7 := x1 ^ x3 ^ x6 ^ x8 ^ x11 ^ x12 ^ x13;
    var y8 := x0 ^ x1 ^ x4 ^ x7 ^ x10 ^ x13 ^ x15;
    var y9 := x0 ^ x1 ^ x5 ^ x6 ^ x11 ^ x12 ^ x14;
    var y10 := x2 ^ x3 ^ x5 ^ x6 ^ x8 ^ x13 ^ x15;
    var y11 := x2 ^ x3 ^ x4 ^ x7 ^ x9 ^ x12 ^ x14;
    var y12 := x1 ^ x2 ^ x6 ^ x7 ^ x9 ^ x11 ^ x12;
    var y13 := x0 ^ x3 ^ x6 ^ x7 ^ x8 ^ x10 ^ x13;
    var y14 := x0 ^ x3 ^ x4 ^ x5 ^ x9 ^ x11 ^ x14;
    var y15 := x1 ^ x2 ^ x4 ^ x5 ^ x8 ^ x10 ^ x15;
    PackRaw(x0, x1, x2, x3);
    PackRaw(x4, x5, x6, x7);
    PackRaw(x8, x9, x10, x11);
    PackRaw(x12, x13, x14, x15);
    PackRaw(y0, y1, y2, y3);
    PackRaw(y4, y5, y6, y7);
    PackRaw(y8, y9, y10, y11);
    PackRaw(y12, y13, y14, y15);
    CodeOnBytes(x0, x1, x2, x3, x4, x5, x6, x7, x8, x9, x10, x11, x12, x13, x14, x15);
  }

  /** The code computes the matrix of the standard. */
  lemma CodeIsDiffuse(s: State)
    ensures AriaAWords(s.c0, s.c1, s.c2, s.c3) == Diffuse(s)
  {
    hide AriaAWords, DiffuseBytes, BlockOf, B0, B1, B2, B3;
    CodeOnBlock(B0(s.c0), B1(s.c0), B2(s.c0), B3(s.c0), B0(s.c1), B1(s.c1), B2(s.c1), B3(s.c1),
      B0(s.c2), B1(s.c2), B2(s.c2), B3(s.c2), B0(s.c3), B1(s.c3), B2(s.c3), B3(s.c3));
    BlockOfBytes(s);
  }

  /** aria_a on the state. */
  function AriaA(s: State): (r: State)
    ensures r == Diffuse(s)
  {
    hide AriaAWords, Diffuse;
    CodeIsDiffuse(s);
    AriaAWords(s.c0, s.c1, s.c2, s.c3)
  }

  lemma DiffuseAdd(x0: bv8, x1: bv8, x2: bv8, x3: bv8, x4: bv8, x5: bv8, x6: bv8, x7: bv8,
    x8: bv8, x9: bv8, x10: bv8, x11: bv8, x12: bv8, x13: bv8, x14: bv8, x15: bv8,
    z0: bv8, z1: bv8, z2: bv8, z3: bv8, z4: bv8, z5: bv8, z6: bv8, z7: bv8,
    z8: bv8, z9: bv8, z10: bv8, z11: bv8, z12: bv8, z13: bv8, z14: bv8, z15: bv8)
    ensures DiffuseBytes(Add(x0, z0), Add(x1, z1), Add(x2, z2), Add(x3, z3), Add(x4, z4), Add(x5, z5), Add(x6, z6), Add(x7, z7),
              Add(x8, z8), Add(x9, z9), Add(x10, z10), Add(x11, z11), Add(x12, z12), Add(x13, z13), Add(x14, z14), Add(x15, z15))
         == AddKey(DiffuseBytes(x0, x1, x2, x3, x4, x5, x6, x7, x8, x9, x10, x11, x12, x13, x14, x15),
                   DiffuseBytes(z0, z1, z2, z3, z4, z5, z6, z7, z8, z9, z10, z11, z12, z13, z14, z15))
  {
    hide Pack, Add, Xor;
    AddRaw(x0, z0); AddRaw(x1, z1); AddRaw(x2, z2); AddRaw(x3, z3);
    AddRaw(x4, z4); AddRaw(x5, z5); AddRaw(x6, z6); AddRaw(x7, z7);
    AddRaw(x8, z8); AddRaw(x9, z9); AddRaw(x10, z10); AddRaw(x11, z11);
    AddRaw(x12, z12); AddRaw(x13, z13); AddRaw(x14, z14); AddRaw(x15, z15);
    MatrixXor(x0, x1, x2, x3, x4, x5, x6, x7, x8, x9, x10, x11, x12, x13, x14, x15,
      z0, z1, z2, z3, z4, z5, z6, z7, z8, z9, z10, z11, z12, z13, z14, z15);
    XorOfPack(x3 ^ x4 ^ x6 ^ x8 ^ x9 ^ x13 ^ x14, x2 ^ x5 ^ x7 ^ x8 ^ x9 ^ x12 ^ x15, x1 ^ x4 ^ x6 ^ x10 ^ x11 ^ x12 ^ x15, x0 ^ x5 ^ x7 ^ x10 ^ x11 ^ x13 ^ x14,
      z3 ^ z4 ^ z6 ^ z8 ^ z9 ^ z13 ^ z14, z2 ^ z5 ^ z7 ^ z8 ^ z9 ^ z12 ^ z15, z1 ^ z4 ^ z6 ^ z10 ^ z11 ^ z12 ^ z15, z0 ^ z5 ^ z7 ^ z10 ^ z11 ^ z13 ^ z14);
    XorOfPack(x0 ^ x2 ^ x5 ^ x8 ^ x11 ^ x14 ^ x15, x1 ^ x3 ^ x4 ^ x9 ^ x10 ^ x14 ^ x15, x0 ^ x2 ^ x7 ^ x9 ^ x10 ^ x12 ^ x13, x1 ^ x3 ^ x6 ^ x8 ^ x11 ^ x12 ^ x13,
      z0 ^ z2 ^ z5 ^ z8 ^ z11 ^ z14 ^ z15, z1 ^ z3 ^ z4 ^ z9 ^ z10 ^ z14 ^ z15, z0 ^ z2 ^ z7 ^ z9 ^ z10 ^ z12 ^ z13, z1 ^ z3 ^ z6 ^ z8 ^ z11 ^ z12 ^ z13);
    XorOfPack(x0 ^ x1 ^ x4 ^ x7 ^ x10 ^ x13 ^ x15, x0 ^ x1 ^ x5 ^ x6 ^ x11 ^ x12 ^ x14, x2 ^ x3 ^ x5 ^ x6 ^ x8 ^ x13 ^ x15, x2 ^ x3 ^ x4 ^ x7 ^ x9 ^ x12 ^ x14,
      z0 ^ z1 ^ z4 ^ z7 ^ z10 ^ z13 ^ z15, z0 ^ z1 ^ z5 ^ z6 ^ z11 ^ z12 ^ z14, z2 ^ z3 ^ z5 ^ z6 ^ z8 ^ z13 ^ z15, z2 ^ z3 ^ z4 ^ z7 ^ z9 ^ z12 ^ z14);
    XorOfPack(x1 ^ x2 ^ x6 ^ x7 ^ x9 ^ x11 ^ x12, x0 ^ x3 ^ x6 ^ x7 ^ x8 ^ x10 ^ x13, x0 ^ x3 ^ x4 ^ x5 ^ x9 ^ x11 ^ x14, x1 ^ x2 ^ x4 ^ x5 ^ x8 ^ x10 ^ x15,
      z1 ^ z2 ^ z6 ^ z7 ^ z9 ^ z11 ^ z12, z0 ^ z3 ^ z6 ^ z7 ^ z8 ^ z10 ^ z13, z0 ^ z3 ^ z4 ^ z5 ^ z9 ^ z11 ^ z14, z1 ^ z2 ^ z4 ^ z5 ^ z8 ^ z10 ^ z15);
  }

  /** A is linear. */
  lemma DiffuseLinear(s: State, k: State)
    ensures Diffuse(AddKey(s, k)) == AddKey(Diffuse(s), Diffuse(k))
  {
    hide DiffuseBytes, B0, B1, B2, B3, Xor, Add;
    BytesOfXor(s.c0, k.c0);
    BytesOfXor(s.c1, k.c1);
    BytesOfXor(s.c2, k.c2);
    BytesOfXor(s.c3, k.c3);
    DiffuseAdd(B0(s.c0), B1(s.c0), B2(s.c0), B3(s.c0), B0(s.c1), B1(s.c1), B2(s.c1), B3(s.c1),
      B0(s.c2), B1(s.c2), B2(s.c2), B3(s.c2), B0(s.c3), B1(s.c3), B2(s.c3), B3(s.c3),
      B0(k.c0), B1(k.c0), B2(k.c0), B3(k.c0), B0(k.c1), B1(k.c1), B2(k.c1), B3(k.c1),
      B0(k.c2), B1(k.c2), B2(k.c2), B3(k.c2), B0(k.c3), B1(k.c3), B2(k.c3), B3(k.c3));
  }

  // ---------------------------------------------------------------- the substitution layers

  function SlWord(sa: bv8 -> bv8, sb: bv8 -> bv8, sc: bv8 -> bv8, sd: bv8 -> bv8, w: bv32): bv32 {
    Pack(sa(B0(w)), sb(B1(w)), sc(B2(w)), sd(B3(w)))
  }

  /** aria_sl with four boxes. */
  function AriaSl(sa: bv8 -> bv8, sb: bv8 -> bv8, sc: bv8 -> bv8, sd: bv8 -> bv8, s: State): State {
    State(SlWord(sa, sb, sc, sd, s.c0), SlWord(sa, sb, sc, sd, s.c1), SlWord(sa, sb, sc, sd, s.c2), SlWord(sa, sb, sc, sd, s.c3))
  }

  /** SL1 in the rounds with an even number, counted from 0, and SL2 in the others. */
  function Sl(even: bool, s: State): State {
    if even then AriaSl(Sb1, Sb2, Is1, Is2, s) else AriaSl(Is1, Is2, Sb1, Sb2, s)
  }

  lemma SlWordInverse(w: bv32)
    ensures SlWord(Is1, Is2, Sb1, Sb2, SlWord(Sb1, Sb2, Is1, Is2, w)) == w
    ensures SlWord(Sb1, Sb2, Is1, Is2, SlWord(Is1, Is2, Sb1, Sb2, w)) == w
  {
    hide Pack, B0, B1, B2, B3, Sb1, Sb2, Is1, Is2;
    BytesOfPack(Sb1(B0(w)), Sb2(B1(w)), Is1(B2(w)), Is2(B3(w)));
    BytesOfPack(Is1(B0(w)), Is2(B1(w)), Sb1(B2(w)), Sb2(B3(w)));
    FirstBoxes(B0(w));
    SecondBoxes(B1(w));
    FirstBoxes(B2(w));
    SecondBoxes(B3(w));
    PackOfBytes(w);
  }

  /** SL1 and SL2 are inverse to each other. */
  lemma SlInverse(even: bool, s: State)
    ensures Sl(!even, Sl(even, s)) == s
  {
    hide SlWord;
    SlWordInverse(s.c0);
    SlWordInverse(s.c1);
    SlWordInverse(s.c2);
    SlWordInverse(s.c3);
  }

  // ---------------------------------------------------------------- the cipher

  function Even(i: nat): bool { i % 2 == 0 }

  /** The state after i full rounds. */
  function Rounds(rk: seq<State>, i: nat, s: State): State
    requires i <= |rk|
    decreases i
  {
    if i == 0 then s else Diffuse(Sl(Even(i - 1), AddKey(Rounds(rk, i - 1, s), rk[i - 1])))
  }

  /** nr rounds, the last without A and with a second key. */
  function Crypt(nr: nat, rk: seq<State>, s: State): State
    requires 0 < nr < |rk|
  {
    AddKey(Sl(Even(nr - 1), AddKey(Rounds(rk, nr - 1, s), rk[nr - 1])), rk[nr])
  }

  /** The schedule of setkey_dec: in reverse, the middle keys through A. */
  ghost predicate IsDecSchedule(dk: seq<State>, rk: seq<State>, nr: nat) {
    && 0 < nr < |rk| == |dk|
    && dk[0] == rk[nr] && dk[nr] == rk[0]
    && forall i :: 0 < i < nr ==> dk[i] == Diffuse(rk[nr - i])
  }

  lemma RoundsNext(rk: seq<State>, i: nat, s: State)
    requires i < |rk|
    ensures Rounds(rk, i + 1, s) == Diffuse(Sl(Even(i), AddKey(Rounds(rk, i, s), rk[i])))
  {
  }

  /** A round in the bytes of the state: key, the four tables in the order of its layer, and the matrix. */
  lemma RoundIs(rk: seq<State>, i: nat, s: State)
    requires i < |rk|
    ensures Rounds(rk, 0, s) == s
    ensures var x, k := Rounds(rk, i, s), rk[i];
            var w := State(Xor(x.c0, k.c0), Xor(x.c1, k.c1), Xor(x.c2, k.c2), Xor(x.c3, k.c3));
            && (i % 2 == 0 ==> Rounds(rk, i + 1, s) == DiffuseBytes(
              Sb1(B0(w.c0)), Sb2(B1(w.c0)), Is1(B2(w.c0)), Is2(B3(w.c0)),
              Sb1(B0(w.c1)), Sb2(B1(w.c1)), Is1(B2(w.c1)), Is2(B3(w.c1)),
              Sb1(B0(w.c2)), Sb2(B1(w.c2)), Is1(B2(w.c2)), Is2(B3(w.c2)),
              Sb1(B0(w.c3)), Sb2(B1(w.c3)), Is1(B2(w.c3)), Is2(B3(w.c3))))
            && (i % 2 == 1 ==> Rounds(rk, i + 1, s) == DiffuseBytes(
              Is1(B0(w.c0)), Is2(B1(w.c0)), Sb1(B2(w.c0)), Sb2(B3(w.c0)),
              Is1(B0(w.c1)), Is2(B1(w.c1)), Sb1(B2(w.c1)), Sb2(B3(w.c1)),
              Is1(B0(w.c2)), Is2(B1(w.c2)), Sb1(B2(w.c2)), Sb2(B3(w.c2)),
              Is1(B0(w.c3)), Is2(B1(w.c3)), Sb1(B2(w.c3)), Sb2(B3(w.c3))))
  {
    hide Xor, Pack, B0, B1, B2, B3, Sb1, Sb2, Is1, Is2, DiffuseBytes, Rounds;
    StartOfRounds(rk, s);
    RoundsNext(rk, i, s);
    var w := AddKey(Rounds(rk, i, s), rk[i]);
    SlBytes(w);
  }

  /** The two layers as blocks of bytes, and A on them. */
  lemma SlBytes(w: State)
    ensures Diffuse(Sl(true, w)) == DiffuseBytes(
              Sb1(B0(w.c0)), Sb2(B1(w.c0)), Is1(B2(w.c0)), Is2(B3(w.c0)),
              Sb1(B0(w.c1)), Sb2(B1(w.c1)), Is1(B2(w.c1)), Is2(B3(w.c1)),
              Sb1(B0(w.c2)), Sb2(B1(w.c2)), Is1(B2(w.c2)), Is2(B3(w.c2)),
              Sb1(B0(w.c3)), Sb2(B1(w.c3)), Is1(B2(w.c3)), Is2(B3(w.c3)))
    ensures Diffuse(Sl(false, w)) == DiffuseBytes(
              Is1(B0(w.c0)), Is2(B1(w.c0)), Sb1(B2(w.c0)), Sb2(B3(w.c0)),
              Is1(B0(w.c1)), Is2(B1(w.c1)), Sb1(B2(w.c1)), Sb2(B3(w.c1)),
              Is1(B0(w.c2)), Is2(B1(w.c2)), Sb1(B2(w.c2)), Sb2(B3(w.c2)),
              Is1(B0(w.c3)), Is2(B1(w.c3)), Sb1(B2(w.c3)), Sb2(B3(w.c3)))
  {
    hide Pack, B0, B1, B2, B3, Sb1, Sb2, Is1, Is2, DiffuseBytes, Diffuse;
    DiffuseBlock(Sb1(B0(w.c0)), Sb2(B1(w.c0)), Is1(B2(w.c0)), Is2(B3(w.c0)),
      Sb1(B0(w.c1)), Sb2(B1(w.c1)), Is1(B2(w.c1)), Is2(B3(w.c1)),
      Sb1(B0(w.c2)), Sb2(B1(w.c2)), Is1(B2(w.c2)), Is2(B3(w.c2)),
      Sb1(B0(w.c3)), Sb2(B1(w.c3)), Is1(B2(w.c3)), Is2(B3(w.c3)));
    DiffuseBlock(Is1(B0(w.c0)), Is2(B1(w.c0)), Sb1(B2(w.c0)), Sb2(B3(w.c0)),
      Is1(B0(w.c1)), Is2(B1(w.c1)), Sb1(B2(w.c1)), Sb2(B3(w.c1)),
      Is1(B0(w.c2)), Is2(B1(w.c2)), Sb1(B2(w.c2)), Sb2(B3(w.c2)),
      Is1(B0(w.c3)), Is2(B1(w.c3)), Sb1(B2(w.c3)), Sb2(B3(w.c3)));
  }

  /** The last round: the second layer, and a second key in place of the matrix. */
  lemma CryptIs(nr: nat, rk: seq<State>, s: State)
    requires 0 < nr < |rk| && nr % 2 == 0
    ensures var x, k := Rounds(rk, nr - 1, s), rk[nr - 1];
            var w := State(Xor(x.c0, k.c0), Xor(x.c1, k.c1), Xor(x.c2, k.c2), Xor(x.c3, k.c3));
            Crypt(nr, rk, s) == State(
              Xor(Pack(Is1(B0(w.c0)), Is2(B1(w.c0)), Sb1(B2(w.c0)), Sb2(B3(w.c0))), rk[nr].c0),
              Xor(Pack(Is1(B0(w.c1)), Is2(B1(w.c1)), Sb1(B2(w.c1)), Sb2(B3(w.c1))), rk[nr].c1),
              Xor(Pack(Is1(B0(w.c2)), Is2(B1(w.c2)), Sb1(B2(w.c2)), Sb2(B3(w.c2))), rk[nr].c2),
              Xor(Pack(Is1(B0(w.c3)), Is2(B1(w.c3)), Sb1(B2(w.c3)), Sb2(B3(w.c3))), rk[nr].c3))
  {
    hide Xor, Pack, B0, B1, B2, B3, Sb1, Sb2, Is1, Is2, Rounds;
  }

  /** The key and the substitution of one round undone, from inside A. */
  lemma RoundBack(even: bool, x: State, k: State)
    ensures AddKey(Diffuse(Sl(!even, Sl(even, AddKey(x, k)))), Diffuse(k)) == Diffuse(x)
  {
    hide Sl, AddKey, Diffuse;
    SlInverse(even, AddKey(x, k));
    DiffuseLinear(x, k);
    AddKeyCancel(Diffuse(x), Diffuse(k));
  }

  lemma {:induction false} RoundsBack(nr: nat, rk: seq<State>, dk: seq<State>, n: nat, s: State)
    requires nr % 2 == 0 && IsDecSchedule(dk, rk, nr) && n < nr
    ensures AddKey(Rounds(dk, n, Crypt(nr, rk, s)), dk[n])
         == Sl(Even(nr - 1 - n), AddKey(Rounds(rk, nr - 1 - n, s), rk[nr - 1 - n]))
    decreases n
  {
    hide Sl, AddKey, Diffuse, Rounds;
    if n == 0 {
      StartOfRounds(dk, Crypt(nr, rk, s));
      AddKeyCancel(Sl(Even(nr - 1), AddKey(Rounds(rk, nr - 1, s), rk[nr - 1])), rk[nr]);
    } else {
      var m := nr - n;
      RoundsBack(nr, rk, dk, n - 1, s);
      RoundsNext(dk, n - 1, Crypt(nr, rk, s));
      assert Even(n - 1) == !Even(m);
      RoundBack(Even(m), Rounds(rk, m, s), rk[m]);
      RoundsNext(rk, m - 1, s);
      DiffuseInvolution(Sl(Even(m - 1), AddKey(Rounds(rk, m - 1, s), rk[m - 1])));
    }
  }

  lemma StartOfRounds(rk: seq<State>, s: State)
    ensures Rounds(rk, 0, s) == s
  {
  }

  /** Section 2.4.3 of RFC 5794: decryption is encryption under the transformed keys. */
  lemma DecryptUndoesEncrypt(nr: nat, rk: seq<State>, dk: seq<State>, s: State)
    requires nr % 2 == 0 && IsDecSchedule(dk, rk, nr)
    ensures Crypt(nr, dk, Crypt(nr, rk, s)) == s
  {
    hide Sl, AddKey, Diffuse, Rounds;
    RoundsBack(nr, rk, dk, nr - 1, s);
    StartOfRounds(rk, s);
    assert Even(nr - 1) == !Even(0);
    SlInverse(Even(0), AddKey(s, rk[0]));
    AddKeyCancel(s, rk[0]);
  }

  // ---------------------------------------------------------------- the code

  /** The second half of mbedtls_aria_setkey_dec: flip the round keys in place, then A on the middle ones. */
  method InvertKeys(rk: array<State>, nr: nat)
    requires 0 < nr < rk.Length
    modifies rk
    ensures IsDecSchedule(rk[..], old(rk[..]), nr)
  {
    hide Diffuse;
    FlipKeys(rk, nr);
    ghost var flipped := rk[..];
    var i := 1;
    while i < nr
      invariant 1 <= i <= nr
      invariant forall k :: 0 <= k < rk.Length ==> rk[k] == if 0 < k < i then Diffuse(flipped[k]) else flipped[k]
    {
      rk[i] := AriaA(rk[i]);
      i := i + 1;
    }
  }

  method FlipKeys(rk: array<State>, nr: nat)
    requires nr < rk.Length
    modifies rk
    ensures forall k :: 0 <= k <= nr ==> rk[k] == old(rk[..])[nr - k]
    ensures forall k :: nr < k < rk.Length ==> rk[k] == old(rk[..])[k]
  {
    var i, j := 0, nr;
    while i < j
      invariant 0 <= i <= nr && j == nr - i && i <= j + 1
      invariant forall k :: 0 <= k < i || j < k <= nr ==> rk[k] == old(rk[..])[nr - k]
      invariant forall k :: i <= k <= j || nr < k < rk.Length ==> rk[k] == old(rk[..])[k]
    {
      rk[i], rk[j] := rk[j], rk[i];
      i, j := i + 1, j - 1;
    }
  }

  /** mbedtls_aria_crypt_ecb on words: two rounds a turn. */
  method CryptBlock(nr: nat, rk: seq<State>, x: State) returns (s: State)
    requires 0 < nr < |rk| && nr % 2 == 0
    ensures s == Crypt(nr, rk, x)
  {
    hide Sl, AddKey, Diffuse, Rounds;
    s := x;
    StartOfRounds(rk, x);
    var i := 0;
    while true
      invariant 0 <= i < nr && i % 2 == 0
      invariant s == Rounds(rk, i, x)
      decreases nr - i
    {
      RoundsNext(rk, i, x);
      s := AddKey(s, rk[i]);
      i := i + 1;
      s := Sl(true, s);
      s := AriaA(s);
      s := AddKey(s, rk[i]);
      i := i + 1;
      s := Sl(false, s);
      if i >= nr { break; }
      RoundsNext(rk, i - 1, x);
      s := AriaA(s);
    }
    s := AddKey(s, rk[i]);
  }
}
