/** 32-bit words as four bytes, and 128-bit states as four words. */
module Words {
  import opened Gf256

  // ---------------------------------------------------------------- words

  function Pack(a: bv8, b: bv8, c: bv8, d: bv8): bv32 {
    (a as bv32) ^ ((b as bv32) << 8) ^ ((c as bv32) << 16) ^ ((d as bv32) << 24)
  }

  function B0(w: bv32): bv8 { (w & 0xFF) as bv8 }
  function B1(w: bv32): bv8 { ((w >> 8) & 0xFF) as bv8 }
  function B2(w: bv32): bv8 { ((w >> 16) & 0xFF) as bv8 }
  function B3(w: bv32): bv8 { ((w >> 24) & 0xFF) as bv8 }

  function Xor(v: bv32, w: bv32): bv32 {
    v ^ w
  }

  function Rotl8(w: bv32): bv32 {
    (w << 8) | (w >> 24)
  }

  lemma BytesOfPack(a: bv8, b: bv8, c: bv8, d: bv8)
    ensures var w := Pack(a, b, c, d); B0(w) == a && B1(w) == b && B2(w) == c && B3(w) == d
  {
  }

  lemma PackOfBytes(w: bv32)
    ensures Pack(B0(w), B1(w), B2(w), B3(w)) == w
  {
  }

  lemma BytesOfXor(v: bv32, w: bv32)
    ensures B0(Xor(v, w)) == Add(B0(v), B0(w)) && B1(Xor(v, w)) == Add(B1(v), B1(w))
    ensures B2(Xor(v, w)) == Add(B2(v), B2(w)) && B3(Xor(v, w)) == Add(B3(v), B3(w))
  {
    hide Xor, Pack, B0, B1, B2, B3, Add;
    PackOfBytes(v);
    PackOfBytes(w);
    XorOfPack(B0(v), B1(v), B2(v), B3(v), B0(w), B1(w), B2(w), B3(w));
    BytesOfPack(Add(B0(v), B0(w)), Add(B1(v), B1(w)), Add(B2(v), B2(w)), Add(B3(v), B3(w)));
  }

  lemma XorOfPack(a: bv8, b: bv8, c: bv8, d: bv8, a': bv8, b': bv8, c': bv8, d': bv8)
    ensures Xor(Pack(a, b, c, d), Pack(a', b', c', d')) == Pack(Add(a, a'), Add(b, b'), Add(c, c'), Add(d, d'))
  {
  }

  lemma Rotl8OfPack(a: bv8, b: bv8, c: bv8, d: bv8)
    ensures Rotl8(Pack(a, b, c, d)) == Pack(d, a, b, c)
  {
  }

  lemma XorCancel(v: bv32, w: bv32)
    ensures Xor(Xor(v, w), w) == v && Xor(v, w) == Xor(w, v)
  {
  }

  // ---------------------------------------------------------------- states

  /** A block as four little-endian words. */
  datatype State = State(c0: bv32, c1: bv32, c2: bv32, c3: bv32)

  function AddKey(s: State, k: State): State {
    State(Xor(s.c0, k.c0), Xor(s.c1, k.c1), Xor(s.c2, k.c2), Xor(s.c3, k.c3))
  }

  lemma AddKeyCancel(s: State, k: State)
    ensures AddKey(AddKey(s, k), k) == s
  {
    hide Xor;
    XorCancel(s.c0, k.c0);
    XorCancel(s.c1, k.c1);
    XorCancel(s.c2, k.c2);
    XorCancel(s.c3, k.c3);
  }
}
