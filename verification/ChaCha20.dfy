/** The stream cipher context of mbedtls/library/chacha20.c over an arbitrary block function. */
module ChaCha20 {
  import opened Arith
  import opened Limbs
  import opened Bytes

  const WRAP: nat := 0x1_0000_0000

  /** chacha20_block under one key: 64 bytes of key stream for a nonce and a 32-bit counter. */
  datatype Generator = Generator(block: (seq<Byte>, nat) -> seq<Byte>) {
    ghost predicate Valid() {
      forall n: seq<Byte>, c: nat :: |block(n, c)| == 64
    }

    /** Byte i of the key stream that starts with block c0; the counter wraps. */
    function At(n: seq<Byte>, c0: nat, i: nat): Byte
      requires Valid()
    {
      block(n, (c0 + i / 64) % WRAP)[i % 64]
    }
  }

  /** data with the key stream from byte pos on. */
  function XorStream(g: Generator, n: seq<Byte>, c0: nat, pos: nat, data: seq<Byte>): (r: seq<Byte>)
    requires g.Valid()
    ensures |r| == |data|
  {
    seq(|data|, i requires 0 <= i < |data| => XorByte(data[i], g.At(n, c0, pos + i)))
  }

  lemma XorStreamConcat(g: Generator, n: seq<Byte>, c0: nat, pos: nat, a: seq<Byte>, b: seq<Byte>)
    requires g.Valid()
    ensures XorStream(g, n, c0, pos, a + b) == XorStream(g, n, c0, pos, a) + XorStream(g, n, c0, pos + |a|, b)
  {
    hide Generator.At, XorByte;
  }

  lemma XorStreamInverse(g: Generator, n: seq<Byte>, c0: nat, pos: nat, data: seq<Byte>)
    requires g.Valid()
    ensures XorStream(g, n, c0, pos, XorStream(g, n, c0, pos, data)) == data
  {
    hide Generator.At, BitXor;
    forall i | 0 <= i < |data|
      ensures XorByte(XorByte(data[i], g.At(n, c0, pos + i)), g.At(n, c0, pos + i)) == data[i]
    {
      XorCancel(data[i], g.At(n, c0, pos + i));
    }
  }

  /** Where the key stream stands after pos bytes: used bytes of the current block are gone. */
  ghost predicate InStep(g: Generator, n: seq<Byte>, c0: nat, pos: nat, counter: nat, keystream: seq<Byte>, used: nat) {
    && g.Valid() && used <= 64
    && if used < 64 then
         pos % 64 == used && counter == (c0 + pos / 64 + 1) % WRAP && keystream == g.block(n, (c0 + pos / 64) % WRAP)
       else
         pos % 64 == 0 && counter == (c0 + pos / 64) % WRAP
  }

  lemma UseByte(g: Generator, n: seq<Byte>, c0: nat, pos: nat, counter: nat, keystream: seq<Byte>, used: nat)
    requires InStep(g, n, c0, pos, counter, keystream, used) && used < 64
    ensures |keystream| == 64 && keystream[used] == g.At(n, c0, pos)
    ensures InStep(g, n, c0, pos + 1, counter, keystream, used + 1)
  {
    if used < 63 {
      assert (pos + 1) % 64 == used + 1 && (pos + 1) / 64 == pos / 64;
    } else {
      assert (pos + 1) % 64 == 0 && (pos + 1) / 64 == pos / 64 + 1;
    }
  }

  /** A fresh block, of which k bytes are used at once. */
  lemma UseBlock(g: Generator, n: seq<Byte>, c0: nat, pos: nat, counter: nat, keystream: seq<Byte>, data: seq<Byte>)
    requires InStep(g, n, c0, pos, counter, keystream, 64) && |data| <= 64
    ensures var b := g.block(n, counter);
            |b| == 64 && XorSeq(data, b) == XorStream(g, n, c0, pos, data)
            && (0 < |data| ==> InStep(g, n, c0, pos + |data|, (counter + 1) % WRAP, b, |data|))
  {
    hide XorByte;
    var b := g.block(n, counter);
    forall i | 0 <= i < |data|
      ensures b[i] == g.At(n, c0, pos + i)
    {
      assert (pos + i) / 64 == pos / 64 && (pos + i) % 64 == i;
    }
    var c := c0 + pos / 64;
    CounterNext(c);
    if |data| < 64 {
      assert (pos + |data|) / 64 == pos / 64 && (pos + |data|) % 64 == |data|;
    } else {
      assert (pos + 64) / 64 == pos / 64 + 1 && (pos + 64) % 64 == 0;
    }
  }

  lemma CounterNext(c: nat)
    ensures (c % WRAP + 1) % WRAP == (c + 1) % WRAP
  {
  }

  /** mbedtls_chacha20_context; pos counts the bytes since starts. */
  class Context {
    const g: Generator
    var nonce: seq<Byte>
    var counter: nat
    var keystream8: seq<Byte>
    var used: nat
    ghost var c0: nat
    ghost var pos: nat

    ghost predicate Valid()
      reads this
    {
      InStep(g, nonce, c0, pos, counter, keystream8, used)
    }

    /** mbedtls_chacha20_init and setkey. */
    constructor (generator: Generator)
      requires generator.Valid()
      ensures Valid() && g == generator && c0 == 0 && pos == 0
    {
      g := generator;
      nonce, counter, keystream8, used := Fill(12, 0), 0, Fill(64, 0), 64;
      c0, pos := 0, 0;
    }

    /** mbedtls_chacha20_starts. */
    method Starts(n: seq<Byte>, start: nat)
      requires g.Valid() && start < WRAP
      modifies this
      ensures Valid() && nonce == n && c0 == start && pos == 0
    {
      nonce, counter, keystream8, used := n, start, Fill(64, 0), 64;
      c0, pos := start, 0;
    }

    /** mbedtls_chacha20_update: the output continues one key stream, however the data is cut. */
    method Update(input: seq<Byte>) returns (output: seq<Byte>)
      requires Valid()
      modifies this
      ensures Valid() && nonce == old(nonce) && c0 == old(c0) && pos == old(pos) + |input|
      ensures output == XorStream(g, nonce, c0, old(pos), input)
      ensures |output| == |input| && forall i: nat :: i < |input| ==>
        |g.block(nonce, (c0 + (old(pos) + i) / 64) % 0x1_0000_0000)| == 64
        && output[i] == XorByte(input[i], g.block(nonce, (c0 + (old(pos) + i) / 64) % 0x1_0000_0000)[(old(pos) + i) % 64])
    {
      hide InStep, XorStream, XorByte, Generator.At, Generator.Valid;
      StreamValid(g, nonce, c0, pos, counter, keystream8, used);
      output := Continue(input);
      StreamBytes(g, nonce, c0, old(pos), input);
    }

    method Continue(input: seq<Byte>) returns (output: seq<Byte>)
      requires Valid()
      modifies this
      ensures Valid() && nonce == old(nonce) && c0 == old(c0) && pos == old(pos) + |input|
      ensures output == XorStream(g, nonce, c0, old(pos), input)
    {
      hide InStep, XorStream, XorByte, Generator.At, Generator.Valid;
      StreamValid(g, nonce, c0, pos, counter, keystream8, used);
      var rest;
      output, rest := Leftover(input);
      output, rest := FullBlocks(input, output, rest, old(pos));
      if |rest| > 0 {
        output := LastBlock(input, output, rest, old(pos));
      } else {
        assert output + [] == output;
        XorStreamEnd(g, nonce, c0, pos, rest);
      }
    }

    /** Byte by byte while the current block lasts. */
    method Leftover(input: seq<Byte>) returns (output: seq<Byte>, rest: seq<Byte>)
      requires Valid()
      modifies this`used, this`pos
      ensures Valid() && pos == old(pos) + (|input| - |rest|) && |rest| <= |input| && (rest != [] ==> used == 64)
      ensures XorStream(g, nonce, c0, old(pos), input) == output + XorStream(g, nonce, c0, pos, rest)
    {
      hide InStep, XorStream, Generator.At, Generator.Valid, XorByte;
      StreamValid(g, nonce, c0, pos, counter, keystream8, used);
      output, rest := [], input;
      while |rest| > 0 && used < 64
        invariant Valid() && |rest| <= |input| && pos == old(pos) + (|input| - |rest|) && used <= 64
        invariant XorStream(g, nonce, c0, old(pos), input) == output + XorStream(g, nonce, c0, pos, rest)
        decreases |rest|
      {
        UseByte(g, nonce, c0, pos, counter, keystream8, used);
        StreamByte(g, nonce, c0, pos, rest);
        AppendAssoc(output, [XorByte(rest[0], keystream8[used])], XorStream(g, nonce, c0, pos + 1, rest[1..]));
        output := output + [XorByte(rest[0], keystream8[used])];
        used := used + 1;
        pos := pos + 1;
        rest := rest[1..];
      }
    }

    /** Whole blocks. */
    method FullBlocks(ghost input: seq<Byte>, written: seq<Byte>, todo: seq<Byte>, ghost start: nat) returns (output: seq<Byte>, rest: seq<Byte>)
      requires Valid() && (todo != [] ==> used == 64)
      requires XorStream(g, nonce, c0, start, input) == written + XorStream(g, nonce, c0, pos, todo)
      modifies this`counter, this`keystream8, this`pos
      ensures Valid() && pos == old(pos) + (|todo| - |rest|) && |rest| <= |todo| && |rest| < 64 && (rest != [] ==> used == 64)
      ensures XorStream(g, nonce, c0, start, input) == output + XorStream(g, nonce, c0, pos, rest)
    {
      hide InStep, XorStream, Generator.At, Generator.Valid, XorSeq;
      StreamValid(g, nonce, c0, pos, counter, keystream8, used);
      output, rest := written, todo;
      while |rest| >= 64
        invariant Valid() && |rest| <= |todo| && pos == old(pos) + (|todo| - |rest|) && (rest != [] ==> used == 64)
        invariant XorStream(g, nonce, c0, start, input) == output + XorStream(g, nonce, c0, pos, rest)
        decreases |rest|
      {
        var data := rest[..64];
        UseBlock(g, nonce, c0, pos, counter, keystream8, data);
        assert rest == data + rest[64..];
        XorStreamConcat(g, nonce, c0, pos, data, rest[64..]);
        AppendAssoc(output, XorStream(g, nonce, c0, pos, data), XorStream(g, nonce, c0, pos + 64, rest[64..]));
        keystream8 := g.block(nonce, counter);
        counter := (counter + 1) % WRAP;
        output := output + XorSeq(data, keystream8);
        pos := pos + 64;
        rest := rest[64..];
      }
    }

    /** A last block that is not used up. */
    method LastBlock(ghost input: seq<Byte>, written: seq<Byte>, rest: seq<Byte>, ghost start: nat) returns (output: seq<Byte>)
      requires Valid() && 0 < |rest| < 64 && used == 64
      requires XorStream(g, nonce, c0, start, input) == written + XorStream(g, nonce, c0, pos, rest)
      modifies this`counter, this`keystream8, this`used, this`pos
      ensures Valid() && pos == old(pos) + |rest| && output == XorStream(g, nonce, c0, start, input)
    {
      hide InStep, XorStream, Generator.At, Generator.Valid, XorSeq;
      UseBlock(g, nonce, c0, pos, counter, keystream8, rest);
      keystream8 := g.block(nonce, counter);
      counter := (counter + 1) % WRAP;
      output := written + XorSeq(rest, keystream8);
      used := |rest|;
      pos := pos + |rest|;
    }
  }

  lemma StreamValid(g: Generator, n: seq<Byte>, c0: nat, pos: nat, counter: nat, keystream: seq<Byte>, used: nat)
    requires InStep(g, n, c0, pos, counter, keystream, used)
    ensures g.Valid() && used <= 64
  {
  }

  /** The key stream byte by byte. */
  lemma StreamBytes(g: Generator, n: seq<Byte>, c0: nat, pos: nat, data: seq<Byte>)
    requires g.Valid()
    ensures |XorStream(g, n, c0, pos, data)| == |data|
    ensures forall i: nat :: i < |data| ==>
      |g.block(n, (c0 + (pos + i) / 64) % 0x1_0000_0000)| == 64
      && XorStream(g, n, c0, pos, data)[i] == XorByte(data[i], g.block(n, (c0 + (pos + i) / 64) % 0x1_0000_0000)[(pos + i) % 64])
  {
    hide XorByte;
  }

  lemma XorStreamEnd(g: Generator, n: seq<Byte>, c0: nat, pos: nat, rest: seq<Byte>)
    requires g.Valid() && rest == []
    ensures XorStream(g, n, c0, pos, rest) == []
  {
  }

  lemma StreamByte(g: Generator, n: seq<Byte>, c0: nat, pos: nat, rest: seq<Byte>)
    requires g.Valid() && rest != []
    ensures XorStream(g, n, c0, pos, rest) == [XorByte(rest[0], g.At(n, c0, pos))] + XorStream(g, n, c0, pos + 1, rest[1..])
  {
    hide Generator.At, XorByte;
  }
}
