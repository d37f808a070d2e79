/** ChaCha20-Poly1305 of mbedtls/library/chachapoly.c: the state machine around cipher and MAC (RFC 7539). */
module ChaChaPoly {
  import opened Arith
  import opened Limbs
  import opened Bytes
  import opened ChaCha20

  const ERR_BAD_STATE: int := -0x0054
  const ERR_AUTH_FAILED: int := -0x0056
  const SIZE: nat := 0x1_0000_0000_0000_0000

  datatype Mode = Encrypt | Decrypt
  datatype Phase = Init | Aad | Ciphertext | Finished

  // ---------------------------------------------------------------- what is authenticated

  /** Zeros up to a multiple of 16 bytes. */
  function Pad16(n: nat): seq<Byte> {
    Fill((16 - n % 16) % 16, 0)
  }

  function Lengths(a: nat, t: nat): seq<Byte> {
    ToLe(a % SIZE, 8) + ToLe(t % SIZE, 8)
  }

  /** Section 2.8 of RFC 7539: data, padding, ciphertext, padding, both lengths. */
  function MacData(aad: seq<Byte>, ct: seq<Byte>): seq<Byte> {
    aad + Pad16(|aad|) + ct + Pad16(|ct|) + Lengths(|aad|, |ct|)
  }

  /** What has been fed to Poly1305 in a phase. */
  function Fed(phase: Phase, aad: seq<Byte>, ct: seq<Byte>): seq<Byte> {
    match phase
    case Init => []
    case Aad => aad
    case Ciphertext => aad + Pad16(|aad|) + ct
    case Finished => MacData(aad, ct)
  }

  // ---------------------------------------------------------------- one-shot formulas

  /** Poly1305 as a function of a 32-byte key and everything fed to it. */
  type Poly = (seq<Byte>, seq<Byte>) -> seq<Byte>

  /** The one-time key: the first half of key stream block 0. */
  function OneTimeKey(g: Generator, nonce: seq<Byte>): seq<Byte>
    requires g.Valid()
  {
    XorStream(g, nonce, 0, 0, Fill(64, 0))[..32]
  }

  /** The text with the key stream from block 1 on; encryption and decryption alike. */
  function Crypt(g: Generator, nonce: seq<Byte>, text: seq<Byte>): (r: seq<Byte>)
    requires g.Valid()
    ensures |r| == |text|
  {
    XorStream(g, nonce, 0, 64, text)
  }

  function Tag(g: Generator, poly: Poly, nonce: seq<Byte>, aad: seq<Byte>, ct: seq<Byte>): seq<Byte>
    requires g.Valid()
  {
    poly(OneTimeKey(g, nonce), MacData(aad, ct))
  }

  /** The one-time key is the first half of block 0. */
  lemma OneTimeKeyIs(g: Generator, nonce: seq<Byte>)
    requires g.Valid()
    ensures |g.block(nonce, 0)| == 64 && OneTimeKey(g, nonce) == g.block(nonce, 0)[..32]
  {
    hide BitXor;
    var z := Fill(64, 0);
    var s := XorStream(g, nonce, 0, 0, z);
    forall i: nat | i < 32
      ensures s[i] == g.block(nonce, 0)[i]
    {
      XorZero(g.block(nonce, 0)[i]);
    }
    assert s[..32] == g.block(nonce, 0)[..32];
  }

  /** The tag in the key stream block and the bytes authenticated. */
  lemma TagIs(g: Generator, poly: Poly, nonce: seq<Byte>, aad: seq<Byte>, ct: seq<Byte>)
    requires g.Valid()
    ensures |g.block(nonce, 0)| == 64
    ensures Tag(g, poly, nonce, aad, ct) == poly(g.block(nonce, 0)[..32],
      aad + Fill((16 - |aad| % 16) % 16, 0) + ct + Fill((16 - |ct| % 16) % 16, 0)
        + ToLe(|aad| % 0x1_0000_0000_0000_0000, 8) + ToLe(|ct| % 0x1_0000_0000_0000_0000, 8))
  {
    hide OneTimeKey, ToLe, Generator.Valid;
    OneTimeKeyIs(g, nonce);
    AppendAssoc(aad + Pad16(|aad|) + ct + Pad16(|ct|), ToLe(|aad| % SIZE, 8), ToLe(|ct| % SIZE, 8));
  }

  /** The text byte by byte: key stream from block 1 on. */
  lemma CryptIs(g: Generator, nonce: seq<Byte>, text: seq<Byte>)
    requires g.Valid()
    ensures forall i: nat :: i < |text| ==>
      |g.block(nonce, (1 + i / 64) % 0x1_0000_0000)| == 64
      && Crypt(g, nonce, text)[i] == XorByte(text[i], g.block(nonce, (1 + i / 64) % 0x1_0000_0000)[i % 64])
  {
    hide XorByte, XorStream;
    StreamBytes(g, nonce, 0, 64, text);
    forall i: nat | i < |text|
      ensures |g.block(nonce, (1 + i / 64) % 0x1_0000_0000)| == 64
      ensures Crypt(g, nonce, text)[i] == XorByte(text[i], g.block(nonce, (1 + i / 64) % 0x1_0000_0000)[i % 64])
    {
      assert 0 + (64 + i) / 64 == 1 + i / 64 && (64 + i) % 64 == i % 64;
    }
  }

  /** Decryption of an encrypted text returns it. */
  lemma DecryptUndoesEncrypt(g: Generator, nonce: seq<Byte>, text: seq<Byte>)
    requires g.Valid()
    ensures Crypt(g, nonce, Crypt(g, nonce, text)) == text
  {
    XorStreamInverse(g, nonce, 0, 64, text);
  }

  // ---------------------------------------------------------------- the length block

  /** Eight bytes of a 64-bit length, as written out in finish. */
  function LengthBytes(v: nat): seq<Byte> {
    [v % 256, v / 0x100 % 256, v / 0x1_0000 % 256, v / 0x100_0000 % 256,
     v / 0x1_0000_0000 % 256, v / 0x100_0000_0000 % 256, v / 0x1_0000_0000_0000 % 256, v / 0x100_0000_0000_0000 % 256]
  }

  lemma LengthBytesAre(v: nat)
    ensures LengthBytes(v) == ToLe(v, 8)
  {
    hide ToLe;
    var a, b, c := v / 0x100, v / 0x1_0000, v / 0x100_0000;
    var d, e, f, g := v / 0x1_0000_0000, v / 0x100_0000_0000, v / 0x1_0000_0000_0000, v / 0x100_0000_0000_0000;
    assert b == a / 256 && c == b / 256 && d == c / 256 && e == d / 256 && f == e / 256 && g == f / 256;
    ToLeStep(v, 8);
    ToLeStep(a, 7);
    ToLeStep(b, 6);
    ToLeStep(c, 5);
    ToLeStep(d, 4);
    ToLeStep(e, 3);
    ToLeStep(f, 2);
    ToLeStep(g, 1);
    assert ToLe(g / 256, 0) == [];
  }

  // ---------------------------------------------------------------- the context

  /** What the fields hold after additional data aad and the text before, which became after. */
  ghost predicate Tracks(g: Generator, phase: Phase, mode: Mode, nonce: seq<Byte>, aad: seq<Byte>, before: seq<Byte>,
    after: seq<Byte>, key: seq<Byte>, data: seq<Byte>, aadLen: nat, ciphertextLen: nat)
  {
    && g.Valid() && (phase == Aad ==> before == [])
    && after == Crypt(g, nonce, before)
    && key == OneTimeKey(g, nonce) && data == Fed(phase, aad, if mode == Encrypt then after else before)
    && aadLen == |aad| % SIZE && ciphertextLen == |before| % SIZE
  }

  lemma TracksStart(g: Generator, mode: Mode, nonce: seq<Byte>)
    requires g.Valid()
    ensures Tracks(g, Aad, mode, nonce, [], [], [], OneTimeKey(g, nonce), [], 0, 0)
  {
    EmptyText(g, nonce);
  }

  lemma TracksAad(g: Generator, mode: Mode, nonce: seq<Byte>, aad: seq<Byte>, more: seq<Byte>,
    after: seq<Byte>, key: seq<Byte>, data: seq<Byte>, aadLen: nat, ciphertextLen: nat)
    requires Tracks(g, Aad, mode, nonce, aad, [], after, key, data, aadLen, ciphertextLen)
    ensures Tracks(g, Aad, mode, nonce, aad + more, [], after, key, data + more, (aadLen + |more|) % SIZE, ciphertextLen)
  {
    hide Crypt, OneTimeKey;
    SizeAdd(|aad|, |more|);
  }

  lemma TracksEnter(g: Generator, mode: Mode, nonce: seq<Byte>, aad: seq<Byte>, before: seq<Byte>,
    after: seq<Byte>, key: seq<Byte>, data: seq<Byte>, aadLen: nat, ciphertextLen: nat)
    requires Tracks(g, Aad, mode, nonce, aad, before, after, key, data, aadLen, ciphertextLen)
    ensures Tracks(g, Ciphertext, mode, nonce, aad, before, after, key, data + PadBytes(aadLen), aadLen, ciphertextLen)
  {
    hide Pad16, PadBytes;
    PadByCounter(|aad|);
    EmptyText(g, nonce);
    assert aad + Pad16(|aad|) + [] == aad + Pad16(|aad|);
  }

  lemma TracksText(g: Generator, mode: Mode, nonce: seq<Byte>, aad: seq<Byte>, before: seq<Byte>, input: seq<Byte>,
    after: seq<Byte>, output: seq<Byte>, key: seq<Byte>, data: seq<Byte>, aadLen: nat, ciphertextLen: nat)
    requires Tracks(g, Ciphertext, mode, nonce, aad, before, after, key, data, aadLen, ciphertextLen)
    requires output == XorStream(g, nonce, 0, 64 + |before|, input)
    ensures Tracks(g, Ciphertext, mode, nonce, aad, before + input, after + output, key,
              data + (if mode == Encrypt then output else input), aadLen, (ciphertextLen + |input|) % SIZE)
    ensures Crypt(g, nonce, before + input) == Crypt(g, nonce, before) + output
  {
    hide Crypt, OneTimeKey, Fed;
    SizeAdd(|before|, |input|);
    CryptMore(g, nonce, before, input);
    FedMore(aad, if mode == Encrypt then after else before, if mode == Encrypt then output else input);
  }

  lemma TracksEnd(g: Generator, phase: Phase, mode: Mode, nonce: seq<Byte>, aad: seq<Byte>, before: seq<Byte>,
    after: seq<Byte>, key: seq<Byte>, data: seq<Byte>, aadLen: nat, ciphertextLen: nat)
    requires Tracks(g, phase, mode, nonce, aad, before, after, key, data, aadLen, ciphertextLen)
    requires phase == Aad || phase == Ciphertext
    ensures key == OneTimeKey(g, nonce) && after == Crypt(g, nonce, before)
    ensures data + PadBytes(if phase == Aad then aadLen else ciphertextLen) + (LengthBytes(aadLen) + LengthBytes(ciphertextLen))
         == MacData(aad, if mode == Encrypt then after else before)
  {
    hide Pad16, PadBytes, ToLe, LengthBytes, OneTimeKey, XorStream;
    PadByCounter(|aad|);
    PadByCounter(|before|);
    LengthBytesAre(aadLen);
    LengthBytesAre(ciphertextLen);
    if phase == Aad {
      EmptyText(g, nonce);
      NoText(aad);
    }
  }

  /** mbedtls_chachapoly_context; aad, before and after are what the calls since starts have passed through. */
  class Context {
    const g: Generator
    const poly: Poly
    const chacha: ChaCha20.Context
    var polyKey: seq<Byte>
    var polyData: seq<Byte>
    var aadLen: nat
    var ciphertextLen: nat
    var phase: Phase
    var mode: Mode
    ghost var nonce: seq<Byte>
    ghost var aad: seq<Byte>
    ghost var before: seq<Byte>
    ghost var after: seq<Byte>

    ghost predicate Valid()
      reads this, chacha
    {
      && chacha.Valid() && chacha.g == g && g.Valid()
      && (phase == Init || phase == Finished || Running())
    }

    /** Between starts and finish. */
    ghost predicate Running()
      requires g.Valid()
      reads this, chacha
    {
      && (phase == Aad || phase == Ciphertext)
      && chacha.nonce == nonce && chacha.c0 == 0 && chacha.pos == 64 + |before|
      && Tracks(g, phase, mode, nonce, aad, before, after, polyKey, polyData, aadLen, ciphertextLen)
    }

    /** mbedtls_chachapoly_init and setkey. */
    constructor (generator: Generator, mac: Poly)
      requires generator.Valid()
      ensures Valid() && fresh(chacha) && g == generator && poly == mac && phase == Init
    {
      g, poly := generator, mac;
      chacha := new ChaCha20.Context(generator);
      polyKey, polyData, aadLen, ciphertextLen, phase, mode := [], [], 0, 0, Init, Encrypt;
      nonce, aad, before, after := [], [], [], [];
    }

    /** mbedtls_chachapoly_starts. */
    method Starts(n: seq<Byte>, m: Mode)
      requires Valid()
      modifies this, chacha
      ensures Valid() && phase == Aad && mode == m && nonce == n && aad == [] && before == []
      ensures |g.block(n, 0)| == 64 && polyKey == g.block(n, 0)[..32]
    {
      hide XorStream, InStep, Generator.Valid, Tracks, Fill, XorByte;
      OneTimeKeyIs(g, n);
      chacha.Starts(n, 0);
      var key := chacha.Update(Fill(64, 0));
      polyKey, polyData := key[..32], [];
      aadLen, ciphertextLen, phase, mode := 0, 0, Aad, m;
      nonce, aad, before, after := n, [], [], [];
      TracksStart(g, m, n);
    }

    /** mbedtls_chachapoly_update_aad: refused once data has been processed. */
    method UpdateAad(data: seq<Byte>) returns (ret: int)
      requires Valid()
      modifies this
      ensures Valid() && phase == old(phase) && mode == old(mode) && nonce == old(nonce) && before == old(before)
      ensures old(phase) == Aad ==> ret == 0 && aad == old(aad) + data
      ensures old(phase) != Aad ==> ret == ERR_BAD_STATE && aad == old(aad)
    {
      hide InStep, Generator.Valid, Tracks;
      if phase != Aad { return ERR_BAD_STATE; }
      AadHasNoText(g, mode, nonce, aad, before, after, polyKey, polyData, aadLen, ciphertextLen);
      TracksAad(g, mode, nonce, aad, data, after, polyKey, polyData, aadLen, ciphertextLen);
      aadLen := (aadLen + |data|) % SIZE;
      polyData := polyData + data;
      aad := aad + data;
      ret := 0;
    }

    /** mbedtls_chachapoly_update: the output continues the one-shot output. */
    method Update(input: seq<Byte>) returns (ret: int, output: seq<Byte>)
      requires Valid()
      modifies this, chacha
      ensures Valid() && mode == old(mode) && nonce == old(nonce) && aad == old(aad)
      ensures old(phase) != Aad && old(phase) != Ciphertext ==>
        ret == ERR_BAD_STATE && phase == old(phase) && before == old(before) && output == []
      ensures old(phase) == Aad || old(phase) == Ciphertext ==>
        && ret == 0 && phase == Ciphertext && before == old(before) + input
        && Crypt(g, nonce, before) == Crypt(g, nonce, old(before)) + output
    {
      hide Crypt, XorStream, InStep, Generator.Valid, Tracks, PadBytes;
      output := [];
      if phase != Aad && phase != Ciphertext { return ERR_BAD_STATE, []; }
      if phase == Aad {
        phase := Ciphertext;
        TracksEnter(g, mode, nonce, aad, before, after, polyKey, polyData, aadLen, ciphertextLen);
        polyData := polyData + PadBytes(aadLen);
      }
      ghost var data, len := polyData, ciphertextLen;
      ciphertextLen := (ciphertextLen + |input|) % SIZE;
      if mode == Encrypt {
        output := chacha.Update(input);
        polyData := polyData + output;
      } else {
        polyData := polyData + input;
        output := chacha.Update(input);
      }
      TracksText(g, mode, nonce, aad, before, input, after, output, polyKey, data, aadLen, len);
      before := before + input;
      after := after + output;
      ret := 0;
    }

    /** mbedtls_chachapoly_finish: the first one after starts gives the MAC of section 2.8 of RFC 7539. A further one is
        accepted as well; its tag is that of a Poly1305 context already finished and is not described. */
    method Finish() returns (ret: int, mac: seq<Byte>)
      requires Valid()
      modifies this
      ensures Valid() && aad == old(aad) && before == old(before) && nonce == old(nonce) && mode == old(mode)
      ensures old(phase) == Init ==> ret == ERR_BAD_STATE && phase == Init
      ensures old(phase) != Init ==> ret == 0 && phase == Finished
      ensures old(phase) == Aad || old(phase) == Ciphertext ==>
        mac == Tag(g, poly, nonce, aad, if mode == Encrypt then Crypt(g, nonce, before) else before)
      ensures old(phase) == Aad || old(phase) == Ciphertext ==>
        var ct := if mode == Encrypt then Crypt(g, nonce, before) else before;
        |g.block(nonce, 0)| == 64 && mac == poly(g.block(nonce, 0)[..32],
          aad + Fill((16 - |aad| % 16) % 16, 0) + ct + Fill((16 - |ct| % 16) % 16, 0)
          + ToLe(|aad| % 0x1_0000_0000_0000_0000, 8) + ToLe(|ct| % 0x1_0000_0000_0000_0000, 8))
    {
      hide *;
      KeyStreamValid(this);
      if phase == Aad || phase == Ciphertext {
        TagIs(g, poly, nonce, aad, if mode == Encrypt then Crypt(g, nonce, before) else before);
      }
      ret, mac := FinishMac();
    }

    method FinishMac() returns (ret: int, mac: seq<Byte>)
      requires Valid()
      modifies this
      ensures Valid() && aad == old(aad) && before == old(before) && nonce == old(nonce) && mode == old(mode)
      ensures old(phase) == Init ==> ret == ERR_BAD_STATE && phase == Init
      ensures old(phase) != Init ==> ret == 0 && phase == Finished
      ensures old(phase) == Aad || old(phase) == Ciphertext ==>
        mac == Tag(g, poly, nonce, aad, if mode == Encrypt then Crypt(g, nonce, before) else before)
    {
      hide Crypt, InStep, Generator.Valid, PadBytes, LengthBytes, MacData, OneTimeKey, Tracks;
      if phase == Init { return ERR_BAD_STATE, []; }
      if phase == Aad || phase == Ciphertext {
        TracksEnd(g, phase, mode, nonce, aad, before, after, polyKey, polyData, aadLen, ciphertextLen);
      }
      if phase == Aad {
        polyData := polyData + PadBytes(aadLen);
      } else if phase == Ciphertext {
        polyData := polyData + PadBytes(ciphertextLen);
      }
      phase := Finished;
      polyData := polyData + (LengthBytes(aadLen) + LengthBytes(ciphertextLen));
      mac := poly(polyKey, polyData);
      ret := 0;
    }
  }

  lemma AadHasNoText(g: Generator, mode: Mode, nonce: seq<Byte>, aad: seq<Byte>, before: seq<Byte>,
    after: seq<Byte>, key: seq<Byte>, data: seq<Byte>, aadLen: nat, ciphertextLen: nat)
    requires Tracks(g, Aad, mode, nonce, aad, before, after, key, data, aadLen, ciphertextLen)
    ensures before == []
  {
  }

  /** chachapoly_pad_aad and chachapoly_pad_ciphertext: what they add. */
  function PadBytes(len: nat): seq<Byte> {
    var partial := len % 16;
    if partial == 0 then [] else Fill(16 - partial, 0)
  }

  lemma PadByCounter(n: nat)
    ensures PadBytes(n % SIZE) == Pad16(n)
  {
    ModSize(n);
  }

  lemma ModSize(n: nat)
    ensures n % SIZE % 16 == n % 16
  {
    var q, r := n / SIZE, n % SIZE;
    assert n == 16 * (0x1000_0000_0000_0000 * q + r / 16) + r % 16;
    DivModUnique(n, 16, 0x1000_0000_0000_0000 * q + r / 16, r % 16);
  }

  lemma SizeAdd(a: nat, b: nat)
    ensures (a % SIZE + b) % SIZE == (a + b) % SIZE
  {
  }

  lemma EmptyText(g: Generator, nonce: seq<Byte>)
    requires g.Valid()
    ensures Crypt(g, nonce, []) == []
  {
  }

  lemma CryptMore(g: Generator, nonce: seq<Byte>, before: seq<Byte>, input: seq<Byte>)
    requires g.Valid()
    ensures Crypt(g, nonce, before + input) == Crypt(g, nonce, before) + XorStream(g, nonce, 0, 64 + |before|, input)
  {
    hide XorStream;
    XorStreamConcat(g, nonce, 0, 64, before, input);
  }

  lemma FedMore(aad: seq<Byte>, ct: seq<Byte>, more: seq<Byte>)
    ensures Fed(Ciphertext, aad, ct) + more == Fed(Ciphertext, aad, ct + more)
  {
    hide Pad16;
    AppendAssoc(aad + Pad16(|aad|), ct, more);
  }

  lemma NoText(aad: seq<Byte>)
    ensures aad + Pad16(|aad|) + [] + Pad16(0) == aad + Pad16(|aad|)
  {
  }

  // ---------------------------------------------------------------- one-shot calls

  datatype Opened = Plaintext(output: seq<Byte>) | Rejected(code: int, output: seq<Byte>)

  /** chachapoly_crypt_and_tag. */
  method CryptAndTag(ctx: Context, m: Mode, nonce: seq<Byte>, aad: seq<Byte>, input: seq<Byte>) returns (output: seq<Byte>, tag: seq<Byte>)
    requires ctx.Valid()
    modifies ctx, ctx.chacha
    ensures ctx.Valid() && output == Crypt(ctx.g, nonce, input)
    ensures tag == Tag(ctx.g, ctx.poly, nonce, aad, if m == Encrypt then output else input)
    ensures |output| == |input| && forall i: nat :: i < |input| ==>
      |ctx.g.block(nonce, (1 + i / 64) % 0x1_0000_0000)| == 64
      && output[i] == XorByte(input[i], ctx.g.block(nonce, (1 + i / 64) % 0x1_0000_0000)[i % 64])
    ensures var ct := if m == Encrypt then output else input;
      |ctx.g.block(nonce, 0)| == 64 && tag == ctx.poly(ctx.g.block(nonce, 0)[..32],
          aad + Fill((16 - |aad| % 16) % 16, 0) + ct + Fill((16 - |ct| % 16) % 16, 0)
          + ToLe(|aad| % 0x1_0000_0000_0000_0000, 8) + ToLe(|ct| % 0x1_0000_0000_0000_0000, 8))
  {
    hide *;
    output, tag := CryptWith(ctx, m, nonce, aad, input);
    KeyStreamValid(ctx);
    CryptIs(ctx.g, nonce, input);
    TagIs(ctx.g, ctx.poly, nonce, aad, if m == Encrypt then output else input);
  }

  lemma KeyStreamValid(ctx: Context)
    requires ctx.Valid()
    ensures ctx.g.Valid()
  {
  }

  method CryptWith(ctx: Context, m: Mode, nonce: seq<Byte>, aad: seq<Byte>, input: seq<Byte>) returns (output: seq<Byte>, tag: seq<Byte>)
    requires ctx.Valid()
    modifies ctx, ctx.chacha
    ensures ctx.Valid() && output == Crypt(ctx.g, nonce, input)
    ensures tag == Tag(ctx.g, ctx.poly, nonce, aad, if m == Encrypt then output else input)
  {
    hide Crypt, Tag, Generator.Valid, InStep;
    ctx.Starts(nonce, m);
    var ret := ctx.UpdateAad(aad);
    assert ctx.aad == aad;
    ret, output := ctx.Update(input);
    EmptyText(ctx.g, nonce);
    assert ctx.before == input;
    ret, tag := ctx.Finish();
  }

  /** mbedtls_chachapoly_auth_decrypt: the text is handed out exactly if the tag is right. */
  method AuthDecrypt(ctx: Context, nonce: seq<Byte>, aad: seq<Byte>, tag: seq<Byte>, input: seq<Byte>) returns (res: Opened)
    requires ctx.Valid() && |tag| == 16
    requires forall k: seq<Byte>, d: seq<Byte> :: |ctx.poly(k, d)| == 16
    modifies ctx, ctx.chacha
    ensures ctx.Valid()
    ensures res == if tag == Tag(ctx.g, ctx.poly, nonce, aad, input) then Plaintext(Crypt(ctx.g, nonce, input))
                   else Rejected(ERR_AUTH_FAILED, Fill(|input|, 0))
  {
    hide Crypt, Generator.Valid, InStep;
    var output, check := CryptAndTag(ctx, Decrypt, nonce, aad, input);
    var bad := Differ(tag, check);
    res := if bad then Rejected(ERR_AUTH_FAILED, Fill(|input|, 0)) else Plaintext(output);
  }

  /** What encrypt_and_tag produces, auth_decrypt accepts, and it returns the text, whatever the context did before. */
  method EncryptThenDecrypt(ctx: Context, nonce: seq<Byte>, aad: seq<Byte>, text: seq<Byte>) returns (res: Opened)
    requires ctx.Valid()
    requires forall k: seq<Byte>, d: seq<Byte> :: |ctx.poly(k, d)| == 16
    modifies ctx, ctx.chacha
    ensures ctx.Valid() && res == Plaintext(text)
  {
    hide Crypt, Generator.Valid, InStep;
    var ct, tag := CryptAndTag(ctx, Encrypt, nonce, aad, text);
    DecryptUndoesEncrypt(ctx.g, nonce, text);
    res := AuthDecrypt(ctx, nonce, aad, tag, ct);
  }
}
