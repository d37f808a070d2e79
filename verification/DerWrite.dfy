/** The writers of mbedtls/library/asn1write.c: a cursor that moves down towards start. */
module DerWrite {
  import opened Arith
  import opened Limbs
  import opened Bytes
  import opened Der

  /** The state before and after writing e in front of the cursor. With room for e the count comes back, the
      bytes of e end where the cursor was and no other byte changes; without room the cursor stays within
      bounds and what was already written stays. */
  ghost predicate Wrote(buf: seq<Byte>, p: nat, start: nat, e: seq<Byte>, buf': seq<Byte>, p': nat, ret: int) {
    && start <= p <= |buf|
    && if p - start >= |e| then ret == |e| && p' == p - |e| && buf' == buf[..p'] + e + buf[p..]
       else ret == ERR_BUF_TOO_SMALL && start <= p' <= p && |buf'| == |buf| && buf'[p..] == buf[p..]
  }

  /** Two pieces, the second in front of the first. */
  lemma WroteBoth(buf: seq<Byte>, p: nat, start: nat, e: seq<Byte>, buf1: seq<Byte>, p1: nat, ret1: int,
    f: seq<Byte>, buf2: seq<Byte>, p2: nat, ret2: int)
    requires Wrote(buf, p, start, e, buf1, p1, ret1) && ret1 >= 0
    requires Wrote(buf1, p1, start, f, buf2, p2, ret2)
    ensures ret2 >= 0 ==> Wrote(buf, p, start, f + e, buf2, p2, ret1 + ret2)
    ensures ret2 < 0 ==> Wrote(buf, p, start, f + e, buf2, p2, ret2)
  {
    if p1 - start >= |f| {
      assert buf1[p1..] == e + buf[p..];
      assert buf1[..p2] == buf[..p2];
      AppendAssoc(buf[..p2], f, e + buf[p..]);
      AppendAssoc(f, e, buf[p..]);
      AppendAssoc(buf[..p2], f + e, buf[p..]);
    } else {
      assert buf2[p..] == buf2[p1..][p - p1..];
      assert buf1[p..] == buf1[p1..][p - p1..];
      assert buf1[p..] == buf[p..];
    }
  }

  /** A failed piece fails the whole. */
  lemma WroteFails(buf: seq<Byte>, p: nat, start: nat, e: seq<Byte>, f: seq<Byte>, buf1: seq<Byte>, p1: nat, ret: int)
    requires Wrote(buf, p, start, e, buf1, p1, ret) && ret < 0
    ensures Wrote(buf, p, start, f + e, buf1, p1, ret)
  {
  }

  /** One byte in front of the cursor. */
  lemma WroteByte(buf: seq<Byte>, p: nat, start: nat, b: Byte)
    requires start < p <= |buf|
    ensures Wrote(buf, p, start, [b], buf[p - 1 := b], p - 1, 1)
  {
  }

  lemma WroteNothing(buf: seq<Byte>, p: nat, start: nat)
    requires start <= p <= |buf|
    ensures Wrote(buf, p, start, [], buf, p, 0)
  {
    assert buf == buf[..p] + [] + buf[p..];
  }

  class Writer {
    var buf: seq<Byte>
    var p: nat
    const start: nat

    ghost predicate Valid()
      reads this
    {
      start <= p <= |buf|
    }

    constructor (size: nat, begin: nat)
      requires begin <= size
      ensures Valid() && |buf| == size && p == size && start == begin
    {
      buf, p, start := Fill(size, 0), size, begin;
    }

    /** *--(*p) = b, where the room is known. */
    method Push(b: Byte)
      requires Valid() && start < p
      modifies this
      ensures Valid() && Wrote(old(buf), old(p), start, [b], buf, p, 1)
    {
      hide Wrote;
      WroteByte(buf, p, start, b);
      p := p - 1;
      buf := buf[p := b];
    }

    /** Several bytes, the last one first. */
    method PushAll(e: seq<Byte>)
      requires Valid() && |e| <= p - start
      modifies this
      ensures Valid() && Wrote(old(buf), old(p), start, e, buf, p, |e|)
    {
      hide Wrote;
      WroteNothing(buf, p, start);
      var i := |e|;
      assert e[|e|..] == [];
      while i > 0
        invariant 0 <= i <= |e| && Valid() && i <= p - start
        invariant Wrote(old(buf), old(p), start, e[i..], buf, p, |e| - i)
      {
        i := i - 1;
        ghost var buf1, p1 := buf, p;
        Push(e[i]);
        WroteBoth(old(buf), old(p), start, e[i + 1..], buf1, p1, |e| - i - 1, [e[i]], buf, p, 1);
        assert e[i..] == [e[i]] + e[i + 1..];
        WroteRoom(buf1, p1, start, [e[i]], buf, p, 1);
      }
      assert e[0..] == e;
    }

    /** mbedtls_asn1_write_len. */
    method WriteLen(len: nat) returns (ret: int)
      requires Valid()
      modifies this
      ensures Valid()
      ensures len < 0x1_0000_0000 ==> Wrote(old(buf), old(p), start, EncLen(len), buf, p, ret)
      ensures len >= 0x1_0000_0000 ==> ret == ERR_INVALID_LENGTH && buf == old(buf) && p == old(p)
    {
      hide Wrote, ToBe;
      if len < 0x80 {
        if p - start < 1 { NoRoom(buf, p, start, EncLen(len)); return ERR_BUF_TOO_SMALL; }
        Push(len);
        return 1;
      }
      if len > 0xFFFF_FFFF { return ERR_INVALID_LENGTH; }
      var k := if len <= 0xFF then 1 else if len <= 0xFFFF then 2 else if len <= 0xFF_FFFF then 3 else 4;
      if p - start < k + 1 { NoRoom(buf, p, start, EncLen(len)); return ERR_BUF_TOO_SMALL; }
      LenBytesAre(len, k);
      if k == 1 {
        PushAll([0x81, len]);
      } else if k == 2 {
        PushAll([0x82, len / 0x100 % 256, len % 256]);
      } else if k == 3 {
        PushAll([0x83, len / 0x1_0000 % 256, len / 0x100 % 256, len % 256]);
      } else {
        PushAll([0x84, len / 0x100_0000 % 256, len / 0x1_0000 % 256, len / 0x100 % 256, len % 256]);
      }
      ret := k + 1;
    }

    /** mbedtls_asn1_write_tag. */
    method WriteTag(tag: Byte) returns (ret: int)
      requires Valid()
      modifies this
      ensures Valid() && Wrote(old(buf), old(p), start, [tag], buf, p, ret)
    {
      hide Wrote;
      if p - start < 1 { NoRoom(buf, p, start, [tag]); return ERR_BUF_TOO_SMALL; }
      Push(tag);
      ret := 1;
    }

    /** mbedtls_asn1_write_raw_buffer. */
    method WriteRaw(e: seq<Byte>) returns (ret: int)
      requires Valid()
      modifies this
      ensures Valid() && Wrote(old(buf), old(p), start, e, buf, p, ret)
    {
      if p - start < |e| { return ERR_BUF_TOO_SMALL; }
      p := p - |e|;
      buf := buf[..p] + e + buf[p + |e|..];
      ret := |e|;
    }

    /** The length and the tag in front of content c that has just been written. */
    method Close(ghost buf0: seq<Byte>, ghost p0: nat, ghost c: seq<Byte>, len: nat, tag: Byte) returns (ret: int)
      requires Valid() && |c| == len < 0x1_0000_0000 && Wrote(buf0, p0, start, c, buf, p, len)
      modifies this
      ensures Valid() && Wrote(buf0, p0, start, Tlv(tag, c), buf, p, ret)
    {
      hide Wrote, EncLen;
      ghost var buf1, p1 := buf, p;
      var n := len;
      ret := WriteLen(len);
      WroteBoth(buf0, p0, start, c, buf1, p1, len, EncLen(len), buf, p, ret);
      AppendAssoc([tag], EncLen(len), c);
      if ret < 0 {
        WroteFails(buf0, p0, start, EncLen(len) + c, [tag], buf, p, ret);
        return;
      }
      n := n + ret;
      buf1, p1 := buf, p;
      ret := WriteTag(tag);
      WroteBoth(buf0, p0, start, EncLen(len) + c, buf1, p1, n, [tag], buf, p, ret);
      if ret < 0 { return; }
      n := n + ret;
      ret := n;
    }

    /** mbedtls_asn1_write_oid, write_octet_string and the other strings. A content too long for a length stays
        written when the length is refused. */
    method WriteString(tag: Byte, e: seq<Byte>) returns (ret: int)
      requires Valid()
      modifies this
      ensures Valid()
      ensures |e| < 0x1_0000_0000 ==> Wrote(old(buf), old(p), start, Tlv(tag, e), buf, p, ret)
      ensures |e| >= 0x1_0000_0000 ==>
        if old(p) - start < |e| then ret == ERR_BUF_TOO_SMALL
        else ret == ERR_INVALID_LENGTH && Wrote(old(buf), old(p), start, e, buf, p, |e|)
    {
      hide Wrote, EncLen;
      ret := WriteRaw(e);
      WroteRet(old(buf), old(p), start, e, buf, p, ret);
      if ret < 0 {
        WroteFails(old(buf), old(p), start, e, [tag] + EncLen(|e|), buf, p, ret);
        return;
      }
      if ret >= 0x1_0000_0000 {
        ret := WriteLen(ret);
        return;
      }
      ret := Close(old(buf), old(p), e, ret, tag);
    }

    /** mbedtls_asn1_write_null. */
    method WriteNull() returns (ret: int)
      requires Valid()
      modifies this
      ensures Valid() && Wrote(old(buf), old(p), start, Tlv(NULL, []), buf, p, ret)
    {
      hide Wrote, EncLen;
      WroteNothing(buf, p, start);
      ret := Close(buf, p, [], 0, NULL);
    }

    /** mbedtls_asn1_write_algorithm_identifier: with par_len 0 it writes NULL parameters; otherwise the par_len bytes
        behind the cursor are the parameters. */
    method WriteAlg(oid: seq<Byte>, parLen: nat) returns (ret: int)
      requires Valid() && p + parLen <= |buf| && |Tlv(OID, oid)| + parLen + 2 < 0x1_0000_0000
      modifies this
      ensures Valid()
      ensures parLen == 0 ==> Wrote(old(buf), old(p), start, EncAlg(oid, Tlv(NULL, [])), buf, p, ret)
      ensures parLen > 0 ==>
        var params := old(buf)[old(p)..old(p) + parLen];
        WroteBefore(old(buf), old(p), start, EncAlg(oid, params), params, buf, p, ret)
    {
      hide Wrote, EncLen, Tlv;
      NullIs();
      ghost var buf0, p0 := buf, p;
      if parLen == 0 {
        ret := WriteNull();
        ghost var params := Tlv(NULL, []);
        WroteRet(buf0, p0, start, params, buf, p, ret);
        if ret < 0 {
          WroteFails(buf0, p0, start, params, AlgHead(oid, 2), buf, p, ret);
          AlgParts(oid, params);
          return;
        }
        ghost var buf1, p1 := buf, p;
        var more := WriteAlgHead(oid, ret);
        WroteBoth(buf0, p0, start, params, buf1, p1, ret, AlgHead(oid, 2), buf, p, more);
        AlgParts(oid, params);
        ret := if more < 0 then more else ret + more;
      } else {
        var more := WriteAlgHead(oid, parLen);
        AlgParts(oid, buf0[p0..p0 + parLen]);
        WroteIsBefore(buf0, p0, start, AlgHead(oid, parLen), buf0[p0..p0 + parLen], buf, p, more);
        ret := if more < 0 then more else parLen + more;
      }
    }

    /** The identifier, the length of the sequence and its tag, in front of parLen bytes. */
    method WriteAlgHead(oid: seq<Byte>, parLen: nat) returns (ret: int)
      requires Valid() && |Tlv(OID, oid)| + parLen < 0x1_0000_0000
      modifies this
      ensures Valid() && Wrote(old(buf), old(p), start, AlgHead(oid, parLen), buf, p, ret)
    {
      hide Wrote, EncLen, Tlv;
      ghost var buf0, p0 := buf, p;
      ghost var o := Tlv(OID, oid);
      ret := WriteString(OID, oid);
      WroteRet(buf0, p0, start, o, buf, p, ret);
      if ret < 0 {
        WroteFails(buf0, p0, start, o, [SEQUENCE] + EncLen(|o| + parLen), buf, p, ret);
        return;
      }
      var len := ret;
      ghost var l := EncLen(len + parLen);
      ghost var buf1, p1 := buf, p;
      ret := WriteLen(len + parLen);
      WroteBoth(buf0, p0, start, o, buf1, p1, len, l, buf, p, ret);
      AppendAssoc([SEQUENCE], l, o);
      if ret < 0 {
        WroteFails(buf0, p0, start, l + o, [SEQUENCE], buf, p, ret);
        return;
      }
      len := len + ret;
      buf1, p1 := buf, p;
      ret := WriteTag(SEQUENCE);
      WroteBoth(buf0, p0, start, l + o, buf1, p1, len, [SEQUENCE], buf, p, ret);
      if ret < 0 { return; }
      ret := len + ret;
    }

    /** asn1_write_tagged_int: write_int and write_enum. */
    method WriteInt(v: int, tag: Byte) returns (ret: int)
      requires Valid() && -0x8000_0000 <= v < 0x8000_0000
      modifies this
      ensures Valid() && Wrote(old(buf), old(p), start, Tlv(tag, IntContent(v)), buf, p, ret)
    {
      hide Wrote, EncLen, BeBytes;
      IntContentSize(v);
      ghost var c := if v < 0 then [v % 256] else BeBytes(v);
      ghost var head := [tag] + EncLen(|IntContent(v)|);
      ret := WriteIntBytes(v);
      WroteRet(old(buf), old(p), start, c, buf, p, ret);
      if ret < 0 {
        WroteFails(old(buf), old(p), start, c, [0], buf, p, ret);
        WroteFails(old(buf), old(p), start, IntContent(v), head, buf, p, ret);
        return;
      }
      ret := CloseNumber(old(buf), old(p), c, ret, tag);
    }

    /** A zero byte if the first bit is set, then length and tag. */
    method CloseNumber(ghost buf0: seq<Byte>, ghost p0: nat, ghost c: seq<Byte>, len: nat, tag: Byte) returns (ret: int)
      requires Valid() && 0 < |c| == len && |Unsigned(c)| < 0x1_0000_0000 && Wrote(buf0, p0, start, c, buf, p, len)
      modifies this
      ensures Valid() && Wrote(buf0, p0, start, Tlv(tag, Unsigned(c)), buf, p, ret)
    {
      hide Wrote, EncLen;
      WroteFirst(buf0, p0, start, c, buf, p);
      var n := len;
      if buf[p] >= 0x80 {
        if p - start < 1 {
          WroteFull(buf0, p0, start, c, buf, p);
          WroteFails(buf0, p0, start, [0] + c, [tag] + EncLen(len + 1), buf, p, ERR_BUF_TOO_SMALL);
          return ERR_BUF_TOO_SMALL;
        }
        ghost var buf1, p1 := buf, p;
        Push(0);
        WroteBoth(buf0, p0, start, c, buf1, p1, len, [0], buf, p, 1);
        n := n + 1;
      }
      ret := Close(buf0, p0, Unsigned(c), n, tag);
    }

    /** The do-while loop over the bytes of an int. */
    method WriteIntBytes(v: int) returns (ret: int)
      requires Valid()
      modifies this
      ensures Valid() && Wrote(old(buf), old(p), start, if v < 0 then [v % 256] else BeBytes(v), buf, p, ret)
    {
      hide Wrote, BeBytes;
      ghost var e := if v < 0 then [v % 256] else BeBytes(v);
      if p - start < 1 {
        NoRoom(buf, p, start, e);
        return ERR_BUF_TOO_SMALL;
      }
      var len := 1;
      Push(v % 256);
      var val := v / 256;
      ghost var done: seq<Byte> := [v % 256];
      FirstByte(v);
      while val > 0
        invariant Valid() && 0 < len == |done| && Wrote(old(buf), old(p), start, done, buf, p, len)
        invariant e == if val > 0 then BeBytes(val) + done else done
        decreases val
      {
        NextByte(val, done);
        ghost var buf1, p1 := buf, p;
        if p - start < 1 {
          WroteMore(old(buf), old(p), start, done, e, buf, p);
          return ERR_BUF_TOO_SMALL;
        }
        Push(val % 256);
        WroteBoth(old(buf), old(p), start, done, buf1, p1, len, [val % 256], buf, p, 1);
        done := [val % 256] + done;
        len := len + 1;
        val := val / 256;
      }
      ret := len;
    }

    /** mbedtls_asn1_write_mpi for a number with sign s and magnitude m. For zero the code looks at the byte behind the
        cursor, so there has to be one. */
    method WriteMpi(s: int, m: nat) returns (ret: int)
      requires Valid() && |BeBytes(m)| < 0xFFFF_FFFF && (m == 0 ==> p < |buf|)
      modifies this
      ensures Valid()
      ensures Wrote(old(buf), old(p), start,
                Tlv(INTEGER, MpiContent(s, m, if m == 0 then old(buf)[old(p)] else 0)), buf, p, ret)
    {
      hide Wrote, EncLen, BeBytes;
      if m == 0 {
        ret := WriteZero(s);
        return;
      }
      var e := BeBytes(m);
      ghost var c := MpiContent(s, m, 0);
      ret := WriteRaw(e);
      WroteRet(old(buf), old(p), start, e, buf, p, ret);
      if ret < 0 {
        WroteFails(old(buf), old(p), start, e, [0], buf, p, ret);
        WroteFails(old(buf), old(p), start, c, [INTEGER] + EncLen(|c|), buf, p, ret);
        return;
      }
      if s == 1 {
        ret := CloseNumber(old(buf), old(p), e, ret, INTEGER);
      } else {
        ret := Close(old(buf), old(p), e, ret, INTEGER);
      }
    }

    /** The same for the number zero: no bytes of its own. */
    method WriteZero(s: int) returns (ret: int)
      requires Valid() && p < |buf|
      modifies this
      ensures Valid() && Wrote(old(buf), old(p), start, Tlv(INTEGER, MpiContent(s, 0, old(buf)[old(p)])), buf, p, ret)
    {
      hide Wrote, EncLen;
      WroteNothing(buf, p, start);
      ghost var buf0, p0 := buf, p;
      if s == 1 && buf[p] >= 0x80 {
        if p - start < 1 {
          NoRoom(buf, p, start, [0]);
          WroteFails(buf, p, start, [0], [INTEGER] + EncLen(1), buf, p, ERR_BUF_TOO_SMALL);
          return ERR_BUF_TOO_SMALL;
        }
        Push(0);
        ret := Close(buf0, p0, [0], 1, INTEGER);
      } else {
        ret := Close(buf0, p0, [], 0, INTEGER);
      }
    }

    /** mbedtls_asn1_write_bitstring. */
    method WriteBitstring(data: seq<Byte>, bits: nat) returns (ret: int)
      requires Valid() && bits <= 8 * |data| && ByteLen(bits) + 1 < 0x1_0000_0000
      modifies this
      ensures Valid() && Wrote(old(buf), old(p), start, Tlv(BIT_STRING, BitContent(data, bits)), buf, p, ret)
    {
      hide Wrote, EncLen, ClearLow;
      var n := (bits + 7) / 8;
      var unused: Byte := 8 * n - bits;
      ghost var c := BitContent(data, bits);
      if p - start < n + 1 {
        NoRoom(buf, p, start, c);
        WroteFails(buf, p, start, c, [BIT_STRING] + EncLen(|c|), buf, p, ERR_BUF_TOO_SMALL);
        return ERR_BUF_TOO_SMALL;
      }
      if n > 0 {
        PushAll(data[..n - 1] + [ClearLow(data[n - 1], unused)]);
      } else {
        WroteNothing(buf, p, start);
      }
      ghost var buf1, p1 := buf, p;
      WroteRoom(old(buf), old(p), start, c[1..], buf, p, n);
      Push(unused);
      WroteBoth(old(buf), old(p), start, c[1..], buf1, p1, n, [unused], buf, p, 1);
      assert c == [unused] + c[1..];
      ret := Close(old(buf), old(p), c, n + 1, BIT_STRING);
    }

    /** mbedtls_asn1_write_named_bitstring. */
    method WriteNamedBitstring(data: seq<Byte>, bits: nat) returns (ret: int)
      requires Valid() && bits <= 8 * |data| && ByteLen(bits) + 1 < 0x1_0000_0000
      modifies this
      ensures Valid()
      ensures Wrote(old(buf), old(p), start, Tlv(BIT_STRING, BitContent(data, Significant(data, bits))), buf, p, ret)
    {
      hide Wrote, Significant, BitContent, Tlv;
      var n := TrimBits(data, bits);
      ret := WriteBitstring(data, n);
    }
  }

  /** The loop that drops trailing zero bits, one shift at a time. */
  method TrimBits(data: seq<Byte>, bits0: nat) returns (bits: nat)
    requires bits0 <= 8 * |data|
    ensures bits == Significant(data, bits0)
  {
    hide Pow2;
    bits := bits0;
    if bits == 0 { return; }
    var n := (bits + 7) / 8;
    var unused := 8 * n - bits;
    var cur := n - 1;
    Pow2Pos(unused);
    var shifted := data[cur] / Pow2(unused);
    while true
      invariant 0 < bits <= bits0 && cur == (bits - 1) / 8
      invariant shifted == data[cur] / Pow2(7 - (bits - 1) % 8)
      invariant Significant(data, bits) == Significant(data, bits0)
      decreases bits
    {
      var bit := shifted % 2;
      ShiftOnce(data[cur], 7 - (bits - 1) % 8);
      shifted := shifted / 2;
      if bit != 0 { break; }
      bits := bits - 1;
      if bits == 0 { break; }
      if bits % 8 == 0 {
        cur := cur - 1;
        shifted := data[cur];
        Pow2None(shifted);
      }
    }
  }

  lemma Pow2Pos(k: nat)
    ensures Pow2(k) > 0
  {
  }

  lemma ShiftOnce(b: nat, k: nat)
    ensures Pow2(k) > 0 && Pow2(k + 1) > 0 && b / Pow2(k) / 2 == b / Pow2(k + 1)
  {
    Pow2Succ(k);
    DivDiv(b, Pow2(k), 2);
  }

  lemma Pow2None(b: nat)
    ensures Pow2(0) == 1 && b / Pow2(0) == b
  {
  }

  lemma NoRoom(buf: seq<Byte>, p: nat, start: nat, e: seq<Byte>)
    requires start <= p <= |buf| && p - start < |e|
    ensures Wrote(buf, p, start, e, buf, p, ERR_BUF_TOO_SMALL)
  {
  }

  lemma WroteRet(buf: seq<Byte>, p: nat, start: nat, e: seq<Byte>, buf': seq<Byte>, p': nat, ret: int)
    requires Wrote(buf, p, start, e, buf', p', ret)
    ensures ret >= 0 ==> ret == |e|
    ensures ret < 0 ==> ret == ERR_BUF_TOO_SMALL
    ensures ret < 0 <==> p - start < |e|
  {
  }

  lemma WroteRoom(buf: seq<Byte>, p: nat, start: nat, e: seq<Byte>, buf': seq<Byte>, p': nat, ret: int)
    requires Wrote(buf, p, start, e, buf', p', ret) && ret >= 0
    ensures p' == p - |e|
  {
  }

  lemma WroteFirst(buf: seq<Byte>, p: nat, start: nat, c: seq<Byte>, buf': seq<Byte>, p': nat)
    requires Wrote(buf, p, start, c, buf', p', |c|) && c != []
    ensures p' < |buf'| && buf'[p'] == c[0]
  {
  }

  lemma WroteFull(buf: seq<Byte>, p: nat, start: nat, c: seq<Byte>, buf': seq<Byte>, p': nat)
    requires Wrote(buf, p, start, c, buf', p', |c|) && p' == start
    ensures Wrote(buf, p, start, [0] + c, buf', p', ERR_BUF_TOO_SMALL)
  {
    assert buf'[p..] == buf[p..];
  }

  /** No room for the next byte is no room for all. */
  lemma WroteMore(buf: seq<Byte>, p: nat, start: nat, done: seq<Byte>, e: seq<Byte>, buf': seq<Byte>, p': nat)
    requires Wrote(buf, p, start, done, buf', p', |done|) && p' == start && |done| < |e|
    ensures Wrote(buf, p, start, e, buf', p', ERR_BUF_TOO_SMALL)
  {
    assert buf'[p..] == buf[p..];
  }

  lemma FirstByte(v: int)
    ensures v < 0 ==> v / 256 < 0
    ensures v >= 0 ==> BeBytes(v) == if v / 256 > 0 then BeBytes(v / 256) + [v % 256] else [v % 256]
  {
  }

  lemma NextByte(val: nat, done: seq<Byte>)
    requires 0 < val
    ensures BeBytes(val) + done == (if val / 256 > 0 then BeBytes(val / 256) + ([val % 256] + done) else [val % 256] + done)
  {
    if val >= 256 { AppendAssoc(BeBytes(val / 256), [val % 256], done); }
  }

  /** The length forms written out. */
  lemma EncLenIs(len: nat)
    requires len < 0x1_0000_0000
    ensures len < 0x80 ==> EncLen(len) == [len]
    ensures 0x80 <= len <= 0xFF ==> EncLen(len) == [0x81, len]
    ensures 0xFF < len <= 0xFFFF ==> EncLen(len) == [0x82, len / 0x100, len % 256]
    ensures 0xFFFF < len <= 0xFF_FFFF ==> EncLen(len) == [0x83, len / 0x1_0000, len / 0x100 % 256, len % 256]
    ensures 0xFF_FFFF < len ==> EncLen(len) == [0x84, len / 0x100_0000, len / 0x1_0000 % 256, len / 0x100 % 256, len % 256]
  {
    hide EncLen;
    if len < 0x80 {
      EncLenShort(len);
    } else if len <= 0xFF {
      LenBytesAre(len, 1);
    } else if len <= 0xFFFF {
      LenBytesAre(len, 2);
    } else if len <= 0xFF_FFFF {
      LenBytesAre(len, 3);
    } else {
      LenBytesAre(len, 4);
    }
  }

  lemma EncLenShort(len: nat)
    requires len < 0x80
    ensures EncLen(len) == [len]
  {
  }

  lemma LenBytesAre(len: nat, k: nat)
    requires 0x80 <= len < 0x1_0000_0000 && k == LenBytes(len)
    ensures k == 1 ==> EncLen(len) == [0x81, len % 256] && len < 256
    ensures k == 2 ==> EncLen(len) == [0x82, len / 0x100 % 256, len % 256]
    ensures k == 3 ==> EncLen(len) == [0x83, len / 0x1_0000 % 256, len / 0x100 % 256, len % 256]
    ensures k == 4 ==> EncLen(len) == [0x84, len / 0x100_0000 % 256, len / 0x1_0000 % 256, len / 0x100 % 256, len % 256]
  {
    hide ToBe;
    var a, b, c := len / 0x100, len / 0x1_0000, len / 0x100_0000;
    assert b == a / 256 && c == b / 256;
    assert ToBe(c / 256, 0) == [] && ToBe(b / 256, 0) == [] && ToBe(a / 256, 0) == [] && ToBe(a, 0) == [];
    BeStep(len, k);
    if k > 1 { BeStep(a, k - 1); }
    if k > 2 { BeStep(b, k - 2); }
    if k > 3 { BeStep(c, k - 3); }
  }

  lemma BeStep(v: nat, n: nat)
    requires 0 < n
    ensures ToBe(v, n) == ToBe(v / 256, n - 1) + [v % 256]
  {
  }

  /** What the writer puts in front of parLen bytes of parameters. */
  function AlgHead(oid: seq<Byte>, parLen: nat): seq<Byte> {
    [SEQUENCE] + EncLen(|Tlv(OID, oid)| + parLen) + Tlv(OID, oid)
  }

  lemma AlgParts(oid: seq<Byte>, params: seq<Byte>)
    ensures EncAlg(oid, params) == AlgHead(oid, |params|) + params
  {
    hide EncLen;
    AppendAssoc([SEQUENCE] + EncLen(|Tlv(OID, oid)| + |params|), Tlv(OID, oid), params);
  }

  /** Like Wrote for an encoding e whose end, last, stood behind the cursor already and counts. */
  ghost predicate WroteBefore(buf: seq<Byte>, p: nat, start: nat, e: seq<Byte>, last: seq<Byte>, buf': seq<Byte>, p': nat, ret: int) {
    && start <= p <= |buf| && last <= buf[p..] && |last| <= |e|
    && if p - start >= |e| - |last| then ret == |e| && p' == p + |last| - |e| && buf' == buf[..p'] + e + buf[p + |last|..]
       else ret == ERR_BUF_TOO_SMALL && start <= p' <= p && |buf'| == |buf| && buf'[p..] == buf[p..]
  }

  lemma WroteIsBefore(buf: seq<Byte>, p: nat, start: nat, h: seq<Byte>, last: seq<Byte>, buf': seq<Byte>, p': nat, more: int)
    requires Wrote(buf, p, start, h, buf', p', more) && p + |last| <= |buf| && last == buf[p..p + |last|]
    ensures WroteBefore(buf, p, start, h + last, last, buf', p', if more < 0 then more else |last| + more)
  {
    assert buf[p..][..|last|] == last;
    assert buf[p..] == last + buf[p + |last|..];
    if p - start >= |h| {
      AppendAssoc(buf[..p'] + h, last, buf[p + |last|..]);
      AppendAssoc(buf[..p'], h, last);
    }
  }
}
