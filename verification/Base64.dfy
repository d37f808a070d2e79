/** mbedtls/library/base64.c: encoder and two-pass decoder (section 5.2 of RFC 1521). */
module Base64 {
  import opened Arith
  import opened Limbs
  import opened Bytes

  const ERR_BUFFER_TOO_SMALL: int := -0x002A
  const ERR_INVALID_CHARACTER: int := -0x002C
  const SIZE_T_MAX: nat := 0xFFFF_FFFF_FFFF_FFFF

  const LF: Byte := 10
  const CR: Byte := 13
  const SPACE: Byte := 32
  const EQUALS: Byte := 61

  // ---------------------------------------------------------------- the alphabet

  /** base64_enc_map: A-Z, a-z, 0-9, +, /. */
  function EncChar(v: nat): Byte
    requires v < 64
  {
    if v < 26 then 65 + v else if v < 52 then 97 + (v - 26) else if v < 62 then 48 + (v - 52) else if v == 62 then 43 else 47
  }

  /** base64_dec_map: the value of a character, 64 for =, 127 for anything outside. */
  function DecChar(c: Byte): nat {
    if 65 <= c <= 90 then c - 65 else if 97 <= c <= 122 then c - 97 + 26 else if 48 <= c <= 57 then c - 48 + 52
    else if c == 43 then 62 else if c == 47 then 63 else if c == EQUALS then 64 else 127
  }

  lemma DecOfEnc(v: nat)
    requires v < 64
    ensures DecChar(EncChar(v)) == v
  {
  }

  /** The alphabet of section 5.2 of RFC 1521 by its characters. */
  lemma EncCharIs(v: nat)
    requires v < 64
    ensures EncChar(v) == if v < 26 then 'A' as int + v else if v < 52 then 'a' as int + v - 26
                          else if v < 62 then '0' as int + v - 52 else if v == 62 then '+' as int else '/' as int
    ensures EQUALS == '=' as int && LF == '\n' as int && CR == '\r' as int && SPACE == ' ' as int
  {
  }

  // ---------------------------------------------------------------- encoding

  /** Three bytes as four characters. */
  function Quad(a: Byte, b: Byte, c: Byte): seq<Byte> {
    [EncChar(a / 4), EncChar(a % 4 * 16 + b / 16), EncChar(b % 16 * 4 + c / 64), EncChar(c % 64)]
  }

  function Encode(s: seq<Byte>): seq<Byte> {
    if s == [] then []
    else if |s| == 1 then [EncChar(s[0] / 4), EncChar(s[0] % 4 * 16), EQUALS, EQUALS]
    else if |s| == 2 then [EncChar(s[0] / 4), EncChar(s[0] % 4 * 16 + s[1] / 16), EncChar(s[1] % 16 * 4), EQUALS]
    else Quad(s[0], s[1], s[2]) + Encode(s[3..])
  }

  lemma {:induction false} EncodeLength(s: seq<Byte>)
    ensures |Encode(s)| == (|s| + 2) / 3 * 4
  {
    hide EncChar;
    if |s| >= 3 {
      EncodeLength(s[3..]);
      assert (|s| + 2) / 3 == (|s| - 3 + 2) / 3 + 1;
    }
  }

  /** Group i of the encoding: the 24 bits of three bytes in sextets, most significant first. */
  lemma {:induction false} EncodeGroupIs(s: seq<Byte>, i: nat)
    requires 3 * i + 3 <= |s|
    ensures 4 * i + 4 <= |Encode(s)|
    ensures var a: nat, b: nat, c: nat := s[3 * i], s[3 * i + 1], s[3 * i + 2];
            var v := a * 0x1_0000 + b * 0x100 + c;
            Encode(s)[4 * i..4 * i + 4] == [EncChar(v / 0x4_0000 % 64), EncChar(v / 0x1000 % 64), EncChar(v / 64 % 64), EncChar(v % 64)]
    decreases i
  {
    hide EncChar, Encode;
    assert s[0..] == s;
    EncodeGroup(s, 0);
    QuadSize(s[0], s[1], s[2]);
    var q, rest := Quad(s[0], s[1], s[2]), Encode(s[3..]);
    if i == 0 {
      assert (q + rest)[0..4] == q;
      SextetsOf24(s[0], s[1], s[2]);
    } else {
      EncodeGroupIs(s[3..], i - 1);
      assert (q + rest)[4 * i..4 * i + 4] == rest[4 * (i - 1)..4 * (i - 1) + 4];
    }
  }

  lemma SextetsOf24(a: nat, b: nat, c: nat)
    requires a < 256 && b < 256 && c < 256
    ensures var v := a * 0x1_0000 + b * 0x100 + c;
            && v / 0x4_0000 % 64 == a / 4 && v / 0x1000 % 64 == a % 4 * 16 + b / 16
            && v / 64 % 64 == b % 16 * 4 + c / 64 && v % 64 == c % 64
  {
    var v := a * 0x1_0000 + b * 0x100 + c;
    var w, x, y, z := a / 4, a % 4 * 16 + b / 16, b % 16 * 4 + c / 64, c % 64;
    Sextets(a, b, c);
    DivModUnique(v, 0x4_0000, w, (x * 64 + y) * 64 + z);
    DivModUnique(v, 0x1000, w * 64 + x, y * 64 + z);
    DivModUnique(v, 64, (w * 64 + x) * 64 + y, z);
    DivModUnique(w * 64 + x, 64, w, x);
    DivModUnique((w * 64 + x) * 64 + y, 64, w * 64 + x, y);
  }

  // ---------------------------------------------------------------- the first pass

  predicate Skipped(c: Byte) {
    c == CR || c == LF || c == SPACE
  }

  /** The characters the second pass looks at. */
  function Filter(s: seq<Byte>): seq<Byte> {
    if s == [] then [] else if Skipped(s[0]) then Filter(s[1..]) else [s[0]] + Filter(s[1..])
  }

  function Spaces(s: seq<Byte>): (k: nat)
    ensures k <= |s| && (k < |s| ==> s[k] != SPACE)
    ensures forall i :: 0 <= i < k ==> s[i] == SPACE
  {
    if s == [] || s[0] != SPACE then 0 else 1 + Spaces(s[1..])
  }

  datatype Scanned = Chars(n: nat, equals: nat) | Invalid

  function More(r: Scanned): Scanned {
    if r.Chars? then Chars(r.n + 1, r.equals) else r
  }

  /** What the first pass makes of s after j equal signs: how many characters count, and the equal signs in all. */
  function Scan(s: seq<Byte>, j: nat): Scanned
    decreases |s|
  {
    var k := Spaces(s);
    if k == |s| then Chars(0, j)
    else
      var c, rest := s[k], s[k + 1..];
      if c == CR && |rest| >= 1 && rest[0] == LF then Scan(rest, j)
      else if c == LF then Scan(rest, j)
      else if k != 0 then Invalid
      else if c == EQUALS then (if j + 1 > 2 then Invalid else More(Scan(rest, j + 1)))
      else if DecChar(c) == 127 || j != 0 then Invalid
      else More(Scan(rest, j))
  }

  /** Characters of the alphabet, then equal signs up to two in all. */
  predicate Legal(f: seq<Byte>, j: nat) {
    f == [] || (if f[0] == EQUALS then j < 2 && Legal(f[1..], j + 1) else DecChar(f[0]) < 64 && j == 0 && Legal(f[1..], 0))
  }

  function Equals(f: seq<Byte>): (n: nat)
    ensures n <= |f|
  {
    if f == [] then 0 else (if f[0] == EQUALS then 1 else 0) + Equals(f[1..])
  }

  lemma {:induction false} FilterSpaces(s: seq<Byte>, k: nat)
    requires k <= |s| && forall i :: 0 <= i < k ==> s[i] == SPACE
    ensures Filter(s) == Filter(s[k..])
  {
    if k > 0 {
      FilterSpaces(s[1..], k - 1);
      assert s[1..][k - 1..] == s[k..];
    } else {
      assert s[0..] == s;
    }
  }

  /** What the first pass accepts: the characters that count are legal, and it counts them. */
  lemma {:induction false} ScanMeans(s: seq<Byte>, j: nat)
    requires Scan(s, j).Chars? && j <= 2
    ensures var r := Scan(s, j); var f := Filter(s);
            Legal(f, j) && r.n == |f| && r.equals == j + Equals(f) && r.equals <= 2
    decreases |s|
  {
    var k := Spaces(s);
    FilterSpaces(s, k);
    if k == |s| {
      assert Filter(s[k..]) == [];
    } else {
      var c, rest := s[k], s[k + 1..];
      assert s[k..][1..] == rest && s[k..][0] == c;
      if c == CR && |rest| >= 1 && rest[0] == LF {
        ScanMeans(rest, j);
      } else if c == LF {
        ScanMeans(rest, j);
      } else {
        ScanMeans(rest, if c == EQUALS then j + 1 else j);
        FirstKept(c, Filter(rest));
      }
    }
  }

  lemma FirstKept(c: Byte, f: seq<Byte>)
    ensures ([c] + f)[1..] == f
  {
  }

  // ---------------------------------------------------------------- the second pass

  function Sextet(c: Byte): (v: nat)
    ensures v < 64
  {
    DecChar(c) % 64
  }

  /** The 24 bits of four characters as three bytes. */
  function Triple(g: seq<Byte>): (t: seq<Byte>)
    requires |g| == 4
    ensures |t| == 3
  {
    var v := ((Sextet(g[0]) * 64 + Sextet(g[1])) * 64 + Sextet(g[2])) * 64 + Sextet(g[3]);
    [v / 0x1_0000 % 256, v / 0x100 % 256, v % 256]
  }

  function Take(t: seq<Byte>, j: int): (r: seq<Byte>)
    requires |t| == 3
  {
    if j <= 0 then [] else if j <= 2 then t[..j] else t
  }

  /** Groups of four; each keeps as many bytes as the equal signs so far leave of three. */
  function Groups(f: seq<Byte>, j: int): seq<Byte>
    decreases |f|
  {
    if |f| < 4 then []
    else
      var j' := j - Equals(f[..4]);
      Take(Triple(f[..4]), j') + Groups(f[4..], j')
  }

  /** The size the first pass announces. */
  function Needed(n: nat, equals: nat): int {
    (6 * n + 7) / 8 - equals
  }

  lemma {:induction false} EqualsConcat(a: seq<Byte>, b: seq<Byte>)
    ensures Equals(a + b) == Equals(a) + Equals(b)
  {
    if a == [] {
      assert a + b == b;
    } else {
      assert (a + b)[1..] == a[1..] + b;
      EqualsConcat(a[1..], b);
    }
  }

  lemma {:induction false} LegalTail(a: seq<Byte>, b: seq<Byte>, j: nat)
    requires Legal(a + b, j)
    ensures Legal(b, j + Equals(a))
  {
    if a == [] {
      assert a + b == b;
    } else {
      assert (a + b)[1..] == a[1..] + b;
      LegalTail(a[1..], b, if a[0] == EQUALS then j + 1 else 0);
    }
  }

  /** After an equal sign only equal signs follow. */
  lemma {:induction false} LegalAfter(f: seq<Byte>, j: nat)
    requires Legal(f, j) && j <= 2
    ensures j > 0 ==> |f| == Equals(f) && |f| <= 2 - j
    ensures j + Equals(f) <= 2
  {
    if f != [] { LegalAfter(f[1..], if f[0] == EQUALS then j + 1 else 0); }
  }

  /** The second pass writes no more than the first pass announces, and exactly that if and only if the characters
      after the last group of four are no more than the equal signs. */
  lemma {:induction false} WritesWithin(f: seq<Byte>)
    requires Legal(f, 0)
    ensures |Groups(f, 3)| <= Needed(|f|, Equals(f))
    ensures |Groups(f, 3)| == Needed(|f|, Equals(f)) <==> |f| % 4 <= Equals(f)
    decreases |f|
  {
    hide Groups, Legal, Equals, Needed, Triple;
    LegalAfter(f, 0);
    if |f| >= 4 {
      var g, rest := f[..4], f[4..];
      assert f == g + rest;
      EqualsConcat(g, rest);
      LegalTail(g, rest, 0);
      FirstGroup(g, rest, 3);
      var e := Equals(g);
      if e == 0 {
        WritesWithin(rest);
        OneGroupMore(|rest|, Equals(rest));
      } else {
        LegalAfter(rest, e);
        NoGroup(rest, 3 - e);
        LastGroup(e, |rest|);
      }
    } else {
      NoGroup(f, 3);
      ShortIsEnough(|f|, Equals(f));
    }
  }

  lemma OneGroupMore(n: nat, e: nat)
    ensures Needed(n + 4, e) == Needed(n, e) + 3
  {
  }

  lemma LastGroup(e: nat, n: nat)
    requires 1 <= e <= 2 && n <= 2 - e
    ensures Needed(n + 4, e + n) == 3 - e
  {
    if n == 0 {} else {}
  }

  lemma NoGroup(f: seq<Byte>, j: int)
    requires |f| < 4
    ensures Groups(f, j) == []
  {
  }

  lemma ShortIsEnough(n: nat, e: nat)
    requires n < 4 && e <= 2 && e <= n
    ensures 0 <= Needed(n, e) && (Needed(n, e) == 0 <==> n <= e)
  {
    if n == 0 {} else if n == 1 {} else if n == 2 {} else {}
    if e == 0 {} else if e == 1 {} else {}
  }

  lemma FirstGroup(g: seq<Byte>, rest: seq<Byte>, j: int)
    requires |g| == 4
    ensures Groups(g + rest, j) == Take(Triple(g), j - Equals(g)) + Groups(rest, j - Equals(g))
  {
    hide Triple;
    assert (g + rest)[..4] == g && (g + rest)[4..] == rest;
  }

  // ---------------------------------------------------------------- round trip

  lemma QuadBack(a: Byte, b: Byte, c: Byte)
    ensures Triple(Quad(a, b, c)) == [a, b, c] && Equals(Quad(a, b, c)) == 0
  {
    hide Equals, EncChar, DecChar;
    DecOfEnc(a / 4);
    DecOfEnc(a % 4 * 16 + b / 16);
    DecOfEnc(b % 16 * 4 + c / 64);
    DecOfEnc(c % 64);
    NotEquals(Quad(a, b, c));
    TripleOf(Quad(a, b, c), a / 4, a % 4 * 16 + b / 16, b % 16 * 4 + c / 64, c % 64, a, b, c) by { Sextets(a, b, c); }
  }

  /** Four sextets that make up three bytes. */
  lemma TripleOf(g: seq<Byte>, w: nat, x: nat, y: nat, z: nat, a: Byte, b: Byte, c: Byte)
    requires |g| == 4 && w < 64 && x < 64 && y < 64 && z < 64
    requires Sextet(g[0]) == w && Sextet(g[1]) == x && Sextet(g[2]) == y && Sextet(g[3]) == z
    requires ((w * 64 + x) * 64 + y) * 64 + z == a * 0x1_0000 + b * 0x100 + c
    ensures Triple(g) == [a, b, c]
  {
    hide Sextet;
    BytesOf24(a, b, c);
  }

  lemma BytesOf24(a: Byte, b: Byte, c: Byte)
    ensures var v := a * 0x1_0000 + b * 0x100 + c; v / 0x1_0000 % 256 == a && v / 0x100 % 256 == b && v % 256 == c
  {
    var v := a * 0x1_0000 + b * 0x100 + c;
    DivModUnique(v, 0x1_0000, a, b * 0x100 + c);
    DivModUnique(v, 0x100, a * 0x100 + b, c);
    DivModUnique(a * 0x100 + b, 256, a, b);
  }

  lemma Sextets(a: Byte, b: Byte, c: Byte)
    ensures ((a / 4 * 64 + (a % 4 * 16 + b / 16)) * 64 + (b % 16 * 4 + c / 64)) * 64 + c % 64 == a * 0x1_0000 + b * 0x100 + c
  {
  }

  lemma {:induction false} NotEquals(s: seq<Byte>)
    requires forall i :: 0 <= i < |s| ==> DecChar(s[i]) < 64
    ensures Equals(s) == 0
  {
    if s != [] { NotEquals(s[1..]); }
  }

  lemma {:induction false} EncodeLegal(s: seq<Byte>)
    ensures Legal(Encode(s), 0)
    decreases |s|
  {
    hide EncChar, DecChar;
    if |s| >= 3 {
      EncodeLegal(s[3..]);
      LegalQuad(s[0] / 4, s[0] % 4 * 16 + s[1] / 16, s[1] % 16 * 4 + s[2] / 64, s[2] % 64, Encode(s[3..]));
    } else if |s| == 2 {
      LegalOne(s[1] % 16 * 4, [EQUALS]);
      LegalOne(s[0] % 4 * 16 + s[1] / 16, [EncChar(s[1] % 16 * 4)] + [EQUALS]);
      LegalOne(s[0] / 4, [EncChar(s[0] % 4 * 16 + s[1] / 16)] + ([EncChar(s[1] % 16 * 4)] + [EQUALS]));
      assert Encode(s) == [EncChar(s[0] / 4)] + ([EncChar(s[0] % 4 * 16 + s[1] / 16)] + ([EncChar(s[1] % 16 * 4)] + [EQUALS]));
    } else if |s| == 1 {
      TwoEquals();
      LegalOne(s[0] % 4 * 16, [EQUALS, EQUALS]);
      LegalOne(s[0] / 4, [EncChar(s[0] % 4 * 16)] + [EQUALS, EQUALS]);
      assert Encode(s) == [EncChar(s[0] / 4)] + ([EncChar(s[0] % 4 * 16)] + [EQUALS, EQUALS]);
    }
  }

  lemma TwoEquals()
    ensures Legal([EQUALS, EQUALS], 0) && Legal([EQUALS], 0)
  {
    assert [EQUALS, EQUALS][1..] == [EQUALS] && [EQUALS][1..] == [];
    assert Legal([], 2) && Legal([], 1);
    assert Legal([EQUALS], 1);
  }

  lemma LegalOne(v: nat, f: seq<Byte>)
    requires v < 64 && (Legal(f, 0) || f == [EQUALS])
    ensures Legal([EncChar(v)] + f, 0)
  {
    TwoEquals();
    DecOfEnc(v);
    assert ([EncChar(v)] + f)[1..] == f;
  }

  lemma LegalQuad(a: nat, b: nat, c: nat, d: nat, f: seq<Byte>)
    requires a < 64 && b < 64 && c < 64 && d < 64 && Legal(f, 0)
    ensures Legal([EncChar(a), EncChar(b), EncChar(c), EncChar(d)] + f, 0)
  {
    hide EncChar, DecChar;
    LegalOne(d, f);
    LegalOne(c, [EncChar(d)] + f);
    LegalOne(b, [EncChar(c)] + ([EncChar(d)] + f));
    LegalOne(a, [EncChar(b)] + ([EncChar(c)] + ([EncChar(d)] + f)));
    assert [EncChar(a), EncChar(b), EncChar(c), EncChar(d)] + f
      == [EncChar(a)] + ([EncChar(b)] + ([EncChar(c)] + ([EncChar(d)] + f)));
  }

  /** The second pass undoes the encoder. */
  lemma {:induction false} GroupsOfEncode(s: seq<Byte>)
    ensures Groups(Encode(s), 3) == s
    decreases |s|
  {
    hide Triple, Quad, Equals, EncChar, DecChar, Encode, Groups;
    assert s[0..] == s;
    if |s| >= 3 {
      var q := Quad(s[0], s[1], s[2]);
      EncodeGroup(s, 0);
      GroupsOfEncode(s[3..]);
      QuadBack(s[0], s[1], s[2]);
      QuadSize(s[0], s[1], s[2]);
      FirstGroup(q, Encode(s[3..]), 3);
      assert s == [s[0], s[1], s[2]] + s[3..];
    } else {
      EncodeTail(s, 0);
      LastBytes(s);
    }
  }

  lemma LastBytes(s: seq<Byte>)
    requires |s| < 3
    ensures Groups(Encode(s), 3) == s
  {
    hide Triple, Equals, EncChar, Groups, Encode;
    assert s[0..] == s;
    EncodeTail(s, 0);
    if s == [] {
      NoGroup([], 3);
    } else if |s| == 2 {
      TwoBack(s[0], s[1]);
      PartOfGroup(Encode(s), [s[0], s[1], 0], 2);
      assert [s[0], s[1], 0][..2] == s;
    } else {
      OneBack(s[0]);
      PartOfGroup(Encode(s), [s[0], 0, 0], 1);
      assert [s[0], 0, 0][..1] == s;
    }
  }

  lemma PartOfGroup(e: seq<Byte>, t: seq<Byte>, k: nat)
    requires |e| == 4 && Triple(e) == t && Equals(e) == 3 - k && 1 <= k <= 2
    ensures |t| == 3 && Groups(e, 3) == t[..k]
  {
    hide Triple, Equals, Groups;
    assert e + [] == e;
    FirstGroup(e, [], 3);
    NoGroup([], k);
  }

  lemma QuadSize(a: Byte, b: Byte, c: Byte)
    ensures |Quad(a, b, c)| == 4
  {
  }

  /** The last one or two bytes. */
  lemma TwoBack(a: Byte, b: Byte)
    ensures var e := [EncChar(a / 4), EncChar(a % 4 * 16 + b / 16), EncChar(b % 16 * 4), EQUALS];
            Triple(e) == [a, b, 0] && Equals(e) == 1
  {
    hide Equals, EncChar, DecChar;
    DecOfEnc(a / 4);
    DecOfEnc(a % 4 * 16 + b / 16);
    DecOfEnc(b % 16 * 4);
    EqualsIs64();
    var e := [EncChar(a / 4), EncChar(a % 4 * 16 + b / 16), EncChar(b % 16 * 4), EQUALS];
    TripleOf(e, a / 4, a % 4 * 16 + b / 16, b % 16 * 4, 0, a, b, 0) by { Sextets(a, b, 0); }
    LastOne(e[0], e[1], e[2]);
  }

  lemma OneBack(a: Byte)
    ensures var e := [EncChar(a / 4), EncChar(a % 4 * 16), EQUALS, EQUALS];
            Triple(e) == [a, 0, 0] && Equals(e) == 2
  {
    hide Equals, EncChar, DecChar;
    DecOfEnc(a / 4);
    DecOfEnc(a % 4 * 16);
    EqualsIs64();
    var e := [EncChar(a / 4), EncChar(a % 4 * 16), EQUALS, EQUALS];
    TripleOf(e, a / 4, a % 4 * 16, 0, 0, a, 0, 0) by { Sextets(a, 0, 0); }
    LastTwo(e[0], e[1]);
  }

  lemma EqualsIs64()
    ensures Sextet(EQUALS) == 0
  {
  }

  lemma LastOne(x: Byte, y: Byte, z: Byte)
    requires DecChar(x) < 64 && DecChar(y) < 64 && DecChar(z) < 64
    ensures Equals([x, y, z, EQUALS]) == 1
  {
    hide Equals;
    EqualsConcat([x, y, z], [EQUALS]);
    NotEquals([x, y, z]);
    OnlyEquals();
    assert [x, y, z] + [EQUALS] == [x, y, z, EQUALS];
  }

  lemma LastTwo(x: Byte, y: Byte)
    requires DecChar(x) < 64 && DecChar(y) < 64
    ensures Equals([x, y, EQUALS, EQUALS]) == 2
  {
    hide Equals;
    EqualsConcat([x, y], [EQUALS, EQUALS]);
    NotEquals([x, y]);
    OnlyEquals();
    assert [x, y] + [EQUALS, EQUALS] == [x, y, EQUALS, EQUALS];
  }

  lemma OnlyEquals()
    ensures Equals([EQUALS]) == 1 && Equals([EQUALS, EQUALS]) == 2
  {
    assert [EQUALS][1..] == [] && [EQUALS, EQUALS][1..] == [EQUALS];
  }

  // ---------------------------------------------------------------- line ends

  /** A line: its characters and whether it ends in CRLF or in LF. */
  datatype Line = Line(text: seq<Byte>, crlf: bool)

  function End(crlf: bool): seq<Byte> {
    if crlf then [CR, LF] else [LF]
  }

  /** Lines, and characters after the last line end. */
  function Lines(ls: seq<Line>, tail: seq<Byte>): seq<Byte> {
    if ls == [] then tail else ls[0].text + (End(ls[0].crlf) + Lines(ls[1..], tail))
  }

  /** The same without the line ends. */
  function Texts(ls: seq<Line>, tail: seq<Byte>): seq<Byte> {
    if ls == [] then tail else ls[0].text + Texts(ls[1..], tail)
  }

  /** One character that counts in front. */
  lemma ScanChar(c: Byte, s: seq<Byte>, j: nat)
    requires c == EQUALS || DecChar(c) < 64
    ensures Filter([c] + s) == [c] + Filter(s)
    ensures Scan([c] + s, j) == if c == EQUALS then (if j + 1 > 2 then Invalid else More(Scan(s, j + 1)))
                                else if j != 0 then Invalid else More(Scan(s, j))
  {
    var t := [c] + s;
    assert Spaces(t) == 0;
    assert t[1..] == s;
  }

  lemma ScanEnd(crlf: bool, s: seq<Byte>, j: nat)
    ensures Scan(End(crlf) + s, j) == Scan(s, j) && Filter(End(crlf) + s) == Filter(s)
  {
    var t := [LF] + s;
    assert Spaces(t) == 0 && t[1..] == s;
    if crlf {
      var u := End(crlf) + s;
      assert Spaces(u) == 0 && u[1..] == t;
    }
  }

  /** Text that counts, in front of anything. */
  lemma {:induction false} ScanText(text: seq<Byte>, s: seq<Byte>, j: nat)
    requires Legal(text + Filter(s), j) && j <= 2
    requires Scan(s, j + Equals(text)) == Chars(|Filter(s)|, j + Equals(text) + Equals(Filter(s)))
    ensures Filter(text + s) == text + Filter(s)
    ensures Scan(text + s, j) == Chars(|text| + |Filter(s)|, j + Equals(text) + Equals(Filter(s)))
  {
    hide Filter, Scan;
    if text == [] {
      assert text + s == s && text + Filter(s) == Filter(s);
    } else {
      var c, t := text[0], text[1..];
      assert (text + Filter(s))[1..] == t + Filter(s);
      var j' := if c == EQUALS then j + 1 else j;
      ScanText(t, s, j');
      ScanChar(c, t + s, j);
      assert text + s == [c] + (t + s);
      assert text + Filter(s) == [c] + (t + Filter(s));
    }
  }

  lemma {:induction false} ScanLines(ls: seq<Line>, tail: seq<Byte>, j: nat)
    requires Legal(Texts(ls, tail), j) && j <= 2
    ensures Filter(Lines(ls, tail)) == Texts(ls, tail)
    ensures Scan(Lines(ls, tail), j) == Chars(|Texts(ls, tail)|, j + Equals(Texts(ls, tail)))
    decreases |ls|
  {
    hide Filter, Scan;
    if ls == [] {
      ScanNothing(j + Equals(tail));
      assert tail + [] == tail;
      ScanText(tail, [], j);
    } else {
      var text, crlf, rest := ls[0].text, ls[0].crlf, ls[1..];
      LegalTail(text, Texts(rest, tail), j);
      EqualsConcat(text, Texts(rest, tail));
      LegalAfter(Texts(ls, tail), j);
      ScanLines(rest, tail, j + Equals(text));
      ScanEnd(crlf, Lines(rest, tail), j + Equals(text));
      ScanText(text, End(crlf) + Lines(rest, tail), j);
    }
  }

  lemma ScanNothing(j: nat)
    ensures Scan([], j) == Chars(0, j) && Filter([]) == []
  {
  }

  // ---------------------------------------------------------------- the decoder as a whole

  datatype Decoded = Out(bytes: seq<Byte>) | Small(needed: nat) | BadChar

  /** What decode returns for a buffer of dlen bytes, or none. */
  function Decode(src: seq<Byte>, buffer: bool, dlen: nat): Decoded {
    var r := Scan(src, 0);
    if r.Invalid? then BadChar
    else if r.n == 0 then Out([])
    else
      ScanMeans(src, 0);
      WritesWithin(Filter(src));
      var n := Needed(r.n, r.equals);
      if !buffer || dlen < n then Small(n) else Out(Groups(Filter(src), 3))
  }

  /** However an encoding is broken into lines, it decodes to what was encoded. */
  lemma RoundTrip(x: seq<Byte>, ls: seq<Line>, tail: seq<Byte>, dlen: nat)
    requires Texts(ls, tail) == Encode(x) && |x| <= dlen
    ensures Decode(Lines(ls, tail), true, dlen) == Out(x)
  {
    hide Scan, Filter, Groups, Encode;
    EncodeLegal(x);
    ScanLines(ls, tail, 0);
    GroupsOfEncode(x);
    WritesWithin(Encode(x));
    EncodeSize(x);
  }

  lemma EncodeSize(x: seq<Byte>)
    ensures |Encode(x)| % 4 == 0 && (x == [] <==> Encode(x) == [])
  {
    hide EncChar;
    EncodeLength(x);
  }

  // ---------------------------------------------------------------- mbedtls_base64_encode

  /** The encoder's loop over whole groups, and the last one or two bytes. */
  method EncodeBytes(src: seq<Byte>) returns (out: seq<Byte>)
    ensures out == Encode(src)
  {
    hide EncChar, Encode;
    out := [];
    var n := |src| / 3 * 3;
    var i := 0;
    ghost var k := 0;
    assert src[0..] == src;
    while i < n
      invariant 0 <= i <= n && i == 3 * k && out + Encode(src[i..]) == Encode(src)
    {
      var c1, c2, c3 := src[i], src[i + 1], src[i + 2];
      EncodeGroup(src, i);
      AppendAssoc(out, Quad(c1, c2, c3), Encode(src[i + 3..]));
      out := out + [EncChar(c1 / 4), EncChar(c1 % 4 * 16 + c2 / 16), EncChar(c2 % 16 * 4 + c3 / 64), EncChar(c3 % 64)];
      i := i + 3;
      k := k + 1;
    }
    EncodeTail(src, i);
    if i < |src| {
      var c1 := src[i];
      var c2: Byte := if i + 1 < |src| then src[i + 1] else 0;
      out := out + [EncChar(c1 / 4), EncChar(c1 % 4 * 16 + c2 / 16),
                    if i + 1 < |src| then EncChar(c2 % 16 * 4) else EQUALS, EQUALS];
    } else {
      assert out + [] == out;
    }
  }

  lemma EncodeGroup(src: seq<Byte>, i: nat)
    requires i + 3 <= |src|
    ensures Encode(src[i..]) == Quad(src[i], src[i + 1], src[i + 2]) + Encode(src[i + 3..])
  {
    hide Quad;
    assert src[i..][3..] == src[i + 3..];
  }

  lemma EncodeTail(src: seq<Byte>, i: nat)
    requires i <= |src| < i + 3
    ensures i == |src| ==> Encode(src[i..]) == []
    ensures i + 1 == |src| ==> Encode(src[i..]) == [EncChar(src[i] / 4), EncChar(src[i] % 4 * 16), EQUALS, EQUALS]
    ensures i + 2 == |src| ==>
      Encode(src[i..]) == [EncChar(src[i] / 4), EncChar(src[i] % 4 * 16 + src[i + 1] / 16), EncChar(src[i + 1] % 16 * 4), EQUALS]
  {
    hide EncChar;
  }

  /** mbedtls_base64_encode into a buffer of dlen bytes, or none; dst is what is written, with the final zero. */
  method EncodeBuffer(src: seq<Byte>, buffer: bool, dlen: nat) returns (ret: int, olen: nat, dst: seq<Byte>)
    requires |src| <= SIZE_T_MAX && dlen <= SIZE_T_MAX
    ensures src == [] ==> ret == 0 && olen == 0 && dst == []
    ensures src != [] && buffer && |Encode(src)| < dlen && |Encode(src)| < SIZE_T_MAX ==>
      ret == 0 && olen == |Encode(src)| && dst == Encode(src) + [0] && |dst| <= dlen
    ensures src != [] && !(buffer && |Encode(src)| < dlen && |Encode(src)| < SIZE_T_MAX) ==>
      ret == ERR_BUFFER_TOO_SMALL && dst == [] && olen == if |Encode(src)| < SIZE_T_MAX then |Encode(src)| + 1 else SIZE_T_MAX
  {
    hide Encode;
    dst := [];
    if |src| == 0 { return 0, 0, []; }
    var n := |src| / 3 + (if |src| % 3 != 0 then 1 else 0);
    GroupCount(|src|);
    EncodeLength(src);
    if n > (SIZE_T_MAX - 1) / 4 { return ERR_BUFFER_TOO_SMALL, SIZE_T_MAX, []; }
    n := n * 4;
    if dlen < n + 1 || !buffer { return ERR_BUFFER_TOO_SMALL, n + 1, []; }
    var out := EncodeBytes(src);
    olen := |out|;
    dst := out + [0];
    ret := 0;
  }

  lemma GroupCount(n: nat)
    ensures n / 3 + (if n % 3 != 0 then 1 else 0) == (n + 2) / 3
  {
  }

  // ---------------------------------------------------------------- mbedtls_base64_decode

  /** A result with n more characters. */
  function Plus(r: Scanned, n: nat): Scanned {
    if r.Chars? then Chars(r.n + n, r.equals) else r
  }

  method CountSpaces(src: seq<Byte>, at: nat) returns (x: nat)
    requires at <= |src|
    ensures x == Spaces(src[at..])
  {
    hide Spaces;
    x := 0;
    assert src[at..][0..] == src[at..];
    while at + x < |src| && src[at + x] == SPACE
      invariant at + x <= |src| && Spaces(src[at..]) == x + Spaces(src[at + x..])
      decreases |src| - x
    {
      SpacesStep(src[at + x..]);
      assert src[at + x..][1..] == src[at + x + 1..];
      x := x + 1;
    }
    SpacesStep(src[at + x..]);
  }

  lemma SpacesStep(s: seq<Byte>)
    ensures Spaces(s) == if s == [] || s[0] != SPACE then 0 else 1 + Spaces(s[1..])
  {
  }

  /** What the first pass does with the text from position i on, of which x are spaces. */
  lemma ScanAt(src: seq<Byte>, i: nat, x: nat, j: nat)
    requires i + x <= |src| && x == Spaces(src[i..])
    ensures i + x == |src| ==> Scan(src[i..], j) == Chars(0, j)
    ensures i + x < |src| ==> Scan(src[i..], j) == ScanFrom(src[i + x], src[i + x + 1..], x, j)
  {
    var s := src[i..];
    if i + x < |src| {
      assert s[x] == src[i + x] && s[x + 1..] == src[i + x + 1..];
    }
  }

  /** A character c after x spaces, rest behind it. */
  function ScanFrom(c: Byte, rest: seq<Byte>, x: nat, j: nat): Scanned {
    if c == CR && |rest| >= 1 && rest[0] == LF then Scan(rest, j)
    else if c == LF then Scan(rest, j)
    else if x != 0 then Invalid
    else if c == EQUALS then (if j + 1 > 2 then Invalid else More(Scan(rest, j + 1)))
    else if DecChar(c) == 127 || j != 0 then Invalid
    else More(Scan(rest, j))
  }

  /** The first pass. */
  method FirstPass(src: seq<Byte>) returns (valid: bool, n: nat, j: nat)
    ensures valid ==> Scan(src, 0) == Chars(n, j)
    ensures !valid ==> Scan(src, 0) == Invalid
  {
    hide Scan, Spaces, DecChar;
    n, j := 0, 0;
    var i := 0;
    assert src[0..] == src;
    while i < |src|
      invariant 0 <= i <= |src|
      invariant Scan(src, 0) == Plus(Scan(src[i..], j), n)
      decreases |src| - i
    {
      var x := CountSpaces(src, i);
      SpacesBound(src[i..]);
      ScanAt(src, i, x, j);
      i := i + x;
      if i == |src| { return true, n, j; }
      DecCharFacts(src[i]);
      if |src| - i >= 2 && src[i] == CR && src[i + 1] == LF {
        assert src[i + 1..][0] == LF;
      } else if src[i] == LF {
      } else {
        if x != 0 { return false, n, j; }
        if src[i] == EQUALS {
          j := j + 1;
          if j > 2 { return false, n, j; }
        }
        if src[i] > 127 || DecChar(src[i]) == 127 { return false, n, j; }
        if DecChar(src[i]) < 64 && j != 0 { return false, n, j; }
        n := n + 1;
      }
      i := i + 1;
    }
    assert src[i..] == [];
    ScanNothing(j);
    valid := true;
  }

  lemma SpacesBound(s: seq<Byte>)
    ensures Spaces(s) <= |s|
  {
  }

  lemma DecCharFacts(c: Byte)
    ensures c > 127 ==> DecChar(c) == 127
    ensures DecChar(c) == 64 <==> c == EQUALS
    ensures DecChar(c) < 64 || DecChar(c) == 64 || DecChar(c) == 127
  {
  }

  // The second pass keeps the last sextets in a 32-bit word.

  /** x shifted left by a sextet with v in the low bits. */
  function ShiftIn(x: nat, v: nat): nat
    requires v < 64
  {
    BitOr(x * 64 % 0x1_0000_0000, v)
  }

  lemma ShiftInIs(x: nat, v: nat)
    requires v < 64
    ensures ShiftIn(x, v) == x * 64 % 0x1_0000_0000 + v && ShiftIn(x, v) < 0x1_0000_0000
  {
    hide BitOr, Pow2;
    ShiftRoom(x);
    Pow2Six();
    BitOrDisjoint(x * 64 % 0x1_0000_0000, v, 6);
  }

  lemma Pow2Six()
    ensures Pow2(6) == 64
  {
  }

  lemma ShiftRoom(x: nat)
    ensures x * 64 % 0x1_0000_0000 % 64 == 0 && x * 64 % 0x1_0000_0000 <= 0x1_0000_0000 - 64
  {
    var q, r := x / 0x400_0000, x % 0x400_0000;
    DivModUnique(x * 64, 0x1_0000_0000, q, r * 64);
  }

  /** The number formed by sextets. */
  function Val64(g: seq<Byte>): nat {
    if g == [] then 0 else Val64(g[..|g| - 1]) * 64 + Sextet(g[|g| - 1])
  }

  /** The low bits of x hold the characters of the group so far. */
  ghost predicate Holds(x: nat, g: seq<Byte>) {
    |g| <= 4 && Pow(64, |g|) > 0 && x % Pow(64, |g|) == Val64(g)
  }

  lemma HoldsMore(x: nat, g: seq<Byte>, c: Byte)
    requires |g| < 4 && Holds(x, g)
    ensures Holds(ShiftIn(x, Sextet(c)), g + [c])
  {
    hide Pow, Val64, ShiftIn, Sextet;
    var v := Sextet(c);
    ShiftInIs(x, v);
    var p := Pow(64, |g|);
    PowPos(64, |g| + 1);
    Pow64(|g|);
    LowBits(x, v, p, Pow(64, 3 - |g|));
    Val64Snoc(g, c);
  }

  lemma Val64Snoc(g: seq<Byte>, c: Byte)
    ensures Val64(g + [c]) == Val64(g) * 64 + Sextet(c)
  {
    assert (g + [c])[..|g|] == g;
  }

  lemma Pow64(k: nat)
    requires k < 4
    ensures Pow(64, k + 1) == 64 * Pow(64, k) && Pow(64, k) > 0 && Pow(64, 3 - k) > 0
    ensures Pow(64, k + 1) * Pow(64, 3 - k) == 0x100_0000
  {
    PowPos(64, k);
    PowPos(64, 3 - k);
    PowAdd(64, k + 1, 3 - k);
    assert Pow(64, 2) == 4096;
    PowAdd(64, 2, 2);
  }

  /** Reducing modulo 2^32 does not touch the bits below p * 64, a divisor of 2^24. */
  lemma LowBits(x: nat, v: nat, p: nat, q: nat)
    requires 0 < p && 0 < q && v < 64 && 64 * p * q == 0x100_0000
    ensures (x * 64 % 0x1_0000_0000 + v) % (64 * p) == x % p * 64 + v
  {
    var m := x * 64 / 0x1_0000_0000;
    var r := x * 64 % 0x1_0000_0000;
    assert x * 64 == 0x1_0000_0000 * m + r;
    var d := x / p;
    assert x == p * d + x % p;
    // r == 64 * (p * d + x % p) - 2^32 * m, and 2^32 == 64 * p * (256 * q)
    ModStep(r, v, p, d, x % p, 256 * q * m) by {
      assert 0x1_0000_0000 * m == 64 * p * q * 256 * m;
      assert 64 * p * q * 256 * m == 64 * p * (256 * q * m) by { Regroup(64 * p, q, m); }
      assert 64 * (p * d) == 64 * p * d;
    }
  }

  lemma Regroup(a: int, q: int, m: int)
    ensures a * q * 256 * m == a * (256 * q * m)
  {
  }

  lemma ModStep(r: nat, v: nat, p: nat, d: nat, low: nat, k: int)
    requires 0 < p && v < 64 && low < p && r == 64 * p * d + 64 * low - 64 * p * k
    ensures (r + v) % (64 * p) == low * 64 + v
  {
    assert 64 * p * d - 64 * p * k == 64 * p * (d - k);
    DivModUnique(r + v, 64 * p, d - k, 64 * low + v);
  }

  /** The three bytes of a full group. */
  lemma HoldsTriple(x: nat, g: seq<Byte>)
    requires |g| == 4 && Holds(x, g)
    ensures Triple(g) == [x / 0x1_0000 % 256, x / 0x100 % 256, x % 256]
  {
    hide Sextet;
    assert Pow(64, 2) == 4096;
    PowAdd(64, 2, 2);
    Val64Of4(g);
    Low24(x);
  }

  lemma Val64Of4(g: seq<Byte>)
    requires |g| == 4
    ensures Val64(g) == ((Sextet(g[0]) * 64 + Sextet(g[1])) * 64 + Sextet(g[2])) * 64 + Sextet(g[3])
  {
    hide Sextet, Val64;
    Val64Snoc([], g[0]);
    Val64Snoc([g[0]], g[1]);
    Val64Snoc([g[0], g[1]], g[2]);
    Val64Snoc([g[0], g[1], g[2]], g[3]);
    assert [] + [g[0]] == [g[0]] && [g[0]] + [g[1]] == [g[0], g[1]] && [g[0], g[1]] + [g[2]] == [g[0], g[1], g[2]];
    assert [g[0], g[1], g[2]] + [g[3]] == g;
    Val64Nothing();
  }

  lemma Val64Nothing()
    ensures Val64([]) == 0
  {
  }

  lemma Low24(x: nat)
    ensures var v := x % 0x100_0000; v / 0x1_0000 % 256 == x / 0x1_0000 % 256 && v / 0x100 % 256 == x / 0x100 % 256 && v % 256 == x % 256
  {
    var q, v := x / 0x100_0000, x % 0x100_0000;
    DivModUnique(x, 0x1_0000, 256 * q + v / 0x1_0000, v % 0x1_0000);
    DivModUnique(x, 0x100, 0x1_0000 * q + v / 0x100, v % 0x100);
    DivModUnique(256 * q + v / 0x1_0000, 256, q, v / 0x1_0000);
    DivModUnique(0x1_0000 * q + v / 0x100, 256, 256 * q + v / 0x1_0000, v / 0x100 % 256);
    DivModUnique(x, 256, 0x1_0000 * q + v / 0x100, v % 256);
  }

  /** The state of the second pass: g is the group so far, f the characters still to come. */
  ghost predicate PassLoop(goal: seq<Byte>, out: seq<Byte>, g: seq<Byte>, f: seq<Byte>, j: int, x: nat) {
    && |g| < 4 && Holds(x, g)
    && goal == out + Groups(g + f, j + Equals(g))
  }

  lemma PassChar(goal: seq<Byte>, out: seq<Byte>, g: seq<Byte>, c: Byte, f: seq<Byte>, j: int, x: nat)
    requires PassLoop(goal, out, g, [c] + f, j, x)
    ensures var j' := j - (if DecChar(c) == 64 then 1 else 0); var x' := ShiftIn(x, Sextet(c));
            && (|g| < 3 ==> PassLoop(goal, out, g + [c], f, j', x'))
            && (|g| == 3 ==> PassLoop(goal, out + Take([x' / 0x1_0000 % 256, x' / 0x100 % 256, x' % 256], j'), [], f, j', x'))
  {
    hide Groups, Holds, Pow, ShiftIn, Triple, DecChar, Sextet, Equals, Take;
    var g' := g + [c];
    HoldsMore(x, g, c);
    EqualsConcat(g, [c]);
    EqualsOne(c);
    DecCharFacts(c);
    AppendAssoc(g, [c], f);
    var x' := ShiftIn(x, Sextet(c));
    if |g| == 3 {
      HoldsTriple(x', g');
      FirstGroup(g', f, j + Equals(g));
      var j' := j - (if DecChar(c) == 64 then 1 else 0);
      AppendAssoc(out, Take(Triple(g'), j'), Groups(f, j'));
      HoldsNothing(x');
      assert [] + f == f;
    }
  }

  lemma EqualsOne(c: Byte)
    ensures Equals([c]) == if c == EQUALS then 1 else 0
  {
    assert [c][1..] == [];
  }

  lemma HoldsNothing(x: nat)
    ensures Holds(x, []) && Equals([]) == 0
  {
    assert Pow(64, 0) == 1;
    assert x % 1 == 0;
  }

  /** The second pass. */
  method SecondPass(src0: seq<Byte>) returns (out: seq<Byte>)
    ensures out == Groups(Filter(src0), 3)
  {
    hide PassLoop, Filter, ShiftIn, Sextet, DecChar, Groups, Take;
    ghost var goal := Groups(Filter(src0), 3);
    out := [];
    var j, n, x, i := 3, 0, 0, 0;
    ghost var g: seq<Byte> := [];
    PassStart(Filter(src0));
    assert src0[0..] == src0;
    while i < |src0|
      invariant 0 <= i <= |src0| && n == |g| && n < 4 && 0 <= x
      invariant PassLoop(goal, out, g, Filter(src0[i..]), j, x)
    {
      var c := src0[i];
      FilterStep(src0, i);
      i := i + 1;
      if c == CR || c == LF || c == SPACE { continue; }
      PassChar(goal, out, g, c, Filter(src0[i..]), j, x);
      j := j - (if DecChar(c) == 64 then 1 else 0);
      x := ShiftIn(x, Sextet(c));
      n := n + 1;
      g := g + [c];
      if n == 4 {
        n := 0;
        g := [];
        ghost var before := out;
        if j > 0 { out := out + [x / 0x1_0000 % 256]; }
        if j > 1 { out := out + [x / 0x100 % 256]; }
        if j > 2 { out := out + [x % 256]; }
        TakeIs(before, x / 0x1_0000 % 256, x / 0x100 % 256, x % 256, j);
      }
    }
    PassEnd(goal, out, g, j, x) by { assert src0[i..] == []; FilterNothing(); }
  }

  lemma FilterStep(s: seq<Byte>, i: nat)
    requires i < |s|
    ensures Filter(s[i..]) == if Skipped(s[i]) then Filter(s[i + 1..]) else [s[i]] + Filter(s[i + 1..])
  {
    assert s[i..][1..] == s[i + 1..];
  }

  lemma FilterNothing()
    ensures Filter([]) == []
  {
  }

  lemma PassStart(f: seq<Byte>)
    ensures PassLoop(Groups(f, 3), [], [], f, 3, 0)
  {
    hide Groups;
    HoldsNothing(0);
    assert [] + f == f;
  }

  lemma PassEnd(goal: seq<Byte>, out: seq<Byte>, g: seq<Byte>, j: int, x: nat)
    requires PassLoop(goal, out, g, [], j, x)
    ensures goal == out
  {
    NoGroup(g + [], j + Equals(g));
  }

  lemma TakeIs(out: seq<Byte>, a: Byte, b: Byte, c: Byte, j: int)
    ensures j <= 0 ==> out + Take([a, b, c], j) == out
    ensures j == 1 ==> out + Take([a, b, c], j) == out + [a]
    ensures j == 2 ==> out + Take([a, b, c], j) == out + [a] + [b]
    ensures j >= 3 ==> out + Take([a, b, c], j) == out + [a] + [b] + [c]
  {
    assert [a, b, c][..1] == [a] && [a, b, c][..2] == [a] + [b] && [a, b, c] == [a] + [b] + [c];
  }

  /** mbedtls_base64_decode: dst is what is written, at most the size the first pass found. */
  method DecodeBuffer(src: seq<Byte>, buffer: bool, dlen: nat) returns (ret: int, olen: nat, dst: seq<Byte>)
    ensures match Decode(src, buffer, dlen)
      case BadChar => ret == ERR_INVALID_CHARACTER && dst == []
      case Small(n) => ret == ERR_BUFFER_TOO_SMALL && olen == n && dst == []
      case Out(bytes) => ret == 0 && dst == bytes && olen == |dst| && (buffer ==> |dst| <= dlen)
  {
    hide Scan, Filter, Groups;
    dst, olen := [], 0;
    var valid, n, j := FirstPass(src);
    if !valid { return ERR_INVALID_CHARACTER, 0, []; }
    if n == 0 { return 0, 0, []; }
    ScanMeans(src, 0);
    WritesWithin(Filter(src));
    var need := 6 * (n / 8) + (6 * (n % 8) + 7) / 8;
    NeededIs(n);
    need := need - j;
    if !buffer || dlen < need { return ERR_BUFFER_TOO_SMALL, need, []; }
    dst := SecondPass(src);
    olen := |dst|;
    ret := 0;
  }

  lemma NeededIs(n: nat)
    ensures 6 * (n / 8) + (6 * (n % 8) + 7) / 8 == (6 * n + 7) / 8
  {
    var q, r := n / 8, n % 8;
    var k := 6 * r + 7;
    assert 6 * n + 7 == 8 * (6 * q + k / 8) + k % 8;
    DivModUnique(6 * n + 7, 8, 6 * q + k / 8, k % 8);
  }
}
