/** The browser's `btoa` and `atob` over "binary strings" (text whose code
    units are all below 256, one byte each).

    `btoa` is the Base64 encoding of section 4 of RFC 4648, padded with `=` to
    a multiple of four characters; it fails on a code unit above U+00FF.
    `atob` is the forgiving-base64 decode of the WHATWG Infra standard: it
    drops ASCII whitespace, accepts the input with or without its padding,
    fails on a length of the form 4k+1 or on a character outside the alphabet,
    and discards the bits left over after the last whole byte.

    The coding is built in three layers: bytes to 6-bit values (the bit
    arithmetic), 6-bit values to characters of the alphabet, and binary
    strings to bytes. */
module Base64 {
  import opened Wrappers

  type Byte = b: int | 0 <= b < 256

  type Sextet = v: int | 0 <= v < 64

  const PadChar: char := '='

  // ---------------------------------------------------------------------
  // Bytes and 6-bit values
  // ---------------------------------------------------------------------

  /** The four 6-bit values of a group of three bytes: the top six bits of
      `a`; the low two of `a` and top four of `b`; the low four of `b` and top
      two of `c`; the low six of `c`. A group of one or two bytes uses the
      first two or three values with the missing bytes taken as zero. */
  function SplitGroup(a: Byte, b: Byte, c: Byte): (q: seq<Sextet>)
    ensures |q| == 4
  {
    [a / 4, (a % 4) * 16 + b / 16, (b % 16) * 4 + c / 64, c % 64]
  }

  /** The three bytes carried by four 6-bit values; a final group of two or
      three values carries the first one or two of them. */
  function JoinGroup(w: Sextet, x: Sextet, y: Sextet, z: Sextet): (t: seq<Byte>)
    ensures |t| == 3
  {
    [w * 4 + x / 16, (x % 16) * 16 + y / 4, (y % 4) * 64 + z]
  }

  function SextetsOf(bs: seq<Byte>): (vs: seq<Sextet>)
    ensures |vs| == (4 * |bs| + 2) / 3
    decreases |bs|
  {
    if |bs| == 0 then []
    else if |bs| == 1 then SplitGroup(bs[0], 0, 0)[..2]
    else if |bs| == 2 then SplitGroup(bs[0], bs[1], 0)[..3]
    else SplitGroup(bs[0], bs[1], bs[2]) + SextetsOf(bs[3..])
  }

  function BytesOf(vs: seq<Sextet>): (bs: seq<Byte>)
    requires |vs| % 4 != 1
    ensures |bs| == 3 * |vs| / 4
    decreases |vs|
  {
    if |vs| == 0 then []
    else if |vs| == 2 then JoinGroup(vs[0], vs[1], 0, 0)[..1]
    else if |vs| == 3 then JoinGroup(vs[0], vs[1], vs[2], 0)[..2]
    else JoinGroup(vs[0], vs[1], vs[2], vs[3]) + BytesOf(vs[4..])
  }

  lemma SplitThenJoin(a: Byte, b: Byte, c: Byte)
    ensures var q := SplitGroup(a, b, c); JoinGroup(q[0], q[1], q[2], q[3]) == [a, b, c]
  {
    var q1, r1 := b / 16, b % 16;
    var q2, r2 := c / 64, c % 64;
    assert b == 16 * q1 + r1 && c == 64 * q2 + r2;
    assert ((a % 4) * 16 + q1) / 16 == a % 4 && ((a % 4) * 16 + q1) % 16 == q1;
    assert (r1 * 4 + q2) / 4 == r1 && (r1 * 4 + q2) % 4 == q2;
  }

  lemma JoinThenSplit(w: Sextet, x: Sextet, y: Sextet, z: Sextet)
    ensures var t := JoinGroup(w, x, y, z); SplitGroup(t[0], t[1], t[2]) == [w, x, y, z]
  {
    var q1, r1 := x / 16, x % 16;
    var q2, r2 := y / 4, y % 4;
    assert x == 16 * q1 + r1 && y == 4 * q2 + r2;
    assert (w * 4 + q1) / 4 == w && (w * 4 + q1) % 4 == q1;
    assert (r1 * 16 + q2) / 16 == r1 && (r1 * 16 + q2) % 16 == q2;
    assert (r2 * 64 + z) / 64 == r2 && (r2 * 64 + z) % 64 == z;
  }

  /** A final group of one or two bytes survives its partial 6-bit group. */
  lemma BytesOfSextetsOfShort(bs: seq<Byte>)
    requires |bs| <= 2
    ensures |SextetsOf(bs)| % 4 != 1
    ensures BytesOf(SextetsOf(bs)) == bs
  {
    if |bs| == 1 {
      SplitThenJoin(bs[0], 0, 0);
    } else if |bs| == 2 {
      SplitThenJoin(bs[0], bs[1], 0);
    }
  }

  lemma GroupLengthStep(m: nat)
    ensures (4 * (m + 3) + 2) / 3 == (4 * m + 2) / 3 + 4
  {
    assert 4 * (m + 3) + 2 == (4 * m + 2) + 3 * 4;
  }

  /** One whole group of three bytes in front of a tail that round-trips. */
  lemma BytesOfSextetsOfStep(bs: seq<Byte>)
    requires |bs| >= 3
    requires |SextetsOf(bs[3..])| % 4 != 1
    requires BytesOf(SextetsOf(bs[3..])) == bs[3..]
    ensures |SextetsOf(bs)| % 4 != 1
    ensures BytesOf(SextetsOf(bs)) == bs
  {
    var vs := SextetsOf(bs);
    var tail := SextetsOf(bs[3..]);
    var q := SplitGroup(bs[0], bs[1], bs[2]);
    GroupLengthStep(|bs| - 3);
    assert |vs| == 4 + |tail|;
    ModStep(|tail|);
    assert vs == q + tail;
    assert vs[0] == q[0] && vs[1] == q[1] && vs[2] == q[2] && vs[3] == q[3];
    assert vs[4..] == tail;
    assert BytesOf(vs) == JoinGroup(vs[0], vs[1], vs[2], vs[3]) + BytesOf(tail);
    SplitThenJoin(bs[0], bs[1], bs[2]);
    assert bs == [bs[0], bs[1], bs[2]] + bs[3..];
  }

  lemma TripleLengthStep(m: nat)
    ensures 3 * (m + 4) / 4 == 3 * m / 4 + 3
  {
    assert 3 * (m + 4) == 3 * m + 4 * 3;
  }

  lemma ModStep(t: nat)
    ensures (4 + t) % 4 == t % 4
  {
  }

  /** Decoding the 6-bit values of a byte sequence gives the bytes back,
      including a final group of one or two bytes. */
  lemma {:induction false} BytesOfSextetsOf(bs: seq<Byte>)
    ensures |SextetsOf(bs)| % 4 != 1
    ensures BytesOf(SextetsOf(bs)) == bs
    decreases |bs|
  {
    if |bs| <= 2 {
      BytesOfSextetsOfShort(bs);
    } else {
      BytesOfSextetsOf(bs[3..]);
      BytesOfSextetsOfStep(bs);
    }
  }

  /** Whole groups of four 6-bit values are exactly the values of the bytes
      they decode to: four values carry the same 24 bits as three bytes. */
  lemma {:induction false} SextetsOfBytesOf(vs: seq<Sextet>)
    requires |vs| % 4 == 0
    ensures SextetsOf(BytesOf(vs)) == vs
    decreases |vs|
  {
    if |vs| > 0 {
      SextetsOfBytesOf(vs[4..]);
      SextetsOfBytesOfStep(vs);
    }
  }

  /** One whole group of four 6-bit values in front of a tail that round-trips. */
  lemma SextetsOfBytesOfStep(vs: seq<Sextet>)
    requires |vs| >= 4 && |vs| % 4 == 0
    requires SextetsOf(BytesOf(vs[4..])) == vs[4..]
    ensures SextetsOf(BytesOf(vs)) == vs
  {
    ModStep(|vs| - 4);
    TripleLengthStep(|vs| - 4);
    var bs := BytesOf(vs);
    var tail := BytesOf(vs[4..]);
    var t := JoinGroup(vs[0], vs[1], vs[2], vs[3]);
    assert |bs| == 3 + |tail|;
    assert bs == t + tail;
    assert bs[0] == t[0] && bs[1] == t[1] && bs[2] == t[2];
    assert bs[3..] == tail;
    GroupLengthStep(|tail|);
    assert SextetsOf(bs) == SplitGroup(bs[0], bs[1], bs[2]) + SextetsOf(tail);
    JoinThenSplit(vs[0], vs[1], vs[2], vs[3]);
    assert vs == [vs[0], vs[1], vs[2], vs[3]] + vs[4..];
  }

  // ---------------------------------------------------------------------
  // 6-bit values and the alphabet (Table 1 of RFC 4648)
  // ---------------------------------------------------------------------

  predicate IsBase64Char(c: char) {
    ('A' <= c <= 'Z') || ('a' <= c <= 'z') || ('0' <= c <= '9') || c == '+' || c == '/'
  }

  predicate AllBase64Chars(s: string) {
    forall i | 0 <= i < |s| :: IsBase64Char(s[i])
  }

  /** The character of the alphabet that stands for `v`: `A`-`Z`, `a`-`z`,
      `0`-`9`, `+`, `/` for 0 to 63 in order. */
  function CharOf(v: Sextet): (c: char)
    ensures IsBase64Char(c)
  {
    if v < 26 then ('A' as int + v) as char
    else if v < 52 then ('a' as int + (v - 26)) as char
    else if v < 62 then ('0' as int + (v - 52)) as char
    else if v == 62 then '+'
    else '/'
  }

  /** The value a character of the alphabet stands for. */
  function ValueOf(c: char): (v: Sextet)
    requires IsBase64Char(c)
    ensures CharOf(v) == c
  {
    if 'A' <= c <= 'Z' then c as int - 'A' as int
    else if 'a' <= c <= 'z' then c as int - 'a' as int + 26
    else if '0' <= c <= '9' then c as int - '0' as int + 52
    else if c == '+' then 62
    else 63
  }

  lemma ValueOfCharOf(v: Sextet)
    ensures ValueOf(CharOf(v)) == v
  {
  }

  function Chars(vs: seq<Sextet>): (t: string)
    ensures |t| == |vs| && AllBase64Chars(t)
  {
    seq(|vs|, i requires 0 <= i < |vs| => CharOf(vs[i]))
  }

  function Values(t: string): (vs: seq<Sextet>)
    requires AllBase64Chars(t)
    ensures |vs| == |t|
    ensures Chars(vs) == t
  {
    seq(|t|, i requires 0 <= i < |t| => ValueOf(t[i]))
  }

  lemma ValuesOfChars(vs: seq<Sextet>)
    ensures Values(Chars(vs)) == vs
  {
    var t := Chars(vs);
    forall i | 0 <= i < |vs|
      ensures Values(t)[i] == vs[i]
    {
      ValueOfCharOf(vs[i]);
    }
  }

  // ---------------------------------------------------------------------
  // Binary strings and bytes
  // ---------------------------------------------------------------------

  predicate IsBinary(s: string) {
    forall i | 0 <= i < |s| :: s[i] as int < 256
  }

  function Codes(s: string): (bs: seq<Byte>)
    requires IsBinary(s)
    ensures |bs| == |s|
  {
    seq(|s|, i requires 0 <= i < |s| => s[i] as int)
  }

  function Text(bs: seq<Byte>): (s: string)
    ensures |s| == |bs| && IsBinary(s)
    ensures Codes(s) == bs
  {
    seq(|bs|, i requires 0 <= i < |bs| => bs[i] as char)
  }

  lemma TextOfCodes(s: string)
    requires IsBinary(s)
    ensures Text(Codes(s)) == s
  {
  }

  // ---------------------------------------------------------------------
  // btoa
  // ---------------------------------------------------------------------

  /** The encoding without its padding: four characters for every three
      bytes, and two or three for a final one or two. */
  function EncodeUnpadded(s: string): (r: string)
    requires IsBinary(s)
    ensures AllBase64Chars(r)
    ensures |r| == (4 * |s| + 2) / 3
  {
    Chars(SextetsOf(Codes(s)))
  }

  /** The `=` characters that complete the last group of four. */
  function Padding(n: nat): string {
    if n % 3 == 1 then "==" else if n % 3 == 2 then "=" else ""
  }

  /** The shape of a padded encoding: a multiple of four characters, all from
      the alphabet except for at most two trailing `=`. */
  predicate IsPaddedBase64(r: string) {
    && |r| % 4 == 0
    && (forall i | 0 <= i < |r| :: IsBase64Char(r[i]) || (r[i] == PadChar && i >= |r| - 2))
    && (forall i, j | 0 <= i < j < |r| && r[i] == PadChar :: r[j] == PadChar)
  }

  /** Section 4 of RFC 4648 with padding. */
  function Encode(s: string): (r: string)
    requires IsBinary(s)
    ensures IsPaddedBase64(r)
    ensures |r| == 4 * ((|s| + 2) / 3)
  {
    EncodeLength(s);
    PaddedShape(EncodeUnpadded(s), Padding(|s|));
    EncodeUnpadded(s) + Padding(|s|)
  }

  lemma EncodeLength(s: string)
    requires IsBinary(s)
    ensures |EncodeUnpadded(s)| + |Padding(|s|)| == 4 * ((|s| + 2) / 3)
    ensures (|EncodeUnpadded(s)| + |Padding(|s|)|) % 4 == 0
    ensures |EncodeUnpadded(s)| % 4 != 1
  {
    var k := |s| / 3;
    var m := |s| % 3;
    assert |s| == 3 * k + m;
    var groups := if m == 0 then k else k + 1;
    assert groups == (|s| + 2) / 3;
    assert |Padding(|s|)| == (if m == 0 then 0 else 3 - m);
    if m == 0 {
      assert (4 * |s| + 2) / 3 == 4 * k;
    } else if m == 1 {
      assert (4 * |s| + 2) / 3 == 4 * k + 2;
    } else {
      assert (4 * |s| + 2) / 3 == 4 * k + 3;
    }
  }

  /** Alphabet characters followed by at most two `=` that complete a group of
      four have the shape of a padded encoding. */
  lemma PaddedShape(u: string, p: string)
    requires AllBase64Chars(u)
    requires |p| <= 2 && forall i | 0 <= i < |p| :: p[i] == PadChar
    requires (|u| + |p|) % 4 == 0
    ensures IsPaddedBase64(u + p)
  {
    var r := u + p;
    forall i | 0 <= i < |r|
      ensures IsBase64Char(r[i]) || (r[i] == PadChar && i >= |r| - 2)
    {
      if i >= |u| {
        assert r[i] == p[i - |u|];
      }
    }
    forall i | 0 <= i < |u|
      ensures r[i] != PadChar
    {
      assert r[i] == u[i];
    }
    forall i, j | 0 <= i < j < |r| && r[i] == PadChar
      ensures r[j] == PadChar
    {
      assert r[j] == p[j - |u|];
    }
  }

  /** `btoa`: fails (the DOMException of the browser) on a code unit above U+00FF. */
  function Btoa(s: string): (r: Option<string>)
    ensures r.Some? <==> IsBinary(s)
  {
    if IsBinary(s) then Some(Encode(s)) else None
  }

  // ---------------------------------------------------------------------
  // atob
  // ---------------------------------------------------------------------

  /** ASCII whitespace as the Infra standard defines it: tab, line feed, form
      feed, carriage return and space. */
  predicate IsAsciiWhitespace(c: char) {
    c == '\t' || c == '\n' || c as int == 0x0C || c == '\r' || c == ' '
  }

  function RemoveAsciiWhitespace(s: string): (r: string)
    ensures |r| <= |s|
    ensures forall i | 0 <= i < |r| :: !IsAsciiWhitespace(r[i])
    decreases |s|
  {
    if |s| == 0 then ""
    else if IsAsciiWhitespace(s[0]) then RemoveAsciiWhitespace(s[1..])
    else [s[0]] + RemoveAsciiWhitespace(s[1..])
  }

  /** When the length is a multiple of four, one or two trailing `=` are removed. */
  function StripPadding(d: string): string {
    if |d| % 4 == 0 && |d| >= 2 && d[|d| - 2] == PadChar && d[|d| - 1] == PadChar then d[..|d| - 2]
    else if |d| % 4 == 0 && |d| >= 1 && d[|d| - 1] == PadChar then d[..|d| - 1]
    else d
  }

  /** Decodes characters of the alphabet, four to three bytes; a final two or
      three characters give one or two bytes, and their leftover bits are dropped. */
  function DecodeUnpadded(t: string): (r: string)
    requires AllBase64Chars(t)
    requires |t| % 4 != 1
    ensures IsBinary(r)
    ensures |r| == 3 * |t| / 4
  {
    Text(BytesOf(Values(t)))
  }

  /** `atob`: `None` is the exception the browser throws on malformed input. */
  function Atob(s: string): (r: Option<string>)
    ensures r.Some? ==> IsBinary(r.value)
  {
    var d := StripPadding(RemoveAsciiWhitespace(s));
    if |d| % 4 == 1 || !AllBase64Chars(d) then None
    else Some(DecodeUnpadded(d))
  }

  // ---------------------------------------------------------------------
  // Round trips
  // ---------------------------------------------------------------------

  lemma DecodeInvertsEncodeUnpadded(s: string)
    requires IsBinary(s)
    ensures |EncodeUnpadded(s)| % 4 != 1
    ensures DecodeUnpadded(EncodeUnpadded(s)) == s
  {
    var bs := Codes(s);
    var vs := SextetsOf(bs);
    ValuesOfChars(vs);
    BytesOfSextetsOf(bs);
    TextOfCodes(s);
  }

  lemma {:induction false} RemoveAsciiWhitespaceKeepsClean(s: string)
    requires forall i | 0 <= i < |s| :: !IsAsciiWhitespace(s[i])
    ensures RemoveAsciiWhitespace(s) == s
    decreases |s|
  {
    if |s| > 0 {
      RemoveAsciiWhitespaceKeepsClean(s[1..]);
      assert s == [s[0]] + s[1..];
    }
  }

  /** Stripping the padding of an encoding leaves exactly its unpadded part. */
  lemma StripPaddingOfEncode(s: string)
    requires IsBinary(s)
    ensures StripPadding(Encode(s)) == EncodeUnpadded(s)
  {
    var u := EncodeUnpadded(s);
    var e := Encode(s);
    if |s| % 3 == 1 {
      assert e[..|e| - 2] == u;
    } else if |s| % 3 == 2 {
      assert e[..|e| - 1] == u;
    } else {
      assert e == u;
      if |u| > 0 {
        assert IsBase64Char(u[|u| - 1]);
      }
    }
  }

  /** `atob` undoes `btoa`: the payload decodes to exactly the text encoded. */
  lemma AtobInvertsBtoa(s: string)
    requires IsBinary(s)
    ensures Btoa(s) == Some(Encode(s))
    ensures Atob(Encode(s)) == Some(s)
  {
    var e := Encode(s);
    assert forall i | 0 <= i < |e| :: !IsAsciiWhitespace(e[i]);
    RemoveAsciiWhitespaceKeepsClean(e);
    StripPaddingOfEncode(s);
    DecodeInvertsEncodeUnpadded(s);
  }

  lemma {:induction false} RemoveAsciiWhitespaceKeepsOthers(s: string, c: char)
    requires c in s && !IsAsciiWhitespace(c)
    ensures c in RemoveAsciiWhitespace(s)
    decreases |s|
  {
    if s[0] != c {
      assert c in s[1..];
      RemoveAsciiWhitespaceKeepsOthers(s[1..], c);
    }
  }

  /** Any character outside the alphabet, other than whitespace and `=`,
      makes `atob` throw, wherever it stands. */
  lemma AtobRejectsForeignChar(s: string, i: nat)
    requires i < |s|
    requires !IsBase64Char(s[i]) && !IsAsciiWhitespace(s[i]) && s[i] != PadChar
    ensures Atob(s) == None
  {
    var c := s[i];
    var d0 := RemoveAsciiWhitespace(s);
    RemoveAsciiWhitespaceKeepsOthers(s, c);
    var d := StripPadding(d0);
    var j :| 0 <= j < |d0| && d0[j] == c;
    assert d == d0[..|d|];
    assert d[j] == c;
  }

  /** One byte decodes from its padded or its unpadded encoding. */
  lemma AtobExampleOneByte()
    ensures Atob("QQ==") == Some("A")
  {
    RemoveAsciiWhitespaceKeepsClean("QQ==");
    assert StripPadding("QQ==") == "QQ";
    assert ValueOf('Q') == 16;
    assert Values("QQ") == [16, 16];
    assert JoinGroup(16, 16, 0, 0)[..1] == [65];
    assert BytesOf([16, 16]) == [65];
    assert Text([65]) == "A";
  }

  /** The test vectors "f" and "foo" of section 10 of RFC 4648, on the
      encoding side. */
  lemma EncodeExampleOneByte()
    ensures Encode("f") == "Zg=="
  {
    assert Codes("f") == [102];
    assert SplitGroup(102, 0, 0)[..2] == [25, 32];
    assert SextetsOf([102]) == [25, 32];
    assert CharOf(25) == 'Z' && CharOf(32) == 'g';
    assert Chars([25, 32]) == "Zg";
    assert EncodeUnpadded("f") == "Zg";
    assert Padding(1) == "==";
  }

  lemma EncodeExampleThreeBytes()
    ensures Encode("foo") == "Zm9v"
  {
    assert Codes("foo") == [102, 111, 111];
    assert SextetsOf([102, 111, 111]) == [25, 38, 61, 47];
    assert CharOf(25) == 'Z' && CharOf(38) == 'm' && CharOf(61) == '9' && CharOf(47) == 'v';
    assert Chars([25, 38, 61, 47]) == "Zm9v";
  }

  /** A code unit above U+00FF makes `btoa` throw. */
  lemma BtoaExampleWide()
    ensures Btoa("\U{100}") == None
  {
  }

  /** A single character left over after the whole groups is rejected. */
  lemma AtobExampleLeftover()
    ensures Atob("Q") == None
  {
  }

  /** Padding that does not complete a group of four is rejected. */
  lemma AtobExampleShortPadding()
    ensures Atob("QQ=") == None
  {
  }

  lemma WholeGroupsDecodeToWholeTriples(n: nat)
    requires n % 4 == 0
    ensures (3 * n / 4) % 3 == 0
  {
    var k := n / 4;
    assert n == 4 * k;
    assert 3 * n / 4 == 3 * k;
  }

  lemma AtobOnWholeGroups(t: string)
    requires AllBase64Chars(t)
    requires |t| % 4 == 0
    ensures Atob(t) == Some(DecodeUnpadded(t))
  {
    assert forall i | 0 <= i < |t| :: !IsAsciiWhitespace(t[i]);
    RemoveAsciiWhitespaceKeepsClean(t);
    if |t| > 0 {
      assert IsBase64Char(t[|t| - 1]);
    }
    assert StripPadding(t) == t;
  }

  /** Conversely, unpadded text of whole groups of four is exactly the
      encoding of what `atob` decodes it to. */
  lemma BtoaInvertsAtobOnWholeGroups(t: string)
    requires AllBase64Chars(t)
    requires |t| % 4 == 0
    ensures Atob(t) == Some(DecodeUnpadded(t))
    ensures Btoa(DecodeUnpadded(t)) == Some(t)
  {
    AtobOnWholeGroups(t);
    var d := DecodeUnpadded(t);
    WholeGroupsDecodeToWholeTriples(|t|);
    assert Padding(|d|) == "";
    var vs := Values(t);
    SextetsOfBytesOf(vs);
    assert Codes(d) == BytesOf(vs);
    assert SextetsOf(Codes(d)) == vs;
    assert EncodeUnpadded(d) == t;
    assert Encode(d) == t + "";
    assert t + "" == t;
  }
}
