/**
 The string conversions of OpenHfsPlus/fsw_strfunc.h between UTF-16 units and
 UTF-8. Every 16-bit unit is encoded by itself, surrogates included, and a decoded
 character is cut down to 16 bits; when that is harmless is stated exactly. Masks
 and shifts are written as arithmetic; BitForms justifies the translation.
 */
module Utf8 {
  import opened Words

  /** The bit operations of the source, next to the arithmetic that stands for them below. */
  lemma BitForms(c: bv16, b: bv8)
    ensures (0xc0 | ((c >> 6) & 0x1f)) == 0xc0 + c / 64 % 32
    ensures (0xe0 | ((c >> 12) & 0x0f)) == 0xe0 + c / 4096 % 16
    ensures (0x80 | ((c >> 6) & 0x3f)) == 0x80 + c / 64 % 64
    ensures (0x80 | (c & 0x3f)) == 0x80 + c % 64
    ensures b & 0xe0 == 0xc0 <==> 0xc0 <= b < 0xe0
    ensures b & 0xf0 == 0xe0 <==> 0xe0 <= b < 0xf0
    ensures b & 0xf8 == 0xf0 <==> 0xf0 <= b < 0xf8
    ensures b & 0x1f == b % 32 && b & 0x0f == b % 16 && b & 0x07 == b % 8 && b & 0x3f == b % 64
  {
  }

  function Low3(b: byte): nat { b % 8 }
  function Low4(b: byte): nat { b % 16 }
  function Low5(b: byte): nat { b % 32 }
  function Low6(b: byte): nat { b % 64 }

  // ----- One unit -----

  /**
   The bit patterns of the table in section 3 of RFC 3629 for values below 2^16,
   shortest form; surrogates fit too.
   */
  ghost predicate IsEncoding(c: u16, s: seq<byte>) {
    if c < 0x80 then
      s == [c]
    else if c < 0x800 then
      |s| == 2 && 0xc0 <= s[0] < 0xe0 && 0x80 <= s[1] < 0xc0 && TwoBytes(s[0], s[1]) == c
    else
      |s| == 3 && 0xe0 <= s[0] < 0xf0 && 0x80 <= s[1] < 0xc0 && 0x80 <= s[2] < 0xc0
      && ThreeBytes(s[0], s[1], s[2]) == c
  }

  ghost function TwoBytes(a: int, b: int): int { 64 * (a - 0xc0) + (b - 0x80) }
  ghost function ThreeBytes(a: int, b: int, d: int): int { 4096 * (a - 0xe0) + 64 * (b - 0x80) + (d - 0x80) }

  function UnitSize(c: u16): (n: nat)
    ensures 1 <= n <= 3
  {
    if c < 0x80 then 1 else if c < 0x800 then 2 else 3
  }

  function Encode(c: u16): (s: seq<byte>)
    ensures |s| == UnitSize(c)
  {
    if c < 0x80 then [c]
    else if c < 0x800 then
      [0xc0 + c / 64 % 32, 0x80 + c % 64]
    else
      [0xe0 + c / 4096 % 16, 0x80 + c / 64 % 64, 0x80 + c % 64]
  }

  /** The encoder writes the patterns, and the patterns leave no choice. */
  lemma EncodingIff(c: u16, s: seq<byte>)
    ensures IsEncoding(c, s) <==> s == Encode(c)
  {
    var e := Encode(c);
    EncodeFits(c);
    if IsEncoding(c, s) && c >= 0x80 {
      if c < 0x800 {
        TwoBytesUnique(e[0], e[1], s[0], s[1]);
      } else {
        ThreeBytesUnique(e[0], e[1], e[2], s[0], s[1], s[2]);
      }
    }
  }

  lemma EncodeFits(c: u16)
    ensures IsEncoding(c, Encode(c))
  {
    Digits(c);
  }

  /** A 16-bit value in base 64. */
  lemma Digits(c: int)
    requires 0 <= c < 0x1_0000
    ensures c == 64 * (c / 64) + c % 64
    ensures c < 0x800 ==> c / 64 % 32 == c / 64
    ensures c / 64 == 64 * (c / 4096) + c / 64 % 64 && c / 4096 % 16 == c / 4096
  {
  }

  lemma TwoBytesUnique(a: int, b: int, a': int, b': int)
    requires 0x80 <= b < 0xc0 && 0x80 <= b' < 0xc0 && TwoBytes(a, b) == TwoBytes(a', b')
    ensures a == a' && b == b'
  {
  }

  lemma ThreeBytesUnique(a: int, b: int, d: int, a': int, b': int, d': int)
    requires 0x80 <= b < 0xc0 && 0x80 <= b' < 0xc0 && 0x80 <= d < 0xc0 && 0x80 <= d' < 0xc0
    requires ThreeBytes(a, b, d) == ThreeBytes(a', b', d')
    ensures a == a' && b == b' && d == d'
  {
  }

  /** How many bytes the decoder takes for a character, told by the first; a stray byte counts as one. */
  function Width(b: byte): (n: nat)
    ensures 1 <= n <= 4
  {
    if 0xc0 <= b < 0xe0 then 2 else if 0xe0 <= b < 0xf0 then 3 else if 0xf0 <= b < 0xf8 then 4 else 1
  }

  /** The character at position p, before it is cut down to 16 bits. */
  function CharAt(s: seq<byte>, p: nat): nat
    requires CharWithin(s, p)
  {
    match Width(s[p])
    case 2 => 64 * Low5(s[p]) + Low6(s[p + 1])
    case 3 => 4096 * Low4(s[p]) + 64 * Low6(s[p + 1]) + Low6(s[p + 2])
    case 4 => 262144 * Low3(s[p]) + 4096 * Low6(s[p + 1]) + 64 * Low6(s[p + 2]) + Low6(s[p + 3])
    case _ => s[p]
  }

  /** The four patterns of the table in section 3 of RFC 3629, and the value that each stands for. */
  lemma CharExact(s: seq<byte>, p: nat)
    requires CharWithin(s, p) && forall i :: p < i < p + Width(s[p]) ==> 0x80 <= s[i] <= 0xBF
    ensures s[p] <= 0x7F ==> CharAt(s, p) == s[p]
    ensures 0xC0 <= s[p] <= 0xDF ==> CharAt(s, p) == 0x40 * (s[p] as int - 0xC0) + (s[p + 1] as int - 0x80)
    ensures 0xE0 <= s[p] <= 0xEF ==>
              CharAt(s, p) ==
              0x1000 * (s[p] as int - 0xE0) + 0x40 * (s[p + 1] as int - 0x80) + (s[p + 2] as int - 0x80)
    ensures 0xF0 <= s[p] <= 0xF7 ==>
              CharAt(s, p) ==
              0x4_0000 * (s[p] as int - 0xF0) + 0x1000 * (s[p + 1] as int - 0x80)
              + 0x40 * (s[p + 2] as int - 0x80) + (s[p + 3] as int - 0x80)
  {
    if s[p] >= 0xC0 {
      LowBits(s[p]);
    }
  }

  /** What the masks keep of a byte that fits a pattern. */
  lemma LowBits(b: byte)
    ensures 0xc0 <= b < 0xe0 ==> Low5(b) == b - 0xc0
    ensures 0xe0 <= b < 0xf0 ==> Low4(b) == b - 0xe0
    ensures 0x80 <= b < 0xc0 ==> Low6(b) == b - 0x80
  {
  }

  /** A pattern found at position p is read as the unit it stands for. */
  lemma PatternRead(c: u16, s: seq<byte>, p: nat)
    requires p + UnitSize(c) <= |s| && IsEncoding(c, s[p..p + UnitSize(c)])
    ensures Width(s[p]) == UnitSize(c) && CharAt(s, p) == c
  {
    var e := s[p..p + UnitSize(c)];
    LowBits(e[0]);
    if c >= 0x80 {
      LowBits(e[1]);
    }
    if c >= 0x800 {
      LowBits(e[2]);
    }
  }

  /** A unit read back at the place where it was written. */
  lemma UnitRoundTrip(c: u16, s: seq<byte>, p: nat)
    requires p + UnitSize(c) <= |s| && s[p..p + UnitSize(c)] == Encode(c)
    ensures Width(s[p]) == UnitSize(c) && CharAt(s, p) == c
  {
    EncodeFits(c);
    PatternRead(c, s, p);
  }

  // ----- What RFC 3629 allows -----

  predicate Surrogate(c: u16) {
    0xD800 <= c < 0xE000
  }

  predicate Tail(b: byte) {
    0x80 <= b <= 0xBF
  }

  /** UTF8-char of the grammar in section 4 of RFC 3629. */
  predicate LegalChar(s: seq<byte>) {
    match |s|
    case 1 => s[0] <= 0x7F
    case 2 => 0xC2 <= s[0] <= 0xDF && Tail(s[1])
    case 3 =>
      Tail(s[2])
      && ((s[0] == 0xE0 && 0xA0 <= s[1] <= 0xBF) || (0xE1 <= s[0] <= 0xEC && Tail(s[1]))
          || (s[0] == 0xED && 0x80 <= s[1] <= 0x9F) || (0xEE <= s[0] <= 0xEF && Tail(s[1])))
    case 4 =>
      Tail(s[2]) && Tail(s[3])
      && ((s[0] == 0xF0 && 0x90 <= s[1] <= 0xBF) || (0xF1 <= s[0] <= 0xF3 && Tail(s[1]))
          || (s[0] == 0xF4 && 0x80 <= s[1] <= 0x8F))
    case _ => false
  }

  /** UTF8-octets: legal characters one after another; the first byte of each tells its length. */
  predicate LegalText(s: seq<byte>) {
    s == [] || (Width(s[0]) <= |s| && LegalChar(s[..Width(s[0])]) && LegalText(s[Width(s[0])..]))
  }

  /** A unit encodes to a legal character if and only if it is not a surrogate. */
  lemma UnitLegalIff(c: u16)
    ensures LegalChar(Encode(c)) <==> !Surrogate(c)
  {
    Digits(c);
  }

  /** A character of four bytes, from U+10000 to U+10FFFF. */
  ghost predicate Supplementary(s: seq<byte>) {
    && |s| == 4 && 0xF0 <= s[0] <= 0xF7
    && 0x80 <= s[1] <= 0xBF && 0x80 <= s[2] <= 0xBF && 0x80 <= s[3] <= 0xBF
    && 0x1_0000
       <= 0x4_0000 * (s[0] as int - 0xF0) + 0x1000 * (s[1] as int - 0x80) + 0x40 * (s[2] as int - 0x80)
          + (s[3] as int - 0x80)
       <= 0x10_FFFF
  }

  /** What the grammar allows, in terms of values: the shortest forms of all characters, and nothing else. */
  lemma LegalCharIff(s: seq<byte>)
    ensures LegalChar(s) <==> Supplementary(s) || exists c: u16 :: !Surrogate(c) && s == Encode(c)
  {
    if c: u16 :| !Surrogate(c) && s == Encode(c) {
      UnitLegalIff(c);
    }
    if LegalChar(s) && |s| < 4 {
      LegalUnit(s);
    }
  }

  lemma LegalUnit(s: seq<byte>)
    requires LegalChar(s) && |s| < 4
    ensures exists c: u16 :: !Surrogate(c) && s == Encode(c)
  {
    var c: u16 := if |s| == 1 then s[0] else if |s| == 2 then TwoBytes(s[0], s[1]) else ThreeBytes(s[0], s[1], s[2]);
    EncodingIff(c, s);
    UnitLegalIff(c);
  }

  /** Text that begins with an encoded unit. */
  lemma LegalFirst(c: u16, rest: seq<byte>)
    ensures LegalText(Encode(c) + rest) <==> !Surrogate(c) && LegalText(rest)
  {
    var s := Encode(c) + rest;
    assert s[0..UnitSize(c)] == Encode(c);
    UnitRoundTrip(c, s, 0);
    UnitLegalIff(c);
    assert s[..Width(s[0])] == Encode(c) && s[Width(s[0])..] == rest;
  }

  // ----- Strings -----

  /** The size that the first pass of the encoder computes. */
  function Size(u: seq<u16>): nat {
    if u == [] then 0 else Size(u[..|u| - 1]) + UnitSize(u[|u| - 1])
  }

  function EncodeAll(u: seq<u16>): (s: seq<byte>)
    ensures |s| == Size(u)
  {
    if u == [] then [] else EncodeAll(u[..|u| - 1]) + Encode(u[|u| - 1])
  }

  lemma {:induction false} SizeMonotone(u: seq<u16>, i: nat)
    requires i <= |u|
    ensures Size(u[..i]) <= Size(u)
  {
    if i == |u| {
      assert u[..i] == u;
    } else {
      var front := u[..|u| - 1];
      SizeMonotone(front, i);
      assert front[..i] == u[..i];
    }
  }

  lemma OneMore(u: seq<u16>, i: nat)
    requires i < |u|
    ensures Size(u[..i + 1]) == Size(u[..i]) + UnitSize(u[i])
    ensures EncodeAll(u[..i + 1]) == EncodeAll(u[..i]) + Encode(u[i])
  {
    var w := u[..i + 1];
    assert w[..|w| - 1] == u[..i] && w[|w| - 1] == u[i];
  }

  lemma {:induction false} FirstOff(u: seq<u16>)
    requires u != []
    ensures EncodeAll(u) == Encode(u[0]) + EncodeAll(u[1..])
  {
    var n := |u| - 1;
    if n == 0 {
      assert u[..0] == [] && u[1..] == [];
    } else {
      FirstOff(u[..n]);
      assert u[..n][1..] == u[1..][..n - 1];
      JoinBytes(Encode(u[0]), EncodeAll(u[1..][..n - 1]), Encode(u[n]));
    }
  }

  lemma JoinBytes(a: seq<byte>, b: seq<byte>, c: seq<byte>)
    ensures (a + b) + c == a + (b + c)
  {
  }

  /** The encoder writes legal UTF-8 if and only if its input has no surrogates, paired or not. */
  lemma {:induction false} TextLegalIff(u: seq<u16>)
    ensures LegalText(EncodeAll(u)) <==> forall i :: 0 <= i < |u| ==> !Surrogate(u[i])
  {
    if u != [] {
      FirstOff(u);
      LegalFirst(u[0], EncodeAll(u[1..]));
      TextLegalIff(u[1..]);
      assert forall i :: 0 < i < |u| ==> u[i] == u[1..][i - 1];
    }
  }

  /** An input that goes wrong: a lone surrogate. */
  lemma SurrogateIllegal()
    ensures Encode(0xD800) == [0xED, 0xA0, 0x80] && !LegalText(EncodeAll([0xD800]))
  {
    TextLegalIff([0xD800]);
    assert [0xD800][0] == 0xD800;
  }

  /** A whole character is in the buffer at position p. */
  predicate CharWithin(s: seq<byte>, p: nat) {
    p < |s| && p + Width(s[p]) <= |s|
  }

  /** n characters can be read from position p on without leaving the buffer. */
  ghost predicate Readable(s: seq<byte>, p: nat, n: nat)
    decreases n
  {
    n == 0 || (CharWithin(s, p) && Readable(s, p + Width(s[p]), n - 1))
  }

  ghost function DecodeFrom(s: seq<byte>, p: nat, n: nat): (r: seq<nat>)
    requires Readable(s, p, n)
    ensures |r| == n
    decreases n
  {
    if n == 0 then [] else [CharAt(s, p)] + DecodeFrom(s, p + Width(s[p]), n - 1)
  }

  lemma FirstChar(s: seq<byte>, p: nat, n: nat)
    requires CharWithin(s, p) && n > 0
    ensures Readable(s, p, n) <==> Readable(s, p + Width(s[p]), n - 1)
    ensures Readable(s, p, n) ==> DecodeFrom(s, p, n) == [CharAt(s, p)] + DecodeFrom(s, p + Width(s[p]), n - 1)
  {
  }

  /** The characters are the units. */
  ghost predicate SameChars(r: seq<nat>, u: seq<u16>) {
    |r| == |u| && forall i :: 0 <= i < |u| ==> r[i] == u[i]
  }

  /** The units u are read from position p on, one by one. */
  ghost predicate ReadsAs(s: seq<byte>, p: nat, u: seq<u16>)
    decreases |u|
  {
    u == [] || (CharWithin(s, p) && CharAt(s, p) == u[0] && ReadsAs(s, p + Width(s[p]), u[1..]))
  }

  lemma {:induction false} ReadsAsIff(s: seq<byte>, p: nat, u: seq<u16>)
    ensures ReadsAs(s, p, u) <==> Readable(s, p, |u|) && SameChars(DecodeFrom(s, p, |u|), u)
    decreases |u|
  {
    if u != [] && CharWithin(s, p) {
      var q := p + Width(s[p]);
      ReadsAsIff(s, q, u[1..]);
      if Readable(s, q, |u| - 1) {
        SameCharsStep(CharAt(s, p), DecodeFrom(s, q, |u| - 1), u);
      }
    }
  }

  lemma SameCharsStep(c: nat, r: seq<nat>, u: seq<u16>)
    requires |r| + 1 == |u|
    ensures SameChars([c] + r, u) <==> c == u[0] && SameChars(r, u[1..])
  {
    assert forall i :: 0 <= i < |r| ==> ([c] + r)[i + 1] == r[i] && u[1..][i] == u[i + 1];
    assert ([c] + r)[0] == c;
  }

  /** Round trip: an encoded string, wherever it begins, is decoded to its units. */
  lemma RoundTrip(before: seq<byte>, u: seq<u16>)
    ensures Readable(before + EncodeAll(u), |before|, |u|)
    ensures SameChars(DecodeFrom(before + EncodeAll(u), |before|, |u|), u)
  {
    EncodedReadsAs(before, u);
    ReadsAsIff(before + EncodeAll(u), |before|, u);
  }

  lemma {:induction false} EncodedReadsAs(before: seq<byte>, u: seq<u16>)
    ensures ReadsAs(before + EncodeAll(u), |before|, u)
    decreases |u|
  {
    if u != [] {
      var e, rest := Encode(u[0]), EncodeAll(u[1..]);
      FirstOff(u);
      JoinBytes(before, e, rest);
      var s := (before + e) + rest;
      assert s[|before|..|before| + UnitSize(u[0])] == e;
      UnitRoundTrip(u[0], s, |before|);
      EncodedReadsAs(before + e, u[1..]);
    }
  }

  // ----- The conversions -----

  /** One unit appended to the dp bytes written so far. */
  method PutUnit(dest: array<byte>, dp: nat, c: u16) returns (dp': nat)
    requires dp + UnitSize(c) <= dest.Length
    modifies dest
    ensures dp' == dp + UnitSize(c)
    ensures dest[..dp'] == old(dest[..dp]) + Encode(c)
  {
    if c < 0x80 {
      dest[dp] := c;
      dp' := dp + 1;
    } else if c < 0x800 {
      dest[dp] := 0xc0 + c / 64 % 32;
      dest[dp + 1] := 0x80 + c % 64;
      dp' := dp + 2;
    } else {
      dest[dp] := 0xe0 + c / 4096 % 16;
      dest[dp + 1] := 0x80 + c / 64 % 64;
      dest[dp + 2] := 0x80 + c % 64;
      dp' := dp + 3;
    }
    assert dest[dp..dp'] == Encode(c);
  }

  /** fsw_strcoerce_UTF16_UTF8: the buffer of the size computed first is filled exactly. */
  method EncodeString(src: seq<u16>) returns (dest: array<byte>)
    ensures dest[..] == EncodeAll(src)
  {
    var destSize := 0;
    for i := 0 to |src|
      invariant destSize == Size(src[..i])
    {
      OneMore(src, i);
      var c := src[i];
      if c < 0x80 {
        destSize := destSize + 1;
      } else if c < 0x800 {
        destSize := destSize + 2;
      } else {
        destSize := destSize + 3;
      }
    }
    assert src[..|src|] == src;
    dest := new byte[destSize];
    var dp := 0;
    for i := 0 to |src|
      invariant dp == Size(src[..i]) <= destSize
      invariant dest[..dp] == EncodeAll(src[..i])
    {
      OneMore(src, i);
      SizeMonotone(src, i + 1);
      dp := PutUnit(dest, dp, src[i]);
    }
  }

  /** Each character cut down to its low 16 bits. */
  ghost function Truncated(r: seq<nat>): (u: seq<u16>)
    ensures |u| == |r| && forall i :: 0 <= i < |r| ==> u[i] == r[i] % 0x1_0000
  {
    seq(|r|, i requires 0 <= i < |r| => r[i] % 0x1_0000)
  }

  ghost predicate Below64K(r: seq<nat>) {
    forall i :: 0 <= i < |r| ==> r[i] < 0x1_0000
  }

  /** Cutting down loses nothing if and only if every character is below 2^16. */
  lemma TruncationExactIff(r: seq<nat>)
    ensures SameChars(r, Truncated(r)) <==> Below64K(r)
  {
    forall i | 0 <= i < |r|
      ensures r[i] == Truncated(r)[i] <==> r[i] < 0x1_0000
    {
    }
  }

  // ----- The same condition on the bytes -----

  /** The number of characters in legal text. */
  function Chars(s: seq<byte>): nat
    requires LegalText(s)
  {
    if s == [] then 0 else 1 + Chars(s[Width(s[0])..])
  }

  /** No byte begins a character of four bytes. */
  predicate NoFourBytes(s: seq<byte>) {
    forall i :: 0 <= i < |s| ==> s[i] < 0xF0
  }

  /** Legal characters below 2^16 are those without a byte from 0xF0 on. */
  lemma LegalCharBelow64K(s: seq<byte>, p: nat)
    requires CharWithin(s, p) && LegalChar(s[p..p + Width(s[p])])
    ensures CharAt(s, p) < 0x1_0000 <==> NoFourBytes(s[p..p + Width(s[p])])
  {
    var e := s[p..p + Width(s[p])];
    assert e[0] == s[p];
    if Width(s[p]) == 4 {
      assert e[1] == s[p + 1] && e[0] >= 0xF0;
      FourBytesAbove(s[p], s[p + 1]);
    }
  }

  lemma FourBytesAbove(a: byte, b: byte)
    requires (a == 0xF0 && 0x90 <= b <= 0xBF) || 0xF1 <= a <= 0xF4
    ensures 262144 * Low3(a) + 4096 * Low6(b) >= 0x1_0000
  {
  }

  lemma NoFourBytesConcat(a: seq<byte>, b: seq<byte>)
    ensures NoFourBytes(a + b) <==> NoFourBytes(a) && NoFourBytes(b)
  {
    assert forall i :: 0 <= i < |a| ==> (a + b)[i] == a[i];
    assert forall i :: 0 <= i < |b| ==> (a + b)[|a| + i] == b[i];
    assert forall i :: |a| <= i < |a + b| ==> (a + b)[i] == b[i - |a|];
  }

  lemma {:induction false} LegalFrom(s: seq<byte>, p: nat)
    requires p <= |s| && LegalText(s[p..])
    ensures Readable(s, p, Chars(s[p..]))
    ensures Below64K(DecodeFrom(s, p, Chars(s[p..]))) <==> NoFourBytes(s[p..])
    decreases |s| - p
  {
    hide CharAt, LegalChar, NoFourBytes, Below64K, Readable, DecodeFrom;
    var rest := s[p..];
    if rest == [] {
      NothingBelow(s, p, rest);
    } else {
      var w := Width(s[p]);
      assert rest[w..] == s[p + w..] && rest[..w] == s[p..p + w];
      FirstChar(s, p, Chars(rest));
      LegalFrom(s, p + w);
      LegalCharBelow64K(s, p);
      assert rest == rest[..w] + rest[w..];
      NoFourBytesConcat(rest[..w], rest[w..]);
      Below64KStep(CharAt(s, p), DecodeFrom(s, p + w, Chars(s[p + w..])));
    }
  }

  lemma NothingBelow(s: seq<byte>, p: nat, rest: seq<byte>)
    requires rest == []
    ensures Readable(s, p, 0) && Below64K(DecodeFrom(s, p, 0)) && NoFourBytes(rest)
  {
  }

  lemma Below64KStep(c: nat, r: seq<nat>)
    ensures Below64K([c] + r) <==> c < 0x1_0000 && Below64K(r)
  {
    assert forall i :: 0 <= i < |r| ==> ([c] + r)[i + 1] == r[i];
    assert ([c] + r)[0] == c;
  }

  /** Legal text is decoded without loss if and only if no byte of it is 0xF0 or above. */
  lemma LegalTextLosslessIff(s: seq<byte>)
    requires LegalText(s)
    ensures Readable(s, 0, Chars(s))
    ensures var r := DecodeFrom(s, 0, Chars(s)); SameChars(r, Truncated(r)) <==> NoFourBytes(s)
  {
    assert s[0..] == s;
    LegalFrom(s, 0);
    TruncationExactIff(DecodeFrom(s, 0, Chars(s)));
  }

  const FIRST_FOUR_BYTES: seq<byte> := [0xF0, 0x90, 0x80, 0x80]

  /** An input that goes wrong: U+10000 is decoded to 0. */
  lemma FourBytesTruncated()
    ensures LegalText(FIRST_FOUR_BYTES) && Readable(FIRST_FOUR_BYTES, 0, 1)
    ensures DecodeFrom(FIRST_FOUR_BYTES, 0, 1) == [0x1_0000] && Truncated([0x1_0000]) == [0]
  {
    var s := FIRST_FOUR_BYTES;
    assert Width(s[0]) == 4 && s[..4] == s && s[4..] == [];
    assert Readable(s, 4, 0);
  }

  /** One character off the front, as all the decoding loops take it. */
  method NextChar(s: seq<byte>, p: nat) returns (c: nat, p': nat)
    requires CharWithin(s, p)
    ensures c == CharAt(s, p) && p' == p + Width(s[p])
  {
    c, p' := s[p], p + 1;
    if 0xc0 <= c < 0xe0 {
      c := 64 * Low5(s[p]) + Low6(s[p + 1]);
      p' := p + 2;
    } else if 0xe0 <= c < 0xf0 {
      c := 4096 * Low4(s[p]) + 64 * Low6(s[p + 1]) + Low6(s[p + 2]);
      p' := p + 3;
    } else if 0xf0 <= c < 0xf8 {
      c := 262144 * Low3(s[p]) + 4096 * Low6(s[p + 1]) + 64 * Low6(s[p + 2]) + Low6(s[p + 3]);
      p' := p + 4;
    }
  }

  /**
   fsw_strcoerce_UTF8_UTF16: each character is cut down to its low 16 bits. The
   length is trusted: if the buffer has fewer characters the source reads past its end.
   */
  method DecodeString(src: seq<byte>, srcLen: nat) returns (pastEnd: bool, dest: array<u16>)
    ensures pastEnd <==> !Readable(src, 0, srcLen)
    ensures !pastEnd ==> dest[..] == Truncated(DecodeFrom(src, 0, srcLen))
    ensures !pastEnd ==> (SameChars(DecodeFrom(src, 0, srcLen), dest[..]) <==> Below64K(DecodeFrom(src, 0, srcLen)))
    ensures LegalText(src) && srcLen == Chars(src) ==>
              !pastEnd && (SameChars(DecodeFrom(src, 0, srcLen), dest[..]) <==> NoFourBytes(src))
  {
    hide CharAt, Width, Readable, DecodeFrom, Decoded, LegalText;
    if LegalText(src) {
      LegalTextLosslessIff(src);
    }
    dest := new u16[srcLen];
    var sp := 0;
    NoneDecoded(src, srcLen);
    ghost var done: seq<nat> := [];
    for i := 0 to srcLen
      invariant |done| == i && Decoded(src, srcLen, done, sp)
      invariant forall k :: 0 <= k < i ==> dest[k] == done[k] % 0x1_0000
    {
      if !CharWithin(src, sp) {
        NoneFurther(src, srcLen, done, sp);
        return true, dest;
      }
      DecodedOne(src, srcLen, done, sp);
      var c, next := NextChar(src, sp);
      dest[i] := c % 0x1_0000;
      sp, done := next, done + [c];
    }
    AllDecoded(src, srcLen, done, sp);
    TruncationExactIff(done);
    assert dest[..] == Truncated(done);
    return false, dest;
  }

  /** The first characters of n have been decoded, up to position p. */
  ghost predicate Decoded(s: seq<byte>, n: nat, done: seq<nat>, p: nat) {
    && |done| <= n
    && (Readable(s, 0, n) <==> Readable(s, p, n - |done|))
    && (Readable(s, 0, n) ==> DecodeFrom(s, 0, n) == done + DecodeFrom(s, p, n - |done|))
  }

  lemma NoneDecoded(s: seq<byte>, n: nat)
    ensures Decoded(s, n, [], 0)
  {
  }

  lemma NoneFurther(s: seq<byte>, n: nat, done: seq<nat>, p: nat)
    requires Decoded(s, n, done, p) && |done| < n && !CharWithin(s, p)
    ensures !Readable(s, 0, n)
  {
  }

  lemma AllDecoded(s: seq<byte>, n: nat, done: seq<nat>, p: nat)
    requires Decoded(s, n, done, p) && |done| == n
    ensures Readable(s, 0, n) && DecodeFrom(s, 0, n) == done
  {
  }

  lemma DecodedOne(s: seq<byte>, n: nat, done: seq<nat>, p: nat)
    requires Decoded(s, n, done, p) && |done| < n && CharWithin(s, p)
    ensures Decoded(s, n, done + [CharAt(s, p)], p + Width(s[p]))
  {
    hide CharAt, Width, Readable, DecodeFrom;
    var m := n - |done|;
    FirstChar(s, p, m);
    if Readable(s, 0, n) {
      Regroup(done, CharAt(s, p), DecodeFrom(s, p + Width(s[p]), m - 1));
    }
  }

  lemma Regroup(a: seq<nat>, c: nat, b: seq<nat>)
    ensures a + ([c] + b) == (a + [c]) + b
  {
  }

  datatype Comparison = Equal | Unequal | PastEnd

  /** fsw_streq_UTF8_UTF16: equal means that the characters, not cut down, are the units. */
  method StringsEqual(s1: seq<byte>, s2: seq<u16>) returns (r: Comparison)
    ensures r == Equal <==> Readable(s1, 0, |s2|) && SameChars(DecodeFrom(s1, 0, |s2|), s2)
    ensures r == PastEnd ==> !Readable(s1, 0, |s2|)
  {
    ReadsAsIff(s1, 0, s2);
    assert s2[0..] == s2;
    var p := 0;
    for i := 0 to |s2|
      invariant ReadsAs(s1, 0, s2) <==> ReadsAs(s1, p, s2[i..])
      invariant Readable(s1, 0, |s2|) <==> Readable(s1, p, |s2| - i)
    {
      if !CharWithin(s1, p) {
        return PastEnd;
      }
      var c, p' := NextChar(s1, p);
      assert s2[i..][0] == s2[i] && s2[i..][1..] == s2[i + 1..];
      p := p';
      if c != s2[i] {
        return Unequal;
      }
    }
    return Equal;
  }

  /** Encoding and then decoding a string gives the string back. */
  method EncodeDecode(u: seq<u16>) returns (v: seq<u16>)
    ensures v == u
  {
    var s := EncodeString(u);
    RoundTrip([], u);
    assert [] + EncodeAll(u) == s[..];
    var pastEnd, d := DecodeString(s[..], |u|);
    v := d[..];
    assert SameChars(DecodeFrom(s[..], 0, |u|), v);
    assert forall i :: 0 <= i < |u| ==> v[i] == u[i];
  }

  /** Equality against the encoded form is equality of the strings. */
  method EncodedEqual(u: seq<u16>, v: seq<u16>) returns (equal: bool)
    requires |u| == |v|
    ensures equal <==> u == v
  {
    var s := EncodeString(u);
    RoundTrip([], u);
    assert [] + EncodeAll(u) == s[..];
    var r := StringsEqual(s[..], v);
    return r == Equal;
  }

  /** The two decoders agree on a string if and only if it has no character from 2^16 on. */
  method DecodedEqual(s: seq<byte>, n: nat) returns (equal: bool)
    requires Readable(s, 0, n)
    ensures equal <==> Below64K(DecodeFrom(s, 0, n))
    ensures LegalText(s) && n == Chars(s) ==> (equal <==> NoFourBytes(s))
  {
    var pastEnd, d := DecodeString(s, n);
    var r := StringsEqual(s, d[..]);
    return r == Equal;
  }
}
