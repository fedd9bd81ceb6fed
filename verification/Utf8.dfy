/** UTF-8 (RFC 3629), the form in which the Python script puts its strings on the wire. */
module Utf8 {
  import opened Bytes

  /** A Python str is a sequence of these; lone surrogates may occur in it but have no UTF-8 form. */
  type CodePoint = n: int | 0 <= n < 0x11_0000

  predicate Surrogate(cp: CodePoint) {
    0xD800 <= cp < 0xE000
  }

  predicate Encodable(s: seq<CodePoint>) {
    forall i :: 0 <= i < |s| ==> !Surrogate(s[i])
  }

  function EncodePoint(cp: CodePoint): (b: bytes)
    ensures 1 <= |b| <= 4
  {
    if cp < 0x80 then [cp]
    else if cp < 0x800 then [0xC0 + cp / 64, 0x80 + cp % 64]
    else if cp < 0x1_0000 then [0xE0 + cp / 4096, 0x80 + cp / 64 % 64, 0x80 + cp % 64]
    else [0xF0 + cp / 0x4_0000, 0x80 + cp / 4096 % 64, 0x80 + cp / 64 % 64, 0x80 + cp % 64]
  }

  function Encode(s: seq<CodePoint>): bytes {
    if s == [] then [] else EncodePoint(s[0]) + Encode(s[1..])
  }

  lemma {:induction false} AsciiEncodesItself(s: seq<CodePoint>)
    requires forall i :: 0 <= i < |s| ==> s[i] < 0x80
    ensures Encodable(s) && Encode(s) == s
  {
    if s != [] { AsciiEncodesItself(s[1..]); }
  }

  predicate Trailing(b: byte) {
    0x80 <= b < 0xC0
  }

  /** The table of section 3 of RFC 3629: the range decides the length, and the payload bits spell the code point. */
  lemma PointForm(cp: CodePoint)
    ensures var b: seq<int> := EncodePoint(cp);
      && (|b| == 1 <==> cp < 0x80)
      && (|b| == 2 <==> 0x80 <= cp < 0x800)
      && (|b| == 3 <==> 0x800 <= cp < 0x1_0000)
      && (|b| == 4 <==> 0x1_0000 <= cp)
      && (forall i :: 1 <= i < |b| ==> 0x80 <= b[i] < 0xC0)
      && (|b| == 1 ==> b[0] == cp)
      && (|b| == 2 ==> 0xC0 <= b[0] < 0xE0 && cp == (b[0] - 0xC0) * 64 + (b[1] - 0x80))
      && (|b| == 3 ==> 0xE0 <= b[0] < 0xF0 && cp == (b[0] - 0xE0) * 4096 + (b[1] - 0x80) * 64 + (b[2] - 0x80))
      && (|b| == 4 ==>
          && 0xF0 <= b[0] < 0xF8
          && cp == (b[0] - 0xF0) * 0x4_0000 + (b[1] - 0x80) * 4096 + (b[2] - 0x80) * 64 + (b[3] - 0x80))
  {
    SplitJoins(cp);
  }

  /** Reads one code point off the front: overlong forms, surrogates and values beyond the last plane are refused. */
  function DecodePoint(b: bytes): Option<(CodePoint, bytes)> {
    var d: seq<int> := b;
    if b == [] then None
    else if b[0] < 0x80 then Some((b[0], b[1..]))
    else if 0xC2 <= b[0] < 0xE0 && |b| >= 2 && Trailing(b[1]) then
      Some((Join(0, 0, d[0] - 0xC0, d[1] - 0x80), b[2..]))
    else if 0xE0 <= b[0] < 0xF0 && |b| >= 3 && Trailing(b[1]) && Trailing(b[2]) then
      var cp := Join(0, d[0] - 0xE0, d[1] - 0x80, d[2] - 0x80);
      if cp < 0x800 || Surrogate(cp) then None else Some((cp, b[3..]))
    else if 0xF0 <= b[0] < 0xF5 && |b| >= 4 && Trailing(b[1]) && Trailing(b[2]) && Trailing(b[3]) then
      var cp := Join(d[0] - 0xF0, d[1] - 0x80, d[2] - 0x80, d[3] - 0x80);
      if 0x1_0000 <= cp < 0x11_0000 then Some((cp, b[4..])) else None
    else None
  }

  /** Four digits in base 64. */
  function Join(x: nat, y: nat, z: nat, w: nat): nat {
    x * 0x4_0000 + y * 4096 + z * 64 + w
  }

  lemma JoinSplits(x: nat, y: nat, z: nat, w: nat)
    requires y < 64 && z < 64 && w < 64
    ensures var n := Join(x, y, z, w); x == n / 0x4_0000 && y == n / 4096 % 64 && z == n / 64 % 64 && w == n % 64
  {
    var n := Join(x, y, z, w);
    assert n / 64 == x * 4096 + y * 64 + z;
    assert n / 4096 == x * 64 + y;
  }

  lemma SplitJoins(n: nat)
    ensures Join(n / 0x4_0000, n / 4096 % 64, n / 64 % 64, n % 64) == n
  {
    assert n / 4096 == n / 64 / 64 && n / 0x4_0000 == n / 4096 / 64;
  }

  lemma PointRoundTrip(cp: CodePoint, rest: bytes)
    requires !Surrogate(cp)
    ensures DecodePoint(EncodePoint(cp) + rest) == Some((cp, rest))
  {
    hide Join;
    var e := EncodePoint(cp);
    SplitJoins(cp);
    assert (e + rest)[|e|..] == rest;
  }

  lemma OneByteSound(cp: CodePoint)
    requires cp < 0x80
    ensures EncodePoint(cp) == [cp]
  {}

  lemma TwoByteSound(b: bytes)
    requires |b| >= 2 && 0xC2 <= b[0] < 0xE0 && Trailing(b[1])
    ensures DecodePoint(b).Some? && !Surrogate(DecodePoint(b).value.0)
    ensures b[..2] == EncodePoint(DecodePoint(b).value.0)
  {
    hide Join;
    var d: seq<int> := b;
    JoinSplits(0, 0, d[0] - 0xC0, d[1] - 0x80);
    assert EncodePoint(DecodePoint(b).value.0) == [b[0], b[1]];
  }

  lemma ThreeByteSound(b: bytes)
    requires |b| >= 3 && 0xE0 <= b[0] < 0xF0 && Trailing(b[1]) && Trailing(b[2]) && DecodePoint(b).Some?
    ensures b[..3] == EncodePoint(DecodePoint(b).value.0)
  {
    hide Join;
    var d: seq<int> := b;
    JoinSplits(0, d[0] - 0xE0, d[1] - 0x80, d[2] - 0x80);
    assert EncodePoint(DecodePoint(b).value.0) == [b[0], b[1], b[2]];
  }

  lemma FourByteSound(b: bytes)
    requires |b| >= 4 && 0xF0 <= b[0] < 0xF5 && Trailing(b[1]) && Trailing(b[2]) && Trailing(b[3])
    requires DecodePoint(b).Some?
    ensures b[..4] == EncodePoint(DecodePoint(b).value.0)
  {
    hide Join;
    var d: seq<int> := b;
    JoinSplits(d[0] - 0xF0, d[1] - 0x80, d[2] - 0x80, d[3] - 0x80);
    assert EncodePoint(DecodePoint(b).value.0) == [b[0], b[1], b[2], b[3]];
  }

  lemma PointSound(b: bytes)
    requires DecodePoint(b).Some?
    ensures var (cp, rest) := DecodePoint(b).value; !Surrogate(cp) && b == EncodePoint(cp) + rest
  {
    hide Join, EncodePoint;
    if b[0] < 0x80 {
      OneByteSound(b[0]);
      assert b == [b[0]] + b[1..];
    } else if b[0] < 0xE0 {
      TwoByteSound(b);
      assert b == b[..2] + b[2..];
    } else if b[0] < 0xF0 {
      ThreeByteSound(b);
      assert b == b[..3] + b[3..];
    } else {
      FourByteSound(b);
      assert b == b[..4] + b[4..];
    }
  }

  /** The decoder reads a code point exactly from the strings that start with its encoding. */
  lemma PointDecodes(cp: CodePoint, b: bytes, rest: bytes)
    ensures DecodePoint(b) == Some((cp, rest)) <==> !Surrogate(cp) && b == EncodePoint(cp) + rest
  {
    hide DecodePoint;
    if !Surrogate(cp) && b == EncodePoint(cp) + rest { PointRoundTrip(cp, rest); }
    if DecodePoint(b) == Some((cp, rest)) { PointSound(b); }
  }

  /** Whole strings: the bytes determine the text, so no two texts share an encoding. */
  lemma {:induction false} EncodeInjective(s: seq<CodePoint>, t: seq<CodePoint>)
    requires Encodable(s) && Encodable(t) && Encode(s) == Encode(t)
    ensures s == t
  {
    if s != [] && t != [] {
      PointDecodes(s[0], Encode(s), Encode(s[1..]));
      PointDecodes(t[0], Encode(s), Encode(t[1..]));
      EncodeInjective(s[1..], t[1..]);
      assert s == [s[0]] + s[1..] && t == [t[0]] + t[1..];
    }
  }
}
