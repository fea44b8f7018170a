/** `str::trim`: the characters with the Unicode property White_Space, in their UTF-8 spelling. */
module Whitespace {
  import opened Bytes
  import opened Utf8

  /** U+0009 to U+000D and U+0020. */
  predicate AsciiSpace(b: byte) {
    b == ' ' || 9 <= b as int <= 13
  }

  /** U+0085 and U+00A0. */
  predicate TwoByteSpace(a: byte, b: byte) {
    a as int == 0xC2 && (b as int == 0x85 || b as int == 0xA0)
  }

  /** U+1680, U+2000 to U+200A, U+2028, U+2029, U+202F, U+205F and U+3000. */
  predicate ThreeByteSpace(a: byte, b: byte, c: byte) {
    var a, b, c := a as int, b as int, c as int;
    || (a == 0xE1 && b == 0x9A && c == 0x80)
    || (a == 0xE2 && b == 0x80 && (0x80 <= c <= 0x8A || c == 0xA8 || c == 0xA9 || c == 0xAF))
    || (a == 0xE2 && b == 0x81 && c == 0x9F)
    || (a == 0xE3 && b == 0x80 && c == 0x80)
  }

  /** Bytes of the white space at the start of `s`; 0 when it starts with something else. */
  function LeadingSpace(s: bytes): (n: nat)
    ensures n <= |s|
  {
    if |s| >= 1 && AsciiSpace(s[0]) then 1
    else if |s| >= 2 && TwoByteSpace(s[0], s[1]) then 2
    else if |s| >= 3 && ThreeByteSpace(s[0], s[1], s[2]) then 3
    else 0
  }

  function TrailingSpace(s: bytes): (n: nat)
    ensures n <= |s|
  {
    var end := |s|;
    if end >= 1 && AsciiSpace(s[end - 1]) then 1
    else if end >= 2 && TwoByteSpace(s[end - 2], s[end - 1]) then 2
    else if end >= 3 && ThreeByteSpace(s[end - 3], s[end - 2], s[end - 1]) then 3
    else 0
  }

  function TrimStart(s: bytes): (r: bytes)
    ensures |r| <= |s| && LeadingSpace(r) == 0
    decreases |s|
  {
    if LeadingSpace(s) == 0 then s else TrimStart(s[LeadingSpace(s)..])
  }

  function TrimEnd(s: bytes): (r: bytes)
    ensures |r| <= |s| && TrailingSpace(r) == 0
    decreases |s|
  {
    if TrailingSpace(s) == 0 then s else TrimEnd(s[..|s| - TrailingSpace(s)])
  }

  function Trim(s: bytes): (r: bytes)
    ensures |r| <= |s|
  {
    TrimEnd(TrimStart(s))
  }

  /* By characters. */

  /** The code points with the property White_Space. */
  predicate WhiteSpace(c: int) {
    9 <= c <= 13 || 0x2000 <= c <= 0x200A
    || c in {0x20, 0x85, 0xA0, 0x1680, 0x2028, 0x2029, 0x202F, 0x205F, 0x3000}
  }

  lemma LeadingCharacter(c: nat, rest: bytes)
    requires Scalar(c)
    ensures LeadingSpace(Character(c) + rest) == if WhiteSpace(c) then |Character(c)| else 0
  {
    var s := Character(c) + rest;
    assert s[0] == Character(c)[0];
    assert c >= 0x80 ==> s[1] == Character(c)[1];
    assert c >= 0x800 ==> s[2] == Character(c)[2];
  }

  lemma TrailingCharacter(c: nat, before: bytes)
    requires Scalar(c)
    ensures TrailingSpace(before + Character(c)) == if WhiteSpace(c) then |Character(c)| else 0
  {
    var s, e := before + Character(c), Character(c);
    assert s[|s| - 1] == e[|e| - 1];
    assert c >= 0x80 ==> s[|s| - 2] == e[|e| - 2];
    assert c >= 0x800 ==> s[|s| - 3] == e[|e| - 3];
  }

  function TrimmedFront(cs: seq<nat>): (r: seq<nat>)
    requires Scalars(cs)
    ensures Scalars(r)
  {
    if cs != [] && WhiteSpace(cs[0]) then TrimmedFront(cs[1..]) else cs
  }

  function TrimmedBack(cs: seq<nat>): (r: seq<nat>)
    requires Scalars(cs)
    ensures Scalars(r)
  {
    if cs != [] && WhiteSpace(cs[|cs| - 1]) then TrimmedBack(cs[..|cs| - 1]) else cs
  }

  /** Trimming the bytes drops the characters that are white space, at either end. */
  lemma {:induction false} TrimStartText(cs: seq<nat>)
    requires Scalars(cs)
    ensures TrimStart(Characters(cs)) == Characters(TrimmedFront(cs))
  {
    if cs == [] {
    } else {
      var s, n := Characters(cs), |Character(cs[0])|;
      LeadingCharacter(cs[0], Characters(cs[1..]));
      hide LeadingSpace, WhiteSpace, Character;
      assert s[n..] == Characters(cs[1..]);
      if WhiteSpace(cs[0]) {
        TrimStartText(cs[1..]);
      }
    }
  }

  lemma {:induction false} LastCharacter(cs: seq<nat>)
    requires Scalars(cs) && cs != []
    ensures Characters(cs) == Characters(cs[..|cs| - 1]) + Character(cs[|cs| - 1])
  {
    hide Character;
    if |cs| == 1 {
      assert cs[1..] == [];
    } else {
      LastCharacter(cs[1..]);
      assert cs[1..][..|cs| - 2] == cs[..|cs| - 1][1..];
    }
  }

  lemma {:induction false} TrimEndText(cs: seq<nat>)
    requires Scalars(cs)
    ensures TrimEnd(Characters(cs)) == Characters(TrimmedBack(cs))
  {
    if cs == [] {
    } else {
      var s, front, last := Characters(cs), cs[..|cs| - 1], cs[|cs| - 1];
      LastCharacter(cs);
      TrailingCharacter(last, Characters(front));
      hide TrailingSpace, WhiteSpace, Character;
      assert s[..|s| - |Character(last)|] == Characters(front);
      if WhiteSpace(last) {
        TrimEndText(front);
      }
    }
  }
}
