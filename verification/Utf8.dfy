/** Well-formed UTF-8, after the byte grammar of section 4 of RFC 3629. */
module Utf8 {
  import opened Bytes

  predicate Continuation(b: byte) {
    0x80 <= b as int <= 0xBF
  }

  /** Whether `b` may be the second byte of a sequence that `a` starts. */
  predicate SecondByte(a: byte, b: byte) {
    var a, b := a as int, b as int;
    if a == 0xE0 then 0xA0 <= b <= 0xBF
    else if a == 0xED then 0x80 <= b <= 0x9F
    else if a == 0xF0 then 0x90 <= b <= 0xBF
    else if a == 0xF4 then 0x80 <= b <= 0x8F
    else 0x80 <= b <= 0xBF
  }

  /** Length announced by a leading byte; 0 when no character starts with it. */
  function LeadWidth(b: byte): (n: nat)
    ensures n <= 4
  {
    var b := b as int;
    if b <= 0x7F then 1
    else if 0xC2 <= b <= 0xDF then 2
    else if 0xE0 <= b <= 0xEF then 3
    else if 0xF0 <= b <= 0xF4 then 4
    else 0
  }

  /** Length of the character at the start of `s`, or 0 when there is none. */
  function CharWidth(s: bytes): (n: nat)
    ensures n <= |s| && n <= 4
  {
    if s == [] then 0
    else
      var n := LeadWidth(s[0]);
      if n <= 1 then n
      else if |s| < n || !SecondByte(s[0], s[1]) then 0
      else if n >= 3 && !Continuation(s[2]) then 0
      else if n == 4 && !Continuation(s[3]) then 0
      else n
  }

  predicate Valid(s: bytes)
    decreases |s|
  {
    s == [] || (CharWidth(s) > 0 && Valid(s[CharWidth(s)..]))
  }

  predicate IsAscii(s: bytes) {
    forall i | 0 <= i < |s| :: s[i] as int < 0x80
  }

  /** Appending after a whole string of characters changes neither verdict. */
  lemma {:induction false} ValidAppend(a: bytes, b: bytes)
    requires Valid(a)
    ensures Valid(a + b) <==> Valid(b)
    decreases |a|
  {
    if a == [] {
      assert a + b == b;
    } else {
      var n := CharWidth(a);
      assert CharWidth(a + b) == n;
      assert (a + b)[n..] == a[n..] + b;
      ValidAppend(a[n..], b);
    }
  }

  /** An ASCII byte always stands between two characters. */
  lemma {:induction false} AsciiSplits(a: bytes, x: byte, b: bytes)
    requires x as int < 0x80
    ensures Valid(a + [x] + b) <==> Valid(a) && Valid(b)
    decreases |a|
  {
    var s := a + [x] + b;
    if a == [] {
      assert s[1..] == b;
    } else {
      var n := CharWidth(s);
      if n > |a| {
        assert s[|a|] == x;
      } else if n > 0 {
        assert CharWidth(a) == n;
        assert s[n..] == a[n..] + [x] + b;
        AsciiSplits(a[n..], x, b);
      } else {
        assert CharWidth(a) == 0;
      }
    }
  }

  lemma {:induction false} AsciiValid(s: bytes)
    requires IsAscii(s)
    ensures Valid(s)
  {
    if s == [] {
    } else {
      AsciiValid(s[1..]);
    }
  }

  /* Against the encoder of section 3 of RFC 3629. */

  /** A Unicode scalar value: any code point but a surrogate. */
  predicate Scalar(c: int) {
    0 <= c < 0xD800 || 0xE000 <= c < 0x110000
  }

  function Continued(c: nat): byte {
    Byte(0x80 + c % 64)
  }

  function Character(c: nat): (s: bytes)
    requires Scalar(c)
    ensures 1 <= |s| <= 4
  {
    if c < 0x80 then [Byte(c)]
    else if c < 0x800 then [Byte(0xC0 + c / 64), Continued(c)]
    else if c < 0x10000 then [Byte(0xE0 + c / 4096), Continued(c / 64), Continued(c)]
    else [Byte(0xF0 + c / 262144), Continued(c / 4096), Continued(c / 64), Continued(c)]
  }

  predicate Scalars(cs: seq<nat>) {
    forall i | 0 <= i < |cs| :: Scalar(cs[i])
  }

  function Characters(cs: seq<nat>): bytes
    requires Scalars(cs)
  {
    if cs == [] then [] else Character(cs[0]) + Characters(cs[1..])
  }

  lemma CharacterWidth(c: nat, rest: bytes)
    requires Scalar(c)
    ensures CharWidth(Character(c) + rest) == |Character(c)|
  {
    var s := Character(c) + rest;
    assert s[0] == Character(c)[0];
    assert c >= 0x80 ==> s[1] == Character(c)[1];
    assert c >= 0x800 ==> s[2] == Character(c)[2];
    assert c >= 0x10000 ==> s[3] == Character(c)[3];
  }

  /** The code point a character stands for. */
  function CodePoint(s: bytes): (c: nat)
    requires CharWidth(s) > 0
  {
    var n := CharWidth(s);
    if n == 1 then s[0] as int
    else if n == 2 then (s[0] as int - 0xC0) * 64 + (s[1] as int - 0x80)
    else if n == 3 then (s[0] as int - 0xE0) * 4096 + (s[1] as int - 0x80) * 64 + (s[2] as int - 0x80)
    else (s[0] as int - 0xF0) * 262144 + (s[1] as int - 0x80) * 4096 + (s[2] as int - 0x80) * 64 + (s[3] as int - 0x80)
  }

  lemma LastDigit(q: nat, r: nat)
    requires r < 64
    ensures (q * 64 + r) / 64 == q && (q * 64 + r) % 64 == r
  {
  }

  lemma Quotients(c: nat)
    ensures c / 4096 == c / 64 / 64 && c / 262144 == c / 64 / 64 / 64
  {
  }

  lemma ThreeDigits(a: nat, b: nat, d: nat)
    requires b < 64 && d < 64
    ensures var c := a * 4096 + b * 64 + d; c / 4096 == a && c / 64 % 64 == b && c % 64 == d
  {
    var c := (a * 64 + b) * 64 + d;
    LastDigit(a * 64 + b, d);
    LastDigit(a, b);
    Quotients(c);
  }

  lemma FourDigits(a: nat, b: nat, d: nat, e: nat)
    requires b < 64 && d < 64 && e < 64
    ensures var c := a * 262144 + b * 4096 + d * 64 + e;
      c / 262144 == a && c / 4096 % 64 == b && c / 64 % 64 == d && c % 64 == e
  {
    var c := ((a * 64 + b) * 64 + d) * 64 + e;
    LastDigit((a * 64 + b) * 64 + d, e);
    LastDigit(a * 64 + b, d);
    LastDigit(a, b);
    Quotients(c);
  }

  lemma CodePointScalar(s: bytes)
    requires CharWidth(s) > 0
    ensures Scalar(CodePoint(s))
    ensures CharWidth(s) == if CodePoint(s) < 0x80 then 1 else if CodePoint(s) < 0x800 then 2
                            else if CodePoint(s) < 0x10000 then 3 else 4
  {
  }

  lemma CodePointIs(s: bytes)
    requires CharWidth(s) > 0
    ensures Scalar(CodePoint(s)) && Character(CodePoint(s)) == s[..CharWidth(s)]
  {
    CodePointScalar(s);
    var n := CharWidth(s);
    if n == 2 {
      LastDigit(s[0] as int - 0xC0, s[1] as int - 0x80);
    } else if n == 3 {
      ThreeDigits(s[0] as int - 0xE0, s[1] as int - 0x80, s[2] as int - 0x80);
    } else if n == 4 {
      FourDigits(s[0] as int - 0xF0, s[1] as int - 0x80, s[2] as int - 0x80, s[3] as int - 0x80);
    }
    hide Scalar;
  }

  lemma {:induction false} CharactersValid(cs: seq<nat>)
    requires Scalars(cs)
    ensures Valid(Characters(cs))
  {
    if cs == [] {
    } else {
      var s, rest := Characters(cs), Characters(cs[1..]);
      CharacterWidth(cs[0], rest);
      assert s[|Character(cs[0])|..] == rest;
      CharactersValid(cs[1..]);
      hide Character, CharWidth;
    }
  }

  lemma {:induction false} ValidCharacters(s: bytes) returns (cs: seq<nat>)
    requires Valid(s)
    ensures Scalars(cs) && Characters(cs) == s
    decreases |s|
  {
    if s == [] {
      cs := [];
    } else {
      var n := CharWidth(s);
      CodePointIs(s);
      hide Character, CodePoint, Scalar;
      var rest := ValidCharacters(s[n..]);
      hide CharWidth, Valid;
      cs := [CodePoint(s)] + rest;
      assert cs[1..] == rest;
      assert s == s[..n] + s[n..];
    }
  }

  /** The byte grammar describes exactly what the encoder produces. */
  lemma ValidExactly(s: bytes)
    ensures Valid(s) <==> exists cs :: Scalars(cs) && Characters(cs) == s
  {
    hide Valid;
    if Valid(s) {
      var cs := ValidCharacters(s);
    }
    if cs :| Scalars(cs) && Characters(cs) == s {
      CharactersValid(cs);
    }
  }
}
