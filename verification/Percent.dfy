/** Percent coding (section 2.1 of RFC 3986): the decoder of the `percent_encoding` crate and the
    three encoders of the program, which differ in the bytes they leave alone and in the case of
    their hex digits. */
module Percent {
  import opened Bytes
  import opened Utf8

  /** Which encoder: `urls::encode_path` is `Style(true, false)`, the redirect of the daemon
      `Style(true, true)`, and the query values of the log page `Style(false, true)`. */
  datatype Style = Style(path: bool, upper: bool)

  predicate Safe(c: byte, style: Style) {
    IsAlphanumeric(c) || (style.path && (c == '/' || c == '_'))
  }

  function HexDigit(n: nat, upper: bool): (c: byte)
    requires n < 16
    ensures IsHexDigit(c) && HexValue(c) == n
  {
    if n < 10 then ('0' as int + n) as char
    else if upper then ('A' as int + n - 10) as char
    else ('a' as int + n - 10) as char
  }

  function HexValue(c: byte): (n: nat)
    requires IsHexDigit(c)
    ensures n < 16
  {
    if IsDigit(c) then c as int - '0' as int
    else if 'a' <= c then c as int - 'a' as int + 10
    else c as int - 'A' as int + 10
  }

  function EncodedByte(c: byte, style: Style): (s: bytes)
    ensures s != []
    ensures IsAscii(s)
  {
    if Safe(c, style) then [c]
    else ['%', HexDigit(c as int / 16, style.upper), HexDigit(c as int % 16, style.upper)]
  }

  function Encoded(value: bytes, style: Style): bytes {
    if value == [] then [] else EncodedByte(value[0], style) + Encoded(value[1..], style)
  }

  lemma EncodedFirst(value: bytes, style: Style, before: bytes)
    requires value != []
    ensures before + Encoded(value, style) == before + EncodedByte(value[0], style) + Encoded(value[1..], style)
  {
  }

  /** `urls::encode_path` and its two siblings. */
  method Encode(value: bytes, style: Style) returns (encoded: bytes)
    ensures encoded == Encoded(value, style)
    ensures Decoded(encoded) == value
  {
    encoded := [];
    for i := 0 to |value|
      invariant encoded + Encoded(value[i..], style) == Encoded(value, style)
    {
      ghost var before := encoded;
      var c := value[i];
      if Safe(c, style) {
        encoded := encoded + [c];
      } else {
        encoded := encoded + ['%', HexDigit(c as int / 16, style.upper), HexDigit(c as int % 16, style.upper)];
      }
      assert encoded == before + EncodedByte(c, style);
      EncodedFirst(value[i..], style, before);
      assert value[i..][1..] == value[i + 1..];
    }
    EncodedDecodes(value, style);
  }

  predicate EscapeAt(s: bytes) {
    |s| >= 3 && s[0] == '%' && IsHexDigit(s[1]) && IsHexDigit(s[2])
  }

  /** `percent_decode_str`: a percent sign that starts no escape stands for itself. */
  function Decoded(s: bytes): bytes
    decreases |s|
  {
    if s == [] then []
    else if EscapeAt(s) then [Byte(16 * HexValue(s[1]) + HexValue(s[2]))] + Decoded(s[3..])
    else [s[0]] + Decoded(s[1..])
  }

  /** Every percent sign of `s` starts an escape that lies inside `s`. */
  predicate Whole(s: bytes)
    decreases |s|
  {
    s == [] || (if s[0] == '%' then EscapeAt(s) && Whole(s[3..]) else Whole(s[1..]))
  }

  lemma {:induction false} DecodedAppend(a: bytes, b: bytes)
    requires Whole(a)
    ensures Decoded(a + b) == Decoded(a) + Decoded(b)
    ensures Whole(a + b) <==> Whole(b)
    decreases |a|
  {
    var s := a + b;
    if a == [] {
      assert s == b;
    } else if a[0] == '%' {
      assert s[3..] == a[3..] + b;
      DecodedAppend(a[3..], b);
      assert EscapeAt(s) && Decoded(s)[0] == Decoded(a)[0];
    } else {
      assert s[1..] == a[1..] + b;
      DecodedAppend(a[1..], b);
      assert !EscapeAt(s) && !EscapeAt(a);
    }
  }

  lemma {:induction false} EncodedDecodes(value: bytes, style: Style)
    ensures Decoded(Encoded(value, style)) == value
    ensures Whole(Encoded(value, style))
    ensures IsAscii(Encoded(value, style))
  {
    if value == [] {
    } else {
      var c, rest := value[0], Encoded(value[1..], style);
      EncodedDecodes(value[1..], style);
      var e := EncodedByte(c, style);
      var s := e + rest;
      assert s[|e|..] == rest;
      assert Safe(c, style) ==> c != '%';
    }
  }

  lemma {:induction false} EncodedAppend(a: bytes, b: bytes, style: Style)
    ensures Encoded(a + b, style) == Encoded(a, style) + Encoded(b, style)
  {
    if a == [] {
      assert a + b == b;
    } else {
      assert (a + b)[1..] == a[1..] + b;
      EncodedAppend(a[1..], b, style);
    }
  }

  /* Every way to write a text. */

  /** A byte stands for itself, or is escaped with hex digits of either case. */
  datatype Way = Raw | Escape(first: bool, second: bool)

  function Hex(n: nat, upper: bool): byte
    requires n < 16
  {
    (if upper then "0123456789ABCDEF" else "0123456789abcdef")[n]
  }

  function WrittenByte(c: byte, way: Way): (s: bytes)
    ensures s != []
  {
    match way
    case Raw => [c]
    case Escape(first, second) => ['%', Hex(c as int / 16, first), Hex(c as int % 16, second)]
  }

  function Written(x: bytes, ways: seq<Way>): bytes
    requires |ways| == |x|
  {
    if x == [] then [] else WrittenByte(x[0], ways[0]) + Written(x[1..], ways[1..])
  }

  /** A percent sign that stands for itself starts no escape. */
  predicate Unescaped(x: bytes, ways: seq<Way>)
    requires |ways| == |x|
    decreases |x|
  {
    x == []
    || ((x[0] == '%' && ways[0].Raw? ==> !EscapeAt(Written(x, ways))) && Unescaped(x[1..], ways[1..]))
  }

  /** No percent sign stands for itself. */
  predicate AllEscaped(x: bytes, ways: seq<Way>)
    requires |ways| == |x|
  {
    forall i | 0 <= i < |x| :: x[i] == '%' ==> ways[i].Escape?
  }

  lemma HexReads(n: nat, upper: bool)
    requires n < 16
    ensures IsHexDigit(Hex(n, upper)) && HexValue(Hex(n, upper)) == n
  {
  }

  lemma EscapeReads(c: byte, first: bool, second: bool, rest: bytes)
    ensures var s := WrittenByte(c, Escape(first, second)) + rest;
      EscapeAt(s) && s[3..] == rest && 16 * HexValue(s[1]) + HexValue(s[2]) == c as int
  {
    HexReads(c as int / 16, first);
    HexReads(c as int % 16, second);
    hide Hex, IsHexDigit, HexValue;
  }

  lemma FirstEscaped(x: bytes, ways: seq<Way>)
    requires |ways| == |x| > 0
    ensures AllEscaped(x, ways) <==> (x[0] == '%' ==> ways[0].Escape?) && AllEscaped(x[1..], ways[1..])
  {
    assert forall i | 1 <= i < |x| :: x[i] == x[1..][i - 1] && ways[i] == ways[1..][i - 1];
  }

  lemma FirstDecoded(c: byte, way: Way, rest: bytes)
    requires c == '%' && way.Raw? ==> !EscapeAt([c] + rest)
    ensures var s := WrittenByte(c, way) + rest;
      && Decoded(s) == [c] + Decoded(rest)
      && (Whole(s) <==> (c == '%' ==> way.Escape?) && Whole(rest))
  {
    var s := WrittenByte(c, way) + rest;
    hide Hex;
    match way
    case Raw => assert s[0] == c && s[1..] == rest;
    case Escape(first, second) => EscapeReads(c, first, second, rest);
  }

  /** However a text is written, it decodes to itself. */
  lemma {:induction false} WrittenDecodes(x: bytes, ways: seq<Way>)
    requires |ways| == |x| && Unescaped(x, ways)
    ensures Decoded(Written(x, ways)) == x
    ensures Whole(Written(x, ways)) <==> AllEscaped(x, ways)
  {
    if x == [] {
    } else {
      WrittenDecodes(x[1..], ways[1..]);
      FirstEscaped(x, ways);
      hide AllEscaped, EscapeAt, Decoded, Whole, WrittenByte;
      FirstDecoded(x[0], ways[0], Written(x[1..], ways[1..]));
      assert x == [x[0]] + x[1..];
    }
  }

  lemma HexOf(d: byte) returns (upper: bool)
    requires IsHexDigit(d)
    ensures Hex(HexValue(d), upper) == d
  {
    upper := 'A' <= d <= 'F';
  }

  lemma EscapeOf(s: bytes) returns (way: Way)
    requires EscapeAt(s)
    ensures way.Escape? && WrittenByte(Byte(16 * HexValue(s[1]) + HexValue(s[2])), way) == s[..3]
  {
    var first := HexOf(s[1]);
    var second := HexOf(s[2]);
    way := Escape(first, second);
    var c := 16 * HexValue(s[1]) + HexValue(s[2]);
    assert c / 16 == HexValue(s[1]) && c % 16 == HexValue(s[2]);
    hide Hex, HexValue, IsHexDigit;
  }

  lemma FirstWritten(c: byte, way: Way, x: bytes, ways: seq<Way>)
    requires |ways| == |x| && Unescaped(x, ways)
    requires c == '%' && way.Raw? ==> !EscapeAt([c] + Written(x, ways))
    ensures Written([c] + x, [way] + ways) == WrittenByte(c, way) + Written(x, ways)
    ensures Unescaped([c] + x, [way] + ways)
  {
    assert ([c] + x)[1..] == x && ([way] + ways)[1..] == ways;
    hide Hex, EscapeAt;
  }

  /** Every text is one way of writing what it decodes to. */
  lemma {:induction false} EveryWriting(s: bytes) returns (ways: seq<Way>)
    ensures |ways| == |Decoded(s)| && Unescaped(Decoded(s), ways) && Written(Decoded(s), ways) == s
    decreases |s|
  {
    if s == [] {
      ways := [];
    } else if EscapeAt(s) {
      var rest := EveryWriting(s[3..]);
      var way := EscapeOf(s);
      var c := Byte(16 * HexValue(s[1]) + HexValue(s[2]));
      hide Written, Unescaped, WrittenByte, EscapeAt, HexValue;
      ways := [way] + rest;
      FirstWritten(c, way, Decoded(s[3..]), rest);
      assert s == s[..3] + s[3..];
    } else {
      var rest := EveryWriting(s[1..]);
      hide Written, Unescaped, EscapeAt;
      ways := [Raw] + rest;
      assert s == [s[0]] + s[1..];
      FirstWritten(s[0], Raw, Decoded(s[1..]), rest);
    }
  }
}
