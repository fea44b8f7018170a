/** The lexer of the URL scheme: structural delimiters are recognised before percent decoding.
    `None` stands for the error of the router, which carries no data. */
module Lexer {
  import opened Wrappers
  import opened Bytes
  import opened Utf8
  import opened Percent

  datatype Kind = Text | Slash | Boundary | Range | GitSuffix

  datatype Token = Token(kind: Kind, raw: bytes)

  /** What stands at the start of a non-empty rest of the path. */
  datatype Unit = Bad | Plain(width: nat) | Delimiter(kind: Kind, width: nat)

  function Literal(kind: Kind): bytes
    requires kind != Text
  {
    match kind
    case Slash => "/"
    case Boundary => "/+/"
    case Range => ".."
    case GitSuffix => ".git"
  }

  /** A `.git` delimiter must end its path segment. */
  predicate GitSuffixAt(s: bytes) {
    StartsWith(s, ".git") && (|s| == 4 || s[4] == '/')
  }

  function UnitAt(s: bytes): (u: Unit)
    requires s != []
    ensures u.Plain? ==> 1 <= u.width <= |s|
    ensures u.Delimiter? ==> u.kind != Text && u.width == |Literal(u.kind)| && Literal(u.kind) <= s
  {
    if s[0] == '%' then if EscapeAt(s) then Plain(3) else Bad
    else if s[0] == '?' || s[0] == '#' then Bad
    else if StartsWith(s, "/+/") then Delimiter(Boundary, 3)
    else if s[0] == '/' then Delimiter(Slash, 1)
    else if StartsWith(s, "..") then Delimiter(Range, 2)
    else if GitSuffixAt(s) then Delimiter(GitSuffix, 4)
    else Plain(1)
  }

  /** Puts text before a token sequence; neighbouring text is one token. */
  function PrependText(text: bytes, tokens: seq<Token>): seq<Token> {
    if text == [] then tokens
    else if tokens != [] && tokens[0].kind == Text then [Token(Text, text + tokens[0].raw)] + tokens[1..]
    else [Token(Text, text)] + tokens
  }

  /** The tokens of a path, by the unit at its front; the specification of `Lex`. */
  function Tokens(s: bytes): (r: Option<seq<Token>>)
    decreases |s|
  {
    if s == [] then Some([])
    else
      match UnitAt(s)
      case Bad => None
      case Plain(w) =>
        (match Tokens(s[w..])
         case None => None
         case Some(rest) => Some(PrependText(s[..w], rest)))
      case Delimiter(kind, w) =>
        (match Tokens(s[w..])
         case None => None
         case Some(rest) => Some([Token(kind, s[..w])] + rest))
  }

  /** The token list after the pending text has been flushed. */
  function Flushed(done: seq<Token>, path: bytes, start: nat, cursor: nat): (r: seq<Token>)
    requires start <= cursor <= |path|
    ensures r == done + PrependText(path[start..cursor], [])
  {
    if start < cursor then
      assert path[start..cursor] != [];
      done + [Token(Text, path[start..cursor])]
    else
      assert path[start..cursor] == [];
      done
  }

  /** Tokens found before the cursor, the pending text, and the tokens of the rest. */
  ghost function Combined(done: seq<Token>, text: bytes, rest: Option<seq<Token>>):
    Option<seq<Token>>
  {
    match rest
    case None => None
    case Some(tokens) => Some(done + PrependText(text, tokens))
  }

  method Lex(path: bytes) returns (r: Option<seq<Token>>)
    ensures r == Tokens(path)
    ensures r.Some? ==> Lexed(r.value) && Flatten(r.value) == path
    ensures r.Some? && Valid(path) ==> forall t | t in r.value :: Valid(t.raw)
  {
    hide *;
    var tokens: seq<Token> := [];
    var cursor, start := 0, 0;
    CombinedEmpty(path);
    while cursor < |path|
      invariant 0 <= start <= cursor <= |path|
      invariant Tokens(path) == Combined(tokens, path[start..cursor], Tokens(path[cursor..]))
      decreases |path| - cursor
    {
      RejectedAt(path, tokens, start, cursor);
      if path[cursor] == '%' {
        if cursor + 2 >= |path| || !IsHexDigit(path[cursor + 1]) || !IsHexDigit(path[cursor + 2]) {
          return None;
        }
        CombinedPlain(path, tokens, start, cursor, 3);
        cursor := cursor + 3;
        continue;
      }
      if path[cursor] == '?' || path[cursor] == '#' {
        return None;
      }
      var delimiter := DelimiterAt(path, cursor);
      if delimiter == None {
        CombinedPlain(path, tokens, start, cursor, 1);
        cursor := cursor + 1;
        continue;
      }
      var kind, width := delimiter.value.0, delimiter.value.1;
      CombinedDelimiter(path, tokens, start, cursor, kind, width);
      tokens := Flushed(tokens, path, start, cursor) + [Token(kind, path[cursor..cursor + width])];
      cursor := cursor + width;
      start := cursor;
    }
    CombinedEnd(path, tokens, start);
    tokens := Flushed(tokens, path, start, cursor);
    r := Some(tokens);
    TokensLexed(path);
    if Valid(path) {
      TokensValid(path);
    }
  }

  method DelimiterAt(path: bytes, cursor: nat) returns (d: Option<(Kind, nat)>)
    requires cursor < |path| && path[cursor] != '%' && path[cursor] != '?' && path[cursor] != '#'
    ensures UnitAt(path[cursor..]) == if d == None then Plain(1) else Delimiter(d.value.0, d.value.1)
    ensures d.Some? ==> 0 < d.value.1 <= |path| - cursor
  {
    if StartsWith(path[cursor..], "/+/") {
      d := Some((Boundary, 3));
    } else if path[cursor] == '/' {
      d := Some((Slash, 1));
    } else if StartsWith(path[cursor..], "..") {
      d := Some((Range, 2));
    } else if StartsWith(path[cursor..], ".git") && (cursor + 4 == |path| || path[cursor + 4] == '/') {
      d := Some((GitSuffix, 4));
    } else {
      d := None;
    }
  }

  lemma RejectedAt(path: bytes, done: seq<Token>, start: nat, cursor: nat)
    requires start <= cursor < |path|
    ensures path[cursor] == '%' ==>
      UnitAt(path[cursor..])
      == if cursor + 2 >= |path| || !IsHexDigit(path[cursor + 1]) || !IsHexDigit(path[cursor + 2])
         then Bad else Plain(3)
    ensures path[cursor] == '?' || path[cursor] == '#' ==> UnitAt(path[cursor..]) == Bad
    ensures UnitAt(path[cursor..]) == Bad ==>
      Combined(done, path[start..cursor], Tokens(path[cursor..])) == None
  {
  }

  lemma CombinedPlain(path: bytes, done: seq<Token>, start: nat, cursor: nat, w: nat)
    requires start <= cursor < |path| && UnitAt(path[cursor..]) == Plain(w)
    ensures Combined(done, path[start..cursor], Tokens(path[cursor..]))
         == Combined(done, path[start..cursor + w], Tokens(path[cursor + w..]))
  {
    assert path[cursor..][w..] == path[cursor + w..];
    assert path[start..cursor] + path[cursor..][..w] == path[start..cursor + w];
    if Tokens(path[cursor + w..]).Some? {
      PrependTwice(path[start..cursor], path[cursor..][..w], Tokens(path[cursor + w..]).value);
    }
  }

  lemma PrependTwice(a: bytes, b: bytes, tokens: seq<Token>)
    ensures PrependText(a, PrependText(b, tokens)) == PrependText(a + b, tokens)
  {
    if a == [] {
      assert a + b == b;
    } else if b == [] {
      assert a + b == a;
    } else if tokens != [] && tokens[0].kind == Text {
      assert a + (b + tokens[0].raw) == (a + b) + tokens[0].raw;
    }
  }

  lemma TokensDelimiter(s: bytes)
    requires s != [] && UnitAt(s).Delimiter?
    ensures var u := UnitAt(s);
      Tokens(s) == match Tokens(s[u.width..])
                   case None => None
                   case Some(rest) => Some([Token(u.kind, s[..u.width])] + rest)
  {
  }

  lemma CombinedDelimiter(path: bytes, done: seq<Token>, start: nat, cursor: nat, kind: Kind, w: nat)
    requires start <= cursor < cursor + w <= |path| && UnitAt(path[cursor..]) == Delimiter(kind, w)
    ensures Combined(done, path[start..cursor], Tokens(path[cursor..]))
         == Combined(Flushed(done, path, start, cursor) + [Token(kind, path[cursor..cursor + w])],
                     path[cursor + w..cursor + w], Tokens(path[cursor + w..]))
  {
    TokensDelimiter(path[cursor..]);
    assert path[cursor..][w..] == path[cursor + w..];
    assert path[cursor..][..w] == path[cursor..cursor + w];
    hide Tokens, PrependText, UnitAt, Flushed;
    if Tokens(path[cursor + w..]).Some? {
      var d := Token(kind, path[cursor..cursor + w]);
      DelimiterAfterText(done, path[start..cursor], d, Tokens(path[cursor + w..]).value);
      assert path[cursor + w..cursor + w] == [];
    }
  }

  lemma DelimiterAfterText(done: seq<Token>, text: bytes, d: Token, rest: seq<Token>)
    requires d.kind != Text
    ensures done + PrependText(text, [d] + rest) == done + PrependText(text, []) + [d] + PrependText([], rest)
  {
    assert PrependText(text, [d] + rest) == PrependText(text, []) + [d] + rest;
  }

  lemma CombinedEnd(path: bytes, done: seq<Token>, start: nat)
    requires start <= |path|
    ensures Combined(done, path[start..|path|], Tokens(path[|path|..]))
         == Some(Flushed(done, path, start, |path|))
  {
    assert Tokens(path[|path|..]) == Some([]) by {
      assert path[|path|..] == [];
    }
  }

  lemma CombinedEmpty(path: bytes)
    ensures Combined([], path[0..0], Tokens(path[0..])) == Tokens(path)
  {
    assert path[0..] == path;
    if Tokens(path).Some? {
      assert [] + Tokens(path).value == Tokens(path).value;
    }
  }

  /* What a token sequence keeps of the path it came from. */

  function Flatten(tokens: seq<Token>): bytes {
    if tokens == [] then [] else tokens[0].raw + Flatten(tokens[1..])
  }

  ghost predicate TokenShape(t: Token) {
    if t.kind == Text then t.raw != [] && Whole(t.raw) else t.raw == Literal(t.kind)
  }

  /** Delimiters carry their literal, text is non-empty and splits no escape, and no two texts adjoin. */
  ghost predicate Lexed(tokens: seq<Token>) {
    && (forall i | 0 <= i < |tokens| :: TokenShape(tokens[i]))
    && (forall i | 0 < i < |tokens| :: tokens[i].kind != Text || tokens[i - 1].kind != Text)
  }

  lemma {:induction false} TokensLexed(s: bytes)
    requires Tokens(s).Some?
    ensures Lexed(Tokens(s).value) && Flatten(Tokens(s).value) == s
    decreases |s|
  {
    if s != [] {
      hide *;
      TokensUnit(s);
      var w := UnitAt(s).width;
      TokensLexed(s[w..]);
      var rest := Tokens(s[w..]).value;
      Rejoined(s, w);
      if UnitAt(s).Plain? {
        PlainWhole(s);
        PrependLexed(s[..w], rest);
      } else {
        DelimiterLexed(Token(UnitAt(s).kind, s[..w]), rest);
      }
    } else {
      NothingLexed();
    }
  }

  lemma TokensUnit(s: bytes)
    requires s != [] && Tokens(s).Some?
    ensures var u := UnitAt(s);
      && !u.Bad? && 0 < u.width <= |s| && Tokens(s[u.width..]).Some?
      && Tokens(s) == Some(if u.Plain? then PrependText(s[..u.width], Tokens(s[u.width..]).value)
                           else [Token(u.kind, s[..u.width])] + Tokens(s[u.width..]).value)
      && (u.Delimiter? ==> u.kind != Text && s[..u.width] == Literal(u.kind))
      && s[..u.width] != []
  {
    hide PrependText;
  }

  lemma Rejoined(s: bytes, w: nat)
    requires w <= |s|
    ensures s[..w] + s[w..] == s
  {
  }

  lemma NothingLexed()
    ensures Tokens([]) == Some([]) && Lexed([]) && Flatten([]) == []
  {
  }

  lemma PlainWhole(s: bytes)
    requires s != [] && UnitAt(s).Plain?
    ensures Whole(s[..UnitAt(s).width])
  {
    var text := s[..UnitAt(s).width];
    if s[0] == '%' {
      assert text[3..] == [];
    } else {
      assert text[1..] == [];
    }
  }

  lemma DelimiterLexed(t: Token, rest: seq<Token>)
    requires Lexed(rest) && t.kind != Text && t.raw == Literal(t.kind)
    ensures Lexed([t] + rest) && Flatten([t] + rest) == t.raw + Flatten(rest)
  {
    var r := [t] + rest;
    assert r[1..] == rest;
    assert forall i | 0 < i < |r| :: r[i] == rest[i - 1];
  }

  lemma PrependLexed(text: bytes, tokens: seq<Token>)
    requires Lexed(tokens) && text != [] && Whole(text)
    ensures Lexed(PrependText(text, tokens))
    ensures Flatten(PrependText(text, tokens)) == text + Flatten(tokens)
  {
    if tokens != [] && tokens[0].kind == Text {
      MergedLexed(text, tokens);
    } else {
      var r := [Token(Text, text)] + tokens;
      hide Whole;
      assert r[1..] == tokens;
      assert forall i | 0 < i < |r| :: r[i] == tokens[i - 1];
    }
  }

  lemma MergedLexed(text: bytes, tokens: seq<Token>)
    requires Lexed(tokens) && text != [] && Whole(text) && tokens != [] && tokens[0].kind == Text
    ensures var r := [Token(Text, text + tokens[0].raw)] + tokens[1..];
      Lexed(r) && Flatten(r) == text + Flatten(tokens)
  {
    var t := Token(Text, text + tokens[0].raw);
    assert TokenShape(tokens[0]);
    MergedShape(text, tokens[0]);
    FlattenFirst(tokens);
    hide *;
    FirstReplaced(t, tokens);
    Regrouped(text, tokens[0].raw, Flatten(tokens[1..]));
  }

  lemma FlattenFirst(tokens: seq<Token>)
    requires tokens != []
    ensures Flatten(tokens) == tokens[0].raw + Flatten(tokens[1..])
  {
  }

  lemma Regrouped(a: bytes, b: bytes, c: bytes)
    ensures a + (b + c) == a + b + c
  {
  }

  lemma FirstReplaced(t: Token, tokens: seq<Token>)
    requires Lexed(tokens) && tokens != [] && t.kind == tokens[0].kind && TokenShape(t)
    ensures var r := [t] + tokens[1..]; Lexed(r) && Flatten(r) == t.raw + Flatten(tokens[1..])
  {
    hide TokenShape;
    var r := [t] + tokens[1..];
    assert r[1..] == tokens[1..];
    assert forall i | 0 < i < |r| :: r[i] == tokens[i];
  }

  lemma MergedShape(text: bytes, t: Token)
    requires text != [] && Whole(text) && TokenShape(t) && t.kind == Text
    ensures TokenShape(Token(Text, text + t.raw))
  {
    DecodedAppend(text, t.raw);
    hide Whole, Decoded;
  }

  /** Every token of a well-formed string is well-formed: no slice cuts a character. */
  lemma {:induction false} TokensValid(s: bytes)
    requires Tokens(s).Some? && Valid(s)
    ensures forall t | t in Tokens(s).value :: Valid(t.raw)
    decreases |s|
  {
    TokensLexed(s);
    FlattenValid(Tokens(s).value);
  }

  lemma {:induction false} FlattenValid(tokens: seq<Token>)
    requires Lexed(tokens)
    ensures Valid(Flatten(tokens)) <==> forall i | 0 <= i < |tokens| :: Valid(tokens[i].raw)
  {
    if tokens == [] {
    } else {
      var t, rest := tokens[0], tokens[1..];
      FlattenValid(rest);
      assert forall i | 0 < i < |tokens| :: tokens[i] == rest[i - 1];
      hide Valid;
      FirstValid(tokens);
    }
  }

  lemma FirstValid(tokens: seq<Token>)
    requires Lexed(tokens) && tokens != []
    ensures Valid(Flatten(tokens)) <==> Valid(tokens[0].raw) && Valid(Flatten(tokens[1..]))
  {
    var t, rest := tokens[0], tokens[1..];
    assert TokenShape(t);
    if t.kind != Text {
      hide Valid;
      LiteralValid(t.kind);
      ValidAppend(t.raw, Flatten(rest));
    } else if rest != [] {
      assert TokenShape(tokens[1]);
      hide Valid;
      TextThenDelimiter(t.raw, rest);
    } else {
      assert t.raw + Flatten(rest) == t.raw;
    }
  }

  lemma TextThenDelimiter(text: bytes, rest: seq<Token>)
    requires rest != [] && rest[0].kind != Text && rest[0].raw == Literal(rest[0].kind)
    ensures Valid(text + Flatten(rest)) <==> Valid(text) && Valid(Flatten(rest))
  {
    LiteralValid(rest[0].kind);
    TextThenAscii(text, rest[0].raw, Flatten(rest[1..]));
  }

  lemma TextThenAscii(text: bytes, d: bytes, tail: bytes)
    requires d != [] && IsAscii(d)
    ensures Valid(text + (d + tail)) <==> Valid(text) && Valid(d + tail)
  {
    hide Valid;
    var x, more := d[0], d[1..] + tail;
    assert d + tail == [] + [x] + more;
    AsciiSplits([], x, more);
    assert text + (d + tail) == text + [x] + more;
    AsciiSplits(text, x, more);
    AsciiValid([]);
  }

  lemma LiteralValid(kind: Kind)
    requires kind != Text
    ensures Literal(kind) != [] && Valid(Literal(kind)) && IsAscii(Literal(kind))
  {
    AsciiValid(Literal(kind));
  }
}
