/** How the text of a name is lexed in front of what follows it. */
module TextTokens {
  import opened Wrappers
  import opened Bytes
  import opened Percent
  import opened Lexer
  import opened Names
  import opened Grammar
  import opened Parts
  import opened Spellings

  /* Units and words in front of what is lexed. */

  /** Whether the tokens of what follows can merge into preceding text. */
  predicate Separate(ts: seq<Token>) {
    ts == [] || ts[0].kind != Text
  }

  /** One unit in front of a lexed rest. */
  lemma LexUnit(e: bytes, tail: bytes, ts: seq<Token>)
    requires e != [] && Tokens(tail) == Some(ts)
    requires UnitAt(e + tail).Delimiter? || UnitAt(e + tail).Plain?
    requires UnitAt(e + tail).width == |e|
    ensures UnitAt(e + tail).Plain? ==> Tokens(e + tail) == Some(PrependText(e, ts))
    ensures UnitAt(e + tail).Delimiter? ==> Tokens(e + tail) == Some([Token(UnitAt(e + tail).kind, e)] + ts)
  {
    var s := e + tail;
    assert s[..|e|] == e && s[|e|..] == tail;
    hide UnitAt, PrependText;
  }

  lemma PrependBefore(e: bytes, front: seq<Token>, ts: seq<Token>)
    requires Separate(ts)
    ensures PrependText(e, front + ts) == PrependText(e, front) + ts
  {
    if front == [] {
      assert front + ts == ts;
      PrependSeparate(e, ts);
    } else {
      assert (front + ts)[1..] == front[1..] + ts;
      assert (front + ts)[0] == front[0];
      if front[0].kind == Text {
        var t := [Token(Text, e + front[0].raw)];
        assert t + (front[1..] + ts) == t + front[1..] + ts;
      } else {
        assert [Token(Text, e)] + (front + ts) == [Token(Text, e)] + front + ts;
      }
    }
  }

  lemma PrependSeparate(e: bytes, ts: seq<Token>)
    requires Separate(ts)
    ensures PrependText(e, ts) == PrependText(e, []) + ts
  {
  }

  predicate WordChar(c: byte) {
    IsAlphanumeric(c) || c == '-'
  }

  predicate PlainWord(w: bytes) {
    w != [] && forall i | 0 <= i < |w| :: WordChar(w[i])
  }

  lemma {:induction false} LexWord(w: bytes, rest: bytes, ts: seq<Token>)
    requires PlainWord(w) && Tokens(rest) == Some(ts) && Separate(ts)
    ensures Tokens(w + rest) == Some([T(w)] + ts)
    decreases |w|
  {
    hide Tokens, UnitAt, WordChar;
    var c, tail := [w[0]], w[1..] + rest;
    assert w + rest == c + tail && c + w[1..] == w;
    WordUnit(w[0], tail);
    if |w| == 1 {
      assert tail == rest && w == c;
      LexUnit(c, tail, ts);
      PrependSeparate(c, ts);
    } else {
      LexWord(w[1..], rest, ts);
      LexUnit(c, tail, [T(w[1..])] + ts);
      assert ([T(w[1..])] + ts)[1..] == ts;
    }
  }

  lemma WordUnit(c: byte, tail: bytes)
    requires WordChar(c)
    ensures UnitAt([c] + tail) == Plain(1)
  {
    assert ([c] + tail)[0] == c;
  }

  lemma PlainWords()
    ensures PlainWord("about") && PlainWord("stats") && PlainWord("summary") && PlainWord("object") && PlainWord("refs")
    ensures PlainWord("log") && PlainWord("tree") && PlainWord("blame") && PlainWord("archive")
    ensures PlainWord("feed") && PlainWord("atom") && PlainWord("diff") && PlainWord("patch")
    ensures PlainWord("info") && PlainWord("HEAD") && PlainWord("objects") && PlainWord("lfs")
  {
  }

  lemma HyphenatedWords()
    ensures PlainWord("archive-signature") && PlainWord("git-upload-pack") && PlainWord("git-receive-pack")
  {
  }

  /* Texts in front of others. */

  function Prepended(text: bytes, ts: Option<seq<Token>>): Option<seq<Token>> {
    if ts == None then None else Some(PrependText(text, ts.value))
  }

  function Following(t: Token, ts: Option<seq<Token>>): Option<seq<Token>> {
    if ts == None then None else Some([t] + ts.value)
  }

  /** The tokens of `x` in front of `y`, unless a unit reaches from one into the other. */
  function InFront(x: bytes, y: bytes): Option<seq<Token>>
    decreases |x|
  {
    if x == [] then Some([])
    else
      match UnitAt(x + y)
      case Bad => None
      case Plain(w) => if w > |x| then None else Prepended(x[..w], InFront(x[w..], y))
      case Delimiter(kind, w) => if w > |x| || w == 0 then None else Following(Token(kind, x[..w]), InFront(x[w..], y))
  }

  /** What one unit in front makes of the tokens behind it. */
  function Behind(u: Unit, e: bytes, ts: seq<Token>): seq<Token> {
    if u.Plain? then PrependText(e, ts) else if u.Delimiter? then [Token(u.kind, e)] + ts else ts
  }

  lemma InFrontUnit(x: bytes, y: bytes)
    requires x != []
    ensures var u := UnitAt(x + y);
      && (!u.Bad? ==> u.width > 0)
      && (InFront(x, y).Some? <==> !u.Bad? && u.width <= |x| && InFront(x[u.width..], y).Some?)
      && (InFront(x, y).Some? ==> InFront(x, y).value == Behind(u, x[..u.width], InFront(x[u.width..], y).value))
  {
    hide PrependText;
  }

  lemma InFrontNothing(y: bytes)
    ensures InFront([], y) == Some([])
  {
  }

  lemma BehindBefore(u: Unit, e: bytes, front: seq<Token>, ts: seq<Token>)
    requires Separate(ts)
    ensures Behind(u, e, front + ts) == Behind(u, e, front) + ts
  {
    PrependBefore(e, front, ts);
    assert u.Delimiter? ==> [Token(u.kind, e)] + (front + ts) == [Token(u.kind, e)] + front + ts;
    hide PrependText;
  }

  lemma TokensBehind(e: bytes, s: bytes)
    requires e != [] && !UnitAt(e + s).Bad? && UnitAt(e + s).width == |e| && Tokens(s).Some?
    ensures Tokens(e + s) == Some(Behind(UnitAt(e + s), e, Tokens(s).value))
  {
    hide Tokens, UnitAt, PrependText;
    LexUnit(e, s, Tokens(s).value);
  }

  /** Text and what follows it are lexed one after the other. */
  lemma {:induction false} InFrontLexes(x: bytes, y: bytes, ts: seq<Token>)
    requires InFront(x, y).Some? && Tokens(y) == Some(ts) && Separate(ts)
    ensures Tokens(x + y) == Some(InFront(x, y).value + ts)
    decreases |x|
  {
    hide *;
    if x == [] {
      assert x + y == y;
      InFrontNothing(y);
      assert [] + ts == ts;
    } else {
      InFrontUnit(x, y);
      var u := UnitAt(x + y);
      var e, x' := x[..u.width], x[u.width..];
      assert x + y == e + (x' + y);
      InFrontLexes(x', y, ts);
      TokensBehind(e, x' + y);
      BehindBefore(u, e, InFront(x', y).value, ts);
    }
  }

  /* Shape. */

  /** No slash hides in a text token. */
  predicate SlashFree(ts: seq<Token>) {
    forall i | 0 <= i < |ts| :: ts[i].kind == Text ==> '/' !in ts[i].raw
  }

  lemma UnitShape(s: bytes)
    requires s != [] && !UnitAt(s).Bad?
    ensures var u := UnitAt(s); var e := s[..u.width];
      && 0 < u.width <= |s|
      && (u.Plain? ==> Whole(e) && e != [] && '/' !in e && '?' !in e && '#' !in e)
      && (u.Delimiter? ==> u.kind != Text && e == Literal(u.kind))
  {
    var u := UnitAt(s);
    if u.Plain? {
      PlainWhole(s);
      if s[0] == '%' {
        assert s[..u.width] == [s[0], s[1], s[2]];
      } else {
        assert s[..u.width] == [s[0]];
      }
    }
  }

  ghost predicate Shaped(ts: seq<Token>, x: bytes) {
    Lexed(ts) && Flatten(ts) == x && SlashFree(ts)
  }

  lemma BehindShaped(u: Unit, e: bytes, ts: seq<Token>, x: bytes)
    requires !u.Bad? && Shaped(ts, x)
    requires u.Plain? ==> Whole(e) && e != [] && '/' !in e
    requires u.Delimiter? ==> u.kind != Text && e == Literal(u.kind)
    ensures Shaped(Behind(u, e, ts), e + x)
  {
    if u.Plain? {
      PrependLexed(e, ts);
      PrependSlashFree(e, ts);
    } else {
      DelimiterLexed(Token(u.kind, e), ts);
    }
    hide Lexed, Flatten, PrependText, Whole;
  }

  lemma PrependSlashFree(e: bytes, ts: seq<Token>)
    requires '/' !in e && SlashFree(ts)
    ensures SlashFree(PrependText(e, ts))
  {
  }

  lemma NothingShaped()
    ensures Shaped([], [])
  {
  }

  lemma {:induction false} InFrontShape(x: bytes, y: bytes)
    requires InFront(x, y).Some?
    ensures Shaped(InFront(x, y).value, x)
    decreases |x|
  {
    hide *;
    if x == [] {
      InFrontNothing(y);
      NothingShaped();
    } else {
      InFrontUnit(x, y);
      var u := UnitAt(x + y);
      UnitShape(x + y);
      var e, x' := x[..u.width], x[u.width..];
      assert e == (x + y)[..u.width] && e + x' == x;
      InFrontShape(x', y);
      BehindShaped(u, e, InFront(x', y).value, x');
    }
  }

  lemma UnitLegible(s: bytes)
    requires s != [] && !UnitAt(s).Bad?
    ensures UnitAt(s).width <= |s| && Legible(s[..UnitAt(s).width])
  {
    UnitShape(s);
    if UnitAt(s).Delimiter? {
      LiteralLegible(UnitAt(s).kind);
    }
    hide UnitAt;
  }

  lemma LiteralLegible(kind: Kind)
    requires kind != Text
    ensures Legible(Literal(kind))
  {
    PlainDecodes(Literal(kind));
    hide Whole;
  }

  lemma LegibleAppend(a: bytes, b: bytes)
    requires Legible(a)
    ensures Legible(a + b) <==> Legible(b)
  {
    DecodedAppend(a, b);
    hide Whole;
  }

  lemma NothingLegible()
    ensures Legible([])
  {
  }

  /** What is lexed is legible. */
  lemma {:induction false} InFrontLegible(x: bytes, y: bytes)
    requires InFront(x, y).Some?
    ensures Legible(x)
    decreases |x|
  {
    hide *;
    if x == [] {
      NothingLegible();
    } else {
      InFrontUnit(x, y);
      var u := UnitAt(x + y);
      UnitLegible(x + y);
      var e, x' := x[..u.width], x[u.width..];
      assert e == (x + y)[..u.width] && e + x' == x;
      InFrontLegible(x', y);
      LegibleAppend(e, x');
    }
  }

  /* A token border in a lexed text. */

  /** Cutting lexed tokens in front of a delimiter cuts the text into two that are lexed apart. */
  lemma {:induction false} LexedInFront(s: bytes, a: seq<Token>, b: seq<Token>)
    requires Tokens(s) == Some(a + b) && Separate(b)
    ensures s == Flatten(a) + Flatten(b) && Tokens(Flatten(b)) == Some(b)
    ensures InFront(Flatten(a), Flatten(b)) == Some(a)
    decreases |s|
  {
    hide *;
    if a == [] {
      TokensLexed(s);
      assert a + b == b;
      NothingFlat();
      InFrontNothing(s);
    } else {
      NotEmpty(s);
      TokensUnit(s);
      var u := UnitAt(s);
      var e, s', ts := s[..u.width], s[u.width..], Tokens(s[u.width..]).value;
      BehindIs(u, e, ts);
      var a' := Shortened(u, e, a, b, ts);
      LexedInFront(s', a', b);
      Rejoin(u, e, a, a');
      var x, y := Flatten(a), Flatten(b);
      assert x[..u.width] == e && x[u.width..] == Flatten(a');
      assert s == x + y;
      InFrontUnit(x, y);
    }
  }

  lemma NothingFlat()
    ensures Flatten([]) == []
  {
  }

  lemma NotEmpty(s: bytes)
    requires Tokens(s).Some? && Tokens(s).value != []
    ensures s != []
  {
  }

  lemma BehindIs(u: Unit, e: bytes, ts: seq<Token>)
    requires !u.Bad?
    ensures Behind(u, e, ts) == if u.Plain? then PrependText(e, ts) else [Token(u.kind, e)] + ts
  {
    hide PrependText;
  }

  /** The tokens left of `a` when the unit at the front has been taken away. */
  lemma Shortened(u: Unit, e: bytes, a: seq<Token>, b: seq<Token>, ts: seq<Token>) returns (a': seq<Token>)
    requires !u.Bad? && e != [] && a != [] && Separate(b)
    requires a + b == Behind(u, e, ts)
    ensures ts == a' + b && a == Behind(u, e, a')
  {
    var all := a + b;
    assert a[0] == all[0] && all[1..] == a[1..] + b;
    if u.Plain? && ts != [] && ts[0].kind == Text {
      a' := [ts[0]] + a[1..];
      assert ts == [ts[0]] + ts[1..] && all[1..] == ts[1..];
      assert a'[1..] == a[1..];
    } else {
      a' := a[1..];
      assert all[1..] == ts;
      assert a' != [] ==> a'[0] == ts[0];
    }
    assert a == [a[0]] + a[1..];
  }

  lemma Rejoin(u: Unit, e: bytes, a: seq<Token>, a': seq<Token>)
    requires !u.Bad? && e != [] && a == Behind(u, e, a')
    ensures Flatten(a) == e + Flatten(a')
  {
    if u.Plain? && a' != [] && a'[0].kind == Text {
      assert a[1..] == a'[1..];
      assert e + (a'[0].raw + Flatten(a'[1..])) == e + a'[0].raw + Flatten(a'[1..]);
    } else {
      assert a[1..] == a';
    }
  }
}
