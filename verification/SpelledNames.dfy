/** The names that a run of tokens derives, told from the text of the run. */
module SpelledNames {
  import opened Wrappers
  import opened Bytes
  import opened Utf8
  import opened Percent
  import opened Lexer
  import opened Names
  import opened Grammar
  import opened Parts
  import opened Urls
  import opened RefShapes
  import opened Spellings
  import opened TextTokens
  import opened TextDelimiters

  /* Components of tokens and of text. */

  lemma {:induction false} FlattenAppend(a: seq<Token>, b: seq<Token>)
    ensures Flatten(a + b) == Flatten(a) + Flatten(b)
  {
    if a == [] {
      assert a + b == b;
    } else {
      assert (a + b)[1..] == a[1..] + b;
      FlattenAppend(a[1..], b);
    }
  }

  ghost predicate Spelt(cs: seq<seq<Token>>, parts: seq<string>) {
    |cs| == |parts| && forall i | 0 <= i < |cs| :: Flatten(cs[i]) == parts[i]
  }

  lemma ComponentsCons(t: Token, ts: seq<Token>)
    ensures var cs := Components(ts);
      Components([t] + ts) == if t.kind == Slash then [[]] + cs else [[t] + cs[0]] + cs[1..]
  {
    assert ([t] + ts)[1..] == ts;
  }

  lemma FlattenCons(t: Token, ts: seq<Token>)
    ensures Flatten([t] + ts) == t.raw + Flatten(ts)
    ensures Flatten([]) == []
  {
    assert ([t] + ts)[1..] == ts;
  }

  lemma SpeltCons(c: seq<Token>, cs: seq<seq<Token>>, part: string, parts: seq<string>)
    requires Spelt(cs, parts) && cs != []
    ensures Flatten(c) == part ==> Spelt([c] + cs, [part] + parts)
    ensures Flatten(c) == part ==> Spelt([c] + cs[1..], [part] + parts[1..])
    ensures Flatten(cs[0]) == parts[0]
  {
    hide Flatten;
  }

  /** The components of the tokens spell the components of the text. */
  lemma {:induction false} ComponentsSpell(ts: seq<Token>)
    requires Lexed(ts) && SlashFree(ts) && Free(ts, {Boundary})
    ensures Spelt(Components(ts), Split(Flatten(ts), '/'))
  {
    if ts == [] {
    } else {
      var t, rest := ts[0], ts[1..];
      assert ts == [t] + rest;
      LexedRest(ts);
      ComponentsCons(t, rest);
      FlattenCons(t, rest);
      hide Lexed, SlashFree, Free, Components, Flatten, Split;
      ComponentsSpell(rest);
      SpellFirst(t, Components(rest), Flatten(rest));
    }
  }

  lemma LexedRest(ts: seq<Token>)
    requires Lexed(ts) && SlashFree(ts) && Free(ts, {Boundary}) && ts != []
    ensures Lexed(ts[1..]) && SlashFree(ts[1..]) && Free(ts[1..], {Boundary})
    ensures if ts[0].kind == Slash then ts[0].raw == "/" else '/' !in ts[0].raw
  {
    var rest := ts[1..];
    assert forall i | 0 <= i < |rest| :: rest[i] == ts[i + 1];
    assert TokenShape(ts[0]);
    hide Whole;
  }

  lemma SpellFirst(t: Token, cs: seq<seq<Token>>, x: bytes)
    requires cs != [] && Spelt(cs, Split(x, '/'))
    requires if t.kind == Slash then t.raw == "/" else '/' !in t.raw
    ensures Spelt(if t.kind == Slash then [[]] + cs else [[t] + cs[0]] + cs[1..], Split(t.raw + x, '/'))
  {
    var parts := Split(x, '/');
    if t.kind == Slash {
      var s := t.raw + x;
      assert s[0] == '/' && s[1..] == x;
      assert Split(s, '/') == [""] + parts;
      hide Spelt, Split;
      FlattenCons(t, []);
      SpeltCons([], cs, "", parts);
    } else {
      SplitBehind(t.raw, x);
      hide Spelt, Split;
      FlattenCons(t, cs[0]);
      SpeltCons([], cs, "", parts);
      SpeltCons([t] + cs[0], cs, t.raw + parts[0], parts);
    }
  }

  /* One component. */

  predicate Dense(c: seq<Token>) {
    && (forall i | 0 <= i < |c| :: c[i].raw != [] && (c[i].kind != Text ==> c[i].raw == Literal(c[i].kind)))
    && (forall i | 0 < i < |c| :: c[i].kind != Text || c[i - 1].kind != Text)
  }

  lemma DenseCons(t: Token, c: seq<Token>)
    requires Dense(c) && t.raw != [] && (t.kind != Text ==> t.raw == Literal(t.kind))
    requires c != [] && t.kind == Text ==> c[0].kind != Text
    ensures Dense([t] + c)
  {
    var a := [t] + c;
    assert forall i | 0 < i < |a| :: a[i] == c[i - 1];
    hide Literal;
  }

  predicate AllDense(cs: seq<seq<Token>>) {
    forall i | 0 <= i < |cs| :: Dense(cs[i])
  }

  /** A component opens with the token that opens the run. */
  lemma {:induction false} ComponentsDense(ts: seq<Token>)
    requires Dense(ts)
    ensures AllDense(Components(ts))
    ensures Components(ts)[0] != [] ==> ts != [] && Components(ts)[0][0] == ts[0]
  {
    if ts == [] {
      assert Dense([]);
    } else {
      var t, rest := ts[0], ts[1..];
      assert ts == [t] + rest;
      assert forall i | 0 <= i < |rest| :: rest[i] == ts[i + 1];
      assert Dense(rest);
      assert rest != [] && t.kind == Text ==> rest[0].kind != Text;
      assert t.raw != [] && (t.kind != Text ==> t.raw == Literal(t.kind));
      ComponentsCons(t, rest);
      hide Dense, Literal, Components;
      ComponentsDense(rest);
      NothingDense();
      if t.kind != Slash {
        DenseCons(t, Components(rest)[0]);
      }
    }
  }

  lemma NothingDense()
    ensures Dense([])
  {
  }

  lemma LexedDense(ts: seq<Token>)
    requires Lexed(ts)
    ensures Dense(ts)
  {
    forall i | 0 <= i < |ts|
      ensures ts[i].raw != [] && (ts[i].kind != Text ==> ts[i].raw == Literal(ts[i].kind))
    {
      assert TokenShape(ts[i]);
    }
    hide TokenShape;
  }

  lemma {:induction false} DenseLength(c: seq<Token>)
    requires Dense(c)
    ensures |Flatten(c)| >= |c|
  {
    if c == [] {
    } else {
      assert forall i | 0 <= i < |c[1..]| :: c[1..][i] == c[i + 1];
      DenseLength(c[1..]);
      hide Literal;
    }
  }

  /** A component is one of the short words exactly when its text is. */
  lemma LiteralText(c: seq<Token>, w: bytes)
    requires Dense(c) && (|w| == 1 || w == "..")
    ensures IsLiteral(c, w) <==> Flatten(c) == w
    ensures c == [] <==> Flatten(c) == []
  {
    DenseLength(c);
    if |c| == 1 {
      OneFlat(c[0]);
      assert c == [c[0]];
    } else if |c| == 2 {
      OneFlat(c[0]);
      OneFlat(c[1]);
      assert c == [c[0]] + [c[1]];
      FlattenAppend([c[0]], [c[1]]);
      if Flatten(c) == ".." {
        TwoDots(c[0], c[1]);
      }
    }
    hide Literal;
  }

  lemma OneFlat(t: Token)
    ensures Flatten([t]) == t.raw
  {
    assert [t][1..] == [];
    assert t.raw + [] == t.raw;
  }

  lemma TwoDots(t: Token, t': Token)
    requires t.raw != [] && t'.raw != [] && t.raw + t'.raw == ".."
    requires t.kind != Text ==> t.raw == Literal(t.kind)
    requires t'.kind != Text ==> t'.raw == Literal(t'.kind)
    ensures t.kind == Text && t'.kind == Text
  {
    var s := t.raw + t'.raw;
    assert |s| == 2 && s[0] == t.raw[0] && s[1] == t'.raw[0];
  }

  /* Names. */

  lemma {:induction false} ComponentsFree(ts: seq<Token>, stops: set<Kind>)
    requires Free(ts, stops)
    ensures forall i | 0 <= i < |Components(ts)| :: Free(Components(ts)[i], stops + {Slash})
  {
    if ts == [] {
    } else {
      var t, rest := ts[0], ts[1..];
      assert ts == [t] + rest;
      FreeCons(t, rest, stops);
      ComponentsCons(t, rest);
      hide Components, Free;
      ComponentsFree(rest, stops);
      FreeNothing(stops + {Slash});
      FreeCons(t, Components(rest)[0], stops + {Slash});
    }
  }

  lemma FreeNothing(stops: set<Kind>)
    ensures Free([], stops)
  {
  }

  /** What is wrong with a component is told by its text. */
  lemma BadText(c: seq<Token>, index: nat, repo: bool)
    requires Dense(c) && Free(c, {Boundary, Slash}) && (repo ==> Free(c, {GitSuffix}))
    ensures var part := Flatten(c);
      BadComponent(c, index, repo) <==> !PlainPart(part) || (repo && index == 0 && part == "-")
  {
    LiteralText(c, ".");
    LiteralText(c, "..");
    LiteralText(c, "+");
    LiteralText(c, "-");
    assert forall t | t in c :: exists i | 0 <= i < |c| :: c[i] == t;
    hide Dense, Flatten, IsLiteral;
  }

  lemma {:induction false} BoundaryBad(ts: seq<Token>)
    requires !Free(ts, {Boundary})
    ensures exists i | 0 <= i < |Components(ts)| :: !Free(Components(ts)[i], {Boundary})
  {
    var t, rest := ts[0], ts[1..];
    assert ts == [t] + rest;
    FreeCons(t, rest, {Boundary});
    ComponentsCons(t, rest);
    hide Components, Free;
    var cs := Components(rest);
    FreeCons(t, cs[0], {Boundary});
    if t.kind == Boundary {
      assert !Free(([[t] + cs[0]] + cs[1..])[0], {Boundary});
    } else {
      BoundaryBad(rest);
      var i :| 0 <= i < |cs| && !Free(cs[i], {Boundary});
      if t.kind == Slash {
        assert ([[]] + cs)[i + 1] == cs[i];
      } else {
        assert i > 0 ==> ([[t] + cs[0]] + cs[1..])[i] == cs[i];
        assert ([[t] + cs[0]] + cs[1..])[0] == [t] + cs[0];
      }
    }
  }

  lemma BoundaryNotStructural(ts: seq<Token>, repo: bool)
    requires !Free(ts, {Boundary})
    ensures !Structural(ts, repo)
  {
    BoundaryBad(ts);
    var i :| 0 <= i < |Components(ts)| && !Free(Components(ts)[i], {Boundary});
    hide Components;
    var c := Components(ts)[i];
    var j :| 0 <= j < |c| && c[j].kind == Boundary;
    assert c[j] in c;
    assert BadComponent(c, i, repo);
    hide BadComponent;
  }

  /** A token and what its text has on either side. */
  lemma TokenPlace(ts: seq<Token>, j: nat)
    requires j < |ts|
    ensures Flatten(ts) == Flatten(ts[..j]) + ts[j].raw + Flatten(ts[j + 1..])
  {
    hide Flatten;
    var a, t, b := ts[..j], ts[j], ts[j + 1..];
    assert ts == a + ([t] + b);
    Pieced(a, t, b);
  }

  lemma Pieced(a: seq<Token>, t: Token, b: seq<Token>)
    ensures Flatten(a + ([t] + b)) == Flatten(a) + t.raw + Flatten(b)
  {
    FlattenAppend(a, [t] + b);
    FlattenCons(t, b);
    hide Flatten;
    Regrouped(Flatten(a), t.raw, Flatten(b));
  }

  lemma BoundaryPlus(ts: seq<Token>)
    requires Dense(ts) && !Free(ts, {Boundary})
    ensures "+" in Split(Flatten(ts), '/')
  {
    var j :| 0 <= j < |ts| && ts[j].kind == Boundary;
    TokenPlace(ts, j);
    assert ts[j].raw == "/+/";
    var front, back := Flatten(ts[..j]), Flatten(ts[j + 1..]);
    hide Flatten, Split;
    var x := front + "/+/" + back;
    assert (x + [])[|front|..] == "/+/" + back;
    assert StartsWith("/+/" + back, "/+/");
    PlusPart(x, [], |front|);
  }

  /** What a run of lexed tokens names, by its text alone. */
  lemma NameFlat(ts: seq<Token>, repo: bool)
    requires Lexed(ts) && SlashFree(ts) && Legible(Flatten(ts)) && (repo ==> Free(ts, {GitSuffix}))
    ensures var x := Flatten(ts);
      NameOf(ts, repo) == if PathText(x) && (repo ==> Split(x, '/')[0] != "-") then Some(Decoded(x)) else None
  {
    LexedDense(ts);
    if Free(ts, {Boundary}) {
      StructuralText(ts, repo);
    } else {
      BoundaryNotStructural(ts, repo);
      BoundaryPlus(ts);
    }
    hide Structural, Lexed, Dense, Free, Flatten, Split, Legible;
  }

  lemma StructuralText(ts: seq<Token>, repo: bool)
    requires Lexed(ts) && SlashFree(ts) && Dense(ts) && Free(ts, {Boundary}) && (repo ==> Free(ts, {GitSuffix}))
    ensures var parts := Split(Flatten(ts), '/');
      Structural(ts, repo) <==> (forall part | part in parts :: PlainPart(part)) && (repo ==> parts[0] != "-")
  {
    var cs, parts := Components(ts), Split(Flatten(ts), '/');
    ComponentsSpell(ts);
    ComponentsDense(ts);
    ComponentsFree(ts, {Boundary});
    if repo {
      ComponentsFree(ts, {GitSuffix});
    }
    NothingNamed(ts);
    hide Lexed, SlashFree, Components, Flatten, Split, BadComponent, PlainPart, Dense, Free;
    forall i | 0 <= i < |cs|
      ensures BadComponent(cs[i], i, repo) <==> !PlainPart(parts[i]) || (repo && i == 0 && parts[i] == "-")
    {
      FreeFewer(cs[i], {Boundary});
      if repo {
        FreeLess(cs[i]);
      }
      BadText(cs[i], i, repo);
    }
    assert forall i | 0 <= i < |parts| :: parts[i] in parts;
    assert forall part | part in parts :: exists i | 0 <= i < |parts| :: parts[i] == part;
  }

  lemma FreeFewer(c: seq<Token>, stops: set<Kind>)
    requires Free(c, stops + {Slash})
    ensures stops == {Boundary} ==> Free(c, {Boundary, Slash})
  {
  }

  lemma FreeLess(c: seq<Token>)
    requires Free(c, {GitSuffix} + {Slash})
    ensures Free(c, {GitSuffix})
  {
  }

  lemma NothingNamed(ts: seq<Token>)
    requires Dense(ts)
    ensures ts == [] ==> !PlainPart(Split(Flatten(ts), '/')[0])
  {
  }
}
