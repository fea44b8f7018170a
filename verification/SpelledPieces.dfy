/** The tokens that fit a piece of a template are those of the texts of that piece. */
module SpelledPieces {
  import opened Wrappers
  import opened Bytes
  import opened Utf8
  import opened Percent
  import opened Lexer
  import opened Names
  import opened Grammar
  import opened Parts
  import opened Urls
  import opened RefShapes
  import opened Spellings
  import opened TextTokens
  import opened TextDelimiters
  import opened SpelledNames

  ghost predicate Fits(ts: seq<Token>, piece: Piece) {
    match piece
    case Mark(kind) => kind != Text && ts == [D(kind)]
    case Word(word) => ts == [T(word)]
    case RepoName(name) => RepoOf(ts, name)
    case PathName(name) => PathOf(ts, name)
    case RevName(rev) => SelectorOf(ts, rev)
    case OidName(oid) => ts == [T(oid)] && Grammar.ValidOid(oid)
  }

  /** The tokens of a text in front of another, and what is known of them. */
  lemma LexedText(x: bytes, y: bytes)
    requires InFront(x, y).Some?
    ensures var ts := InFront(x, y).value;
      Lexed(ts) && SlashFree(ts) && Dense(ts) && Flatten(ts) == x && Legible(x)
  {
    InFrontShape(x, y);
    InFrontLegible(x, y);
    LexedDense(InFront(x, y).value);
    hide InFront, Lexed, SlashFree, Dense, Flatten, Legible;
  }

  /* Repositories and paths. */

  lemma PathFits(x: bytes, name: bytes)
    requires InFront(x, []).Some?
    ensures PathOf(InFront(x, []).value, name) <==> PathText(x) && Decoded(x) == name
  {
    LexedText(x, []);
    hide InFront, Lexed, SlashFree, Dense, Flatten, Legible, NameOf, PathText;
    NameFlat(InFront(x, []).value, false);
  }

  lemma PathLexes(x: bytes, y: bytes)
    requires PathText(x) && Border(y) && (DotFollows(y) ==> !OddDots(x))
    ensures InFront(x, y).Some? && Free(InFront(x, y).value, {Boundary})
  {
    assert !PlainPart("+");
    hide InFront, Split, OddDots, PlainPart, NoBoundary, Free, Legible;
    NoPlusNoBoundary(x, y);
    LegibleLexes(x, y);
  }

  lemma RepoFits(x: bytes, y: bytes, name: bytes)
    requires InFront(x, y).Some? && Border(y)
    ensures RepoOf(InFront(x, y).value, name) <==> RepoText(x, DotFollows(y)) && Decoded(x) == name
  {
    var ts := InFront(x, y).value;
    LexedText(x, y);
    if DotFollows(y) {
      LexedNotOdd(x, y);
    }
    FreeBoth(ts);
    if Free(ts, {Boundary}) {
      SuffixTokens(x, y);
    }
    if RepoText(x, DotFollows(y)) {
      PathLexes(x, y);
    }
    hide InFront, Lexed, SlashFree, Dense, Flatten, Legible, NameOf, PathText, Free, NoneSuffixed, OddDots, Split;
    if Free(ts, {GitSuffix}) {
      NameFlat(ts, true);
    }
  }

  lemma FreeBoth(ts: seq<Token>)
    ensures Free(ts, {Boundary, GitSuffix}) <==> Free(ts, {Boundary}) && Free(ts, {GitSuffix})
    ensures Free(ts, {Boundary, Range}) <==> Free(ts, {Boundary}) && Free(ts, {Range})
  {
  }

  /* Words and object names. */

  /** A text without slashes and dots is one token. */
  lemma OneText(ts: seq<Token>, w: bytes)
    requires Dense(ts) && Flatten(ts) == w && w != [] && '/' !in w && '.' !in w
    ensures ts == [T(w)]
  {
    NothingFlat();
    TokenIsText(ts, 0);
    if |ts| > 1 {
      TokenIsText(ts, 1);
    }
    OneFlat(ts[0]);
    assert |ts| == 1 ==> ts == [ts[0]];
    hide Flatten;
  }

  lemma TokenIsText(ts: seq<Token>, j: nat)
    requires Dense(ts) && '/' !in Flatten(ts) && '.' !in Flatten(ts) && j < |ts|
    ensures ts[j].kind == Text
  {
    TokenPlace(ts, j);
    DelimiterHead(ts[j]);
    hide Flatten;
    assert Flatten(ts)[|Flatten(ts[..j])|] == ts[j].raw[0];
  }

  lemma DelimiterHead(t: Token)
    requires t.raw != [] && (t.kind != Text ==> t.raw == Literal(t.kind))
    ensures t.kind != Text ==> t.raw[0] == '/' || t.raw[0] == '.'
  {
  }

  lemma OidIsText(oid: bytes)
    ensures Grammar.ValidOid(oid) <==> OidText(oid)
    ensures OidText(oid) ==> oid != [] && '/' !in oid && '.' !in oid && '%' !in oid && '?' !in oid && '#' !in oid
  {
    assert forall c: char :: IsLowerHex(c) <==> c in "0123456789abcdef";
    hide IsLowerHex;
  }

  lemma OidFits(x: bytes, y: bytes, oid: bytes)
    requires InFront(x, y).Some?
    ensures (InFront(x, y).value == [T(oid)] && Grammar.ValidOid(oid)) <==> (x == oid && OidText(oid))
  {
    var ts := InFront(x, y).value;
    LexedText(x, y);
    OidIsText(oid);
    OneFlat(T(oid));
    hide InFront, Lexed, SlashFree, Dense, Flatten, Legible, OidText, Grammar.ValidOid;
    if x == oid && OidText(oid) {
      OneText(ts, oid);
    }
  }

  /** A text of ordinary characters is lexed apart from what follows. */
  lemma PlainLexes(x: bytes, y: bytes)
    requires '/' !in x && '.' !in x && '%' !in x && '?' !in x && '#' !in x && Border(y)
    ensures InFront(x, y).Some?
  {
    PlainDecodes(x);
    PlainNoBoundary(x, y);
    assert x != [] ==> x[|x| - 1] in x;
    assert !OddDots(x) by {
      FewDots();
    }
    hide InFront, NoBoundary, OddDots;
    LegibleLexes(x, y);
  }

  lemma PlainNoBoundary(x: bytes, y: bytes)
    requires '/' !in x
    ensures NoBoundary(x, y)
  {
    forall i | 0 <= i < |x|
      ensures !StartsWith((x + y)[i..], "/+/")
    {
      assert (x + y)[i..][0] == x[i] && x[i] in x;
    }
  }

  /* Refs. */

  lemma {:induction false} FlattenWhole(ts: seq<Token>)
    requires Lexed(ts)
    ensures Whole(Flatten(ts))
  {
    if ts == [] {
    } else {
      var t, rest := ts[0], ts[1..];
      assert forall i | 0 <= i < |rest| :: rest[i] == ts[i + 1];
      FlattenWhole(rest);
      TokenWhole(t);
      hide Whole, TokenShape;
      DecodedAppend(t.raw, Flatten(rest));
    }
  }

  /** A double dot of the text is one of the name. */
  lemma RangeDecoded(ts: seq<Token>)
    requires Lexed(ts) && !Free(ts, {Range})
    ensures Contains(Decoded(Flatten(ts)), "..")
  {
    var j :| 0 <= j < |ts| && ts[j].kind == Range;
    assert ts[j].raw == ".." by {
      assert TokenShape(ts[j]);
    }
    TokenPlace(ts, j);
    var front := ts[..j];
    assert Lexed(front) by {
      assert forall i | 0 <= i < |front| :: front[i] == ts[i];
      hide TokenShape;
    }
    FlattenWhole(front);
    hide Lexed, Flatten;
    DotsDecoded(Flatten(front), Flatten(ts[j + 1..]));
  }

  lemma DotsDecoded(a: bytes, b: bytes)
    requires Whole(a)
    ensures Contains(Decoded(a + ".." + b), "..")
  {
    PlainDecodes("..");
    assert a + ".." + b == a + (".." + b);
    DecodedAppend(a, ".." + b);
    DecodedAppend("..", b);
    hide Decoded, Whole;
    var d := Decoded(a) + (".." + Decoded(b));
    assert d[|Decoded(a)|..|Decoded(a)| + 2] == "..";
    assert OccursAt(d, "..", |Decoded(a)|);
  }

  /** A dot that ends the text ends the name. */
  lemma {:induction false} DotLast(x: bytes)
    requires Whole(x) && EndsWith(x, ".")
    ensures EndsWith(Decoded(x), ".")
    decreases |x|
  {
    assert x[|x| - 1] == '.';
    var w := if x[0] == '%' then 3 else 1;
    var rest := x[w..];
    if rest == [] {
      assert x == ".";
      PlainDecodes(x);
    } else {
      assert rest[|rest| - 1] == x[|x| - 1];
      assert EndsWith(rest, ".");
      DotLast(rest);
      assert Decoded(x) == [Decoded(x)[0]] + Decoded(rest);
    }
  }

  lemma RefsDecoded(z: bytes)
    ensures Decoded("refs/" + z) == "refs/" + Decoded(z)
    ensures Legible("refs/" + z) <==> Legible(z)
  {
    PlainDecodes("refs/");
    DecodedAppend("refs/", z);
    hide Decoded, Whole;
  }

  lemma RefsSplit(z: bytes)
    ensures Split("refs/" + z, '/') == ["refs"] + Split(z, '/')
  {
    assert "refs/" + z == "refs" + "/" + z;
    SplitFirst("refs", '/', z);
  }

  /** The tokens of a text that opens with `refs/`. */
  lemma RefsHead(ts: seq<Token>, z: bytes)
    requires Dense(ts) && SlashFree(ts) && Free(ts, {Boundary}) && Flatten(ts) == "refs/" + z
    ensures |ts| >= 2 && ts[0] == T("refs") && ts[1] == D(Slash) && Flatten(ts[2..]) == z
  {
    var x := "refs/" + z;
    NothingFlat();
    assert ts == [ts[0]] + ts[1..];
    FlattenCons(ts[0], ts[1..]);
    assert x[0] == 'r' && x[1] == 'e' && x[2] == 'f' && x[3] == 's' && x[4] == '/';
    DelimiterHead(ts[0]);
    assert ts[0].raw[0] == x[0];
    assert ts[0].kind == Text;
    var r := ts[0].raw;
    assert forall i | 0 <= i < |r| :: r[i] == x[i] && r[i] in r;
    RefsSecond(ts, r, x);
    assert r == x[..4] == "refs";
    RefsTail(ts);
    assert x[5..] == z && ("refs/" + Flatten(ts[2..]))[5..] == Flatten(ts[2..]);
    hide Flatten;
  }

  lemma RefsTail(ts: seq<Token>)
    requires |ts| >= 2 && ts[0] == T("refs") && ts[1] == D(Slash)
    ensures Flatten(ts) == "refs/" + Flatten(ts[2..])
  {
    assert ts == [ts[0]] + ts[1..] && ts[1..] == [ts[1]] + ts[2..];
    FlattenCons(ts[0], ts[1..]);
    FlattenCons(ts[1], ts[2..]);
    hide Flatten;
    assert "refs" + ("/" + Flatten(ts[2..])) == "refs/" + Flatten(ts[2..]);
  }

  lemma RefsSecond(ts: seq<Token>, r: bytes, x: bytes)
    requires ts != [] && Dense(ts) && SlashFree(ts) && Free(ts, {Boundary}) && ts[0] == T(r) && 0 < |r| <= 4
    requires |x| >= 5 && x[1] == 'e' && x[2] == 'f' && x[3] == 's' && x[4] == '/' && x == r + Flatten(ts[1..])
    ensures |ts| >= 2 && |r| == 4 && ts[1] == D(Slash)
  {
    NothingFlat();
    assert |ts| >= 2;
    assert ts[1..] == [ts[1]] + ts[2..];
    FlattenCons(ts[1], ts[2..]);
    DelimiterHead(ts[1]);
    assert ts[1].raw[0] == x[|r|];
    assert ts[1].kind != Text;
    hide Flatten;
  }

  lemma LaterLexed(ts: seq<Token>, n: nat)
    requires n <= |ts| && Lexed(ts) && SlashFree(ts)
    ensures Lexed(ts[n..]) && SlashFree(ts[n..])
  {
    var rest := ts[n..];
    assert forall i | 0 <= i < |rest| :: rest[i] == ts[n + i];
    hide TokenShape;
  }

  lemma RefLexes(x: bytes, y: bytes, name: bytes)
    requires RevText(x, Ref(name)) && Border(y)
    ensures InFront(x, y).Some? && Free(InFront(x, y).value, {Boundary})
  {
    var z := x[5..];
    assert x == "refs/" + z;
    NoPlusRef(z);
    RefsDecoded(z);
    RefNotOdd(x, name);
    hide InFront, Split, PlainPart, NoBoundary, Free, Legible, RefShape, Decoded, OddDots;
    NoPlusNoBoundary(x, y);
    LegibleLexes(x, y);
  }

  lemma RefNotOdd(x: bytes, name: bytes)
    requires Legible(x) && Decoded(x) == name && RefShape(name)
    ensures !OddDots(x)
  {
    NotDotted(name);
    hide RefShape, Decoded;
    if OddDots(x) {
      assert EndsWith(x, ".");
      DotLast(x);
    }
  }

  lemma NotDotted(name: bytes)
    ensures RefShape(name) ==> !EndsWith(name, ".") && !Contains(name, "..")
  {
  }

  lemma NoPlusRef(z: bytes)
    requires PathText(z)
    ensures "+" !in Split("refs/" + z, '/') && Legible(z)
  {
    RefsSplit(z);
    assert !PlainPart("+");
    hide Split, Legible, PlainPart;
  }

  lemma RefFits(x: bytes, y: bytes, name: bytes)
    requires InFront(x, y).Some? && Border(y)
    ensures SelectorOf(InFront(x, y).value, Ref(name)) <==> RevText(x, Ref(name))
  {
    var ts := InFront(x, y).value;
    LexedText(x, y);
    FreeBoth(ts);
    if SelectorOf(ts, Ref(name)) {
      RefTokens(ts, x, name);
    }
    if RevText(x, Ref(name)) {
      RefLexes(x, y, name);
      NotDotted(name);
      assert Decoded(Flatten(ts)) == name;
      if !Free(ts, {Range}) {
        RangeDecoded(ts);
      }
      RefText(ts, x, name);
    }
  }

  /** A ref derived by tokens is a ref of the text. */
  lemma RefTokens(ts: seq<Token>, x: bytes, name: bytes)
    requires Lexed(ts) && SlashFree(ts) && Flatten(ts) == x && Legible(x) && RevisionOf(ts, Ref(name))
    ensures RevText(x, Ref(name))
  {
    hide Lexed, SlashFree, Flatten, Legible, NameOf, PathText, RefShape, ValidRef, Decoded;
    var z := Flatten(ts[2..]);
    RefsTail(ts);
    assert x[5..] == z;
    RefsDecoded(z);
    LaterLexed(ts, 2);
    RefsExactly(name);
    NameFlat(ts[2..], false);
  }

  /** A ref of the text is a ref derived by its tokens. */
  lemma RefText(ts: seq<Token>, x: bytes, name: bytes)
    requires Lexed(ts) && SlashFree(ts) && Dense(ts) && Free(ts, {Boundary}) && Flatten(ts) == x
    requires RevText(x, Ref(name))
    ensures RevisionOf(ts, Ref(name))
  {
    var z := x[5..];
    assert x == "refs/" + z;
    RefsHead(ts, z);
    RefsDecoded(z);
    LaterLexed(ts, 2);
    RefsExactly(name);
    PathLegible(z);
    hide Lexed, SlashFree, Flatten, Legible, NameOf, PathText, RefShape, ValidRef, Decoded, Dense, Free;
    NameFlat(ts[2..], false);
  }

  lemma PathLegible(z: bytes)
    requires PathText(z)
    ensures Legible(z)
  {
  }

  /** A revision derived by the tokens of a text is one of the text. */
  lemma RevFits(x: bytes, y: bytes, rev: Revision)
    requires InFront(x, y).Some? && Border(y)
    ensures SelectorOf(InFront(x, y).value, rev) <==> RevText(x, rev)
  {
    var ts := InFront(x, y).value;
    match rev
    case Ref(name) => RefFits(x, y, name);
    case Commit(oid) =>
      OidFits(x, y, oid);
      OneFree(T(oid));
    case Head =>
      LexedText(x, y);
      OneFree(T("HEAD"));
      OneFlat(T("HEAD"));
      hide InFront, Flatten, Dense, Lexed, Free;
      if x == "HEAD" {
        OneText(ts, "HEAD");
      }
  }

  lemma OneFree(t: Token)
    requires t.kind == Text
    ensures Free([t], {Boundary, Range})
  {
  }

  lemma RevLexes(x: bytes, y: bytes, rev: Revision)
    requires RevText(x, rev) && Border(y)
    ensures InFront(x, y).Some?
  {
    match rev
    case Ref(name) => RefLexes(x, y, name);
    case Commit(oid) =>
      OidIsText(oid);
      hide InFront;
      PlainLexes(x, y);
    case Head =>
      hide InFront;
      PlainLexes(x, y);
  }
}
