/** The theorem on bytes: a path denotes a route exactly when it spells the template of that route. */
module SpelledRoutes {
  import opened Wrappers
  import opened Bytes
  import opened Percent
  import opened Lexer
  import opened Names
  import opened Grammar
  import opened Parts
  import opened Urls
  import opened Spellings
  import opened TextTokens
  import opened TextDelimiters
  import opened SpelledNames
  import opened SpelledPieces
  import opened Spelled

  /* What may follow a piece. */

  predicate Follows(p: Piece, next: Option<Piece>) {
    match p
    case Mark(kind) =>
      && kind != Text
      && (next.Some? ==> if kind == GitSuffix then next.value == SLASH else !next.value.Mark?)
      && (kind == Range ==> next.Some? && next.value.RevName?)
    case Word(word) => PlainWord(word) && next in {None, Some(SLASH)}
    case RepoName(_) => next in {None, Some(PLUS), Some(Mark(GitSuffix))}
    case RevName(_) => next in {None, Some(PLUS), Some(Mark(Range))}
    case PathName(_) => next == None
    case OidName(_) => next == None
  }

  function NextPiece(pieces: seq<Piece>, i: nat): Option<Piece> {
    if i + 1 < |pieces| then Some(pieces[i + 1]) else None
  }

  predicate Grammatical(pieces: seq<Piece>) {
    forall i | 0 <= i < |pieces| :: Follows(pieces[i], NextPiece(pieces, i))
  }

  lemma GrammaticalRest(pieces: seq<Piece>)
    requires Grammatical(pieces) && pieces != []
    ensures Grammatical(pieces[1..]) && Follows(pieces[0], NextPiece(pieces, 0))
    ensures NextPiece(pieces, 0) == if pieces[1..] == [] then None else Some(pieces[1..][0])
    ensures SuffixFollows(pieces) <==> NextPiece(pieces, 0) == Some(Mark(GitSuffix))
  {
    hide Follows;
    forall i | 0 <= i < |pieces[1..]|
      ensures Follows(pieces[1..][i], NextPiece(pieces[1..], i))
    {
      assert Follows(pieces[i + 1], NextPiece(pieces, i + 1));
    }
  }

  /* How a text opens. */

  /** What `s` opens with, by the first piece of its template. */
  predicate Opens(s: bytes, next: Option<Piece>) {
    match next
    case None => s == []
    case Some(Mark(kind)) => kind != Text && Literal(kind) <= s
    case Some(_) => !StartsWith(s, "+/")
  }

  lemma OpensBorder(s: bytes, next: Option<Piece>)
    requires Opens(s, next) && next in {None, Some(SLASH), Some(PLUS), Some(Mark(GitSuffix)), Some(Mark(Range))}
    ensures Border(s)
    ensures DotFollows(s) <==> next in {Some(Mark(GitSuffix)), Some(Mark(Range))}
  {
  }

  lemma PathNoPlus(x: bytes, y: bytes)
    requires PathText(x)
    ensures !StartsWith(x + y, "+/") && x != []
  {
    assert x != [] by {
      assert !PlainPart("");
      assert Split([], '/')[0] in Split([], '/');
    }
    if StartsWith(x + y, "+/") {
      PlusOpens(x, y);
    }
  }

  lemma PlusOpens(x: bytes, y: bytes)
    requires x != [] && StartsWith(x + y, "+/")
    ensures !PathText(x)
  {
    var s := x + y;
    assert s[0] == '+' && s[1] == '/';
    assert s[0] == x[0] && (|x| > 1 ==> s[1] == x[1]);
    assert x[0..1] == "+";
    var i := PlacePart(x, 0, 1);
    hide Split;
    assert Split(x, '/')[i] in Split(x, '/');
    assert !PlainPart("+");
  }

  /** A text of a piece opens as it should. */
  lemma PieceOpens(x: bytes, y: bytes, p: Piece, suffix: bool, next: Option<Piece>)
    requires PieceText(x, p, suffix) && Follows(p, next)
    ensures Opens(x + y, Some(p))
  {
    var s := x + y;
    if p.Mark? {
      assert s[..|x|] == x;
    } else if p.Word? {
      assert WordChar(p.word[0]) && s[0] == p.word[0];
    } else if p.RepoName? || p.PathName? {
      PathNoPlus(x, y);
    } else if p.OidName? {
      OidOpens(x);
      assert s[0] == x[0];
    } else {
      RevOpens(x, p.rev);
      assert s[0] == x[0];
    }
  }

  lemma OidOpens(x: bytes)
    requires OidText(x)
    ensures x != [] && x[0] != '+'
  {
    assert x[0] in x;
  }

  lemma RevOpens(x: bytes, rev: Revision)
    requires RevText(x, rev)
    ensures x != [] && x[0] != '+'
  {
    if rev.Commit? {
      OidOpens(x);
    }
  }

  lemma SpellsOpens(s: bytes, pieces: seq<Piece>)
    requires Grammatical(pieces) && Spells(s, pieces)
    ensures Opens(s, if pieces == [] then None else Some(pieces[0]))
  {
    if pieces != [] {
      hide *;
      var x, y := SpellsCut(s, pieces);
      GrammaticalRest(pieces);
      PieceOpens(x, y, pieces[0], SuffixFollows(pieces), NextPiece(pieces, 0));
    }
  }

  /* From texts to tokens. */

  lemma MarkUnits(kind: Kind, y: bytes, next: Option<Piece>)
    requires kind != Text && Follows(Mark(kind), next) && Opens(y, next)
    ensures UnitAt(Literal(kind) + y) == Delimiter(kind, |Literal(kind)|)
  {
    var x := Literal(kind);
    var s := x + y;
    assert s[..|x|] == x && s[|x|..] == y;
    assert s[0] == x[0];
    match kind
    case Slash =>
      assert |y| >= 2 ==> s[..3] == [s[0]] + y[..2];
    case Boundary =>
    case Range =>
      assert s[1] == x[1];
    case GitSuffix =>
      assert s[1] == x[1];
      assert y != [] ==> s[4] == y[0];
  }

  lemma MarkLexes(kind: Kind, y: bytes, next: Option<Piece>, ts: seq<Token>)
    requires kind != Text && Follows(Mark(kind), next) && Opens(y, next) && Tokens(y) == Some(ts)
    ensures Tokens(Literal(kind) + y) == Some([D(kind)] + ts)
  {
    MarkUnits(kind, y, next);
    hide Tokens, UnitAt, Follows, Opens, Literal;
    LexUnit(Literal(kind), y, ts);
  }

  lemma NameLexes(x: bytes, y: bytes, p: Piece, suffix: bool)
    requires p.IsName() && PieceText(x, p, suffix) && Border(y) && (p.PathName? || p.OidName? ==> y == [])
    requires p.RepoName? ==> (suffix <==> DotFollows(y))
    ensures InFront(x, y).Some? && Fits(InFront(x, y).value, p)
  {
    hide InFront, RepoText, PathText, RevText, OidText, RepoOf, PathOf, SelectorOf, OddDots;
    match p
    case RepoName(name) =>
      RepoIsPath(x, suffix);
      PathLexes(x, y);
      RepoFits(x, y, name);
    case PathName(name) =>
      PathLexes(x, y);
      PathFits(x, name);
    case RevName(rev) =>
      RevLexes(x, y, rev);
      RevFits(x, y, rev);
    case OidName(oid) =>
      OidIsText(oid);
      PlainLexes(x, y);
      OidFits(x, y, oid);
  }

  lemma RepoIsPath(x: bytes, suffix: bool)
    requires RepoText(x, suffix)
    ensures PathText(x) && (suffix ==> !OddDots(x))
  {
  }

  /** The tokens that follow a name open with a delimiter. */
  lemma MatchesOpens(ts: seq<Token>, pieces: seq<Piece>)
    requires Matches(ts, pieces) && (pieces == [] || (pieces[0].Mark? && pieces[0].kind != Text))
    ensures Separate(ts)
    ensures if pieces == [] then ts == [] else ts != [] && ts[0] == D(pieces[0].kind)
  {
    if pieces != [] {
      hide Matches;
      assert pieces == [pieces[0]] + pieces[1..];
      MatchToken(ts, pieces[0], pieces[1..]);
    }
  }

  lemma SpellsCut(s: bytes, pieces: seq<Piece>) returns (x: bytes, y: bytes)
    requires Spells(s, pieces) && pieces != []
    ensures s == x + y && PieceText(x, pieces[0], SuffixFollows(pieces)) && Spells(y, pieces[1..])
  {
    hide PieceText;
    var k :| 0 <= k <= |s| && SpellsFrom(s, k, pieces);
    x, y := s[..k], s[k..];
  }

  lemma {:induction false} SpellsMatches(s: bytes, pieces: seq<Piece>)
    requires Grammatical(pieces) && Spells(s, pieces)
    ensures Tokens(s).Some? && Matches(Tokens(s).value, pieces)
    decreases |pieces|
  {
    hide *;
    if pieces == [] {
      NothingMatches(s);
    } else {
      var x, y := SpellsCut(s, pieces);
      var p, rest := pieces[0], pieces[1..];
      GrammaticalRest(pieces);
      SpellsMatches(y, rest);
      SpellsOpens(y, rest);
      assert pieces == [p] + rest;
      FirstMatches(x, y, p, rest, SuffixFollows(pieces), NextPiece(pieces, 0));
    }
  }

  lemma NothingMatches(s: bytes)
    requires Spells(s, [])
    ensures Tokens(s) == Some([]) && Matches([], [])
  {
  }

  lemma FirstMatches(x: bytes, y: bytes, p: Piece, rest: seq<Piece>, suffix: bool, next: Option<Piece>)
    requires PieceText(x, p, suffix) && Follows(p, next) && Opens(y, next)
    requires next == if rest == [] then None else Some(rest[0])
    requires suffix <==> next == Some(Mark(GitSuffix))
    requires Tokens(y).Some? && Matches(Tokens(y).value, rest)
    ensures Tokens(x + y).Some? && Matches(Tokens(x + y).value, [p] + rest)
  {
    var ts := Tokens(y).value;
    hide Tokens, Matches, InFront, Opens, RepoText, PathText, RevText, OidText, Grammar.ValidOid, PlainWord, Separate,
      RepoOf, PathOf, SelectorOf;
    if p.Mark? {
      MarkLexes(p.kind, y, next, ts);
      assert ([D(p.kind)] + ts)[1..] == ts;
      MatchToken([D(p.kind)] + ts, p, rest);
    } else {
      MatchesOpens(ts, rest);
      if p.Word? {
        LexWord(p.word, y, ts);
        assert ([T(p.word)] + ts)[1..] == ts;
        MatchToken([T(p.word)] + ts, p, rest);
      } else {
        OpensBorder(y, next);
        EndIsEmpty(y, next);
        NameLexes(x, y, p, suffix);
        InFrontLexes(x, y, ts);
        MatchJoin(InFront(x, y).value, ts, p, rest);
      }
    }
  }

  lemma EndIsEmpty(y: bytes, next: Option<Piece>)
    requires Opens(y, next)
    ensures next == None ==> y == []
  {
  }

  /* From tokens to texts. */

  lemma DelimiterFirst(s: bytes, ts: seq<Token>)
    requires Tokens(s) == Some(ts) && ts != [] && ts[0].kind != Text
    ensures ts[0].raw <= s && Tokens(s[|ts[0].raw|..]) == Some(ts[1..])
  {
    NotEmpty(s);
    TokensUnit(s);
    var u := UnitAt(s);
    var e, rest := s[..u.width], Tokens(s[u.width..]).value;
    hide Tokens, UnitAt;
    if u.Plain? {
      TextFirst(e, rest);
    }
    assert ([Token(u.kind, e)] + rest)[1..] == rest;
  }

  lemma TextFirst(e: bytes, ts: seq<Token>)
    requires e != []
    ensures PrependText(e, ts)[0].kind == Text
  {
  }

  lemma NameSpells(x: bytes, y: bytes, p: Piece, suffix: bool)
    requires InFront(x, y).Some? && Fits(InFront(x, y).value, p) && Border(y) && !p.Mark?
    requires p.PathName? || p.OidName? ==> y == []
    requires p.RepoName? ==> (suffix <==> DotFollows(y))
    ensures PieceText(x, p, suffix)
  {
    LexedText(x, y);
    hide InFront, RepoText, PathText, RevText, OidText, RepoOf, PathOf, SelectorOf, Flatten, Lexed, Dense, SlashFree;
    match p
    case Word(word) => OneFlat(T(word));
    case RepoName(name) => RepoFits(x, y, name);
    case PathName(name) => PathFits(x, name);
    case RevName(rev) => RevFits(x, y, rev);
    case OidName(oid) => OidFits(x, y, oid);
  }

  lemma {:induction false} MatchesSpells(s: bytes, ts: seq<Token>, pieces: seq<Piece>)
    requires Grammatical(pieces) && Tokens(s) == Some(ts) && Matches(ts, pieces)
    ensures Spells(s, pieces)
    decreases |pieces|
  {
    hide *;
    if pieces == [] {
      MatchNothing(ts);
      NothingSpells(s);
    } else {
      var p, rest, next := pieces[0], pieces[1..], NextPiece(pieces, 0);
      assert pieces == [p] + rest;
      GrammaticalRest(pieces);
      var v, q := MatchCut(ts, p, rest);
      if p.Mark? {
        MarkFits(v, p.kind);
        assert ts[1..] == q;
        DelimiterFirst(s, ts);
        var x, y := s[..|Literal(p.kind)|], s[|Literal(p.kind)|..];
        MatchesSpells(y, q, rest);
        MarkSpells(x, y, pieces);
        assert s == x + y;
      } else {
        NameFollows(p, next);
        MatchesOpens(q, rest);
        LexedInFront(s, v, q);
        var x, y := Flatten(v), Flatten(q);
        MatchesSpells(y, q, rest);
        SpellsOpens(y, rest);
        OpensBorder(y, next);
        EndIsEmpty(y, next);
        NameEnds(p, next);
        NameSpells(x, y, p, SuffixFollows(pieces));
        PiecesSpell(x, y, pieces);
      }
    }
  }

  lemma NothingSpells(s: bytes)
    requires Tokens(s) == Some([])
    ensures Spells(s, [])
  {
    TokensLexed(s);
  }

  lemma MarkFits(v: seq<Token>, kind: Kind)
    requires Fits(v, Mark(kind))
    ensures kind != Text && v == [D(kind)]
    ensures D(kind).kind == kind && D(kind).raw == Literal(kind)
  {
  }

  lemma MarkSpells(x: bytes, y: bytes, pieces: seq<Piece>)
    requires pieces != [] && pieces[0].Mark? && pieces[0].kind != Text && x == Literal(pieces[0].kind)
    requires Spells(y, pieces[1..])
    ensures Spells(x + y, pieces)
  {
    hide Spells;
    PiecesSpell(x, y, pieces);
  }

  lemma PiecesSpell(x: bytes, y: bytes, pieces: seq<Piece>)
    requires pieces != [] && PieceText(x, pieces[0], SuffixFollows(pieces)) && Spells(y, pieces[1..])
    ensures Spells(x + y, pieces)
  {
    hide PieceText;
    var s := x + y;
    assert s[..|x|] == x && s[|x|..] == y;
    assert SpellsFrom(s, |x|, pieces);
  }

  lemma NameFollows(p: Piece, next: Option<Piece>)
    requires Follows(p, next) && !p.Mark?
    ensures next in {None, Some(SLASH), Some(PLUS), Some(Mark(GitSuffix)), Some(Mark(Range))}
    ensures next.Some? ==> next.value.Mark? && next.value.kind != Text
  {
  }

  lemma NameEnds(p: Piece, next: Option<Piece>)
    requires Follows(p, next)
    ensures p.PathName? || p.OidName? ==> next == None
    ensures p.RepoName? ==> next != Some(Mark(Range))
  {
  }

  /* The templates. */

  lemma GrammaticalCons(p: Piece, rest: seq<Piece>)
    requires Grammatical(rest) && Follows(p, if rest == [] then None else Some(rest[0]))
    ensures Grammatical([p] + rest)
  {
    hide Follows;
    var pieces := [p] + rest;
    forall i | 0 <= i < |pieces|
      ensures Follows(pieces[i], NextPiece(pieces, i))
    {
      if i > 0 {
        assert Follows(rest[i - 1], NextPiece(rest, i - 1));
      }
    }
  }

  lemma NothingGrammatical()
    ensures Grammatical([])
  {
  }

  /** A delimiter and what it introduces. */
  lemma MarkedGrammatical(mark: Piece, p: Piece, rest: seq<Piece>)
    requires Grammatical(rest) && Follows(p, if rest == [] then None else Some(rest[0])) && Follows(mark, Some(p))
    ensures Grammatical([mark, p] + rest)
  {
    hide Follows, Grammatical;
    GrammaticalCons(p, rest);
    assert ([p] + rest)[0] == p;
    GrammaticalCons(mark, [p] + rest);
    assert [mark, p] + rest == [mark] + ([p] + rest);
  }

  lemma PathGrammatical(separator: Piece, path: Option<bytes>)
    requires separator in {SLASH, PLUS}
    ensures Grammatical(PathTemplate(separator, path))
    ensures path.Some? ==> PathTemplate(separator, path)[0] == separator
  {
    NothingGrammatical();
    if path.Some? {
      MarkedGrammatical(separator, PathName(path.value), []);
      assert [separator, PathName(path.value)] + [] == [separator, PathName(path.value)];
    }
    hide Grammatical;
  }

  lemma TailGrammatical(page: Page)
    requires HasViewTail(page)
    ensures Grammatical(TailTemplate(page))
    ensures TailTemplate(page) != [] ==> TailTemplate(page)[0] == SLASH
  {
    hide Grammatical;
    NothingGrammatical();
    PlainWords();
    match page
    case Blame(_, file) => PathGrammatical(SLASH, Some(file));
    case ArchiveSignature(_) =>
    case AtomFeed(_, path) =>
      PathGrammatical(SLASH, path);
      hide PathTemplate;
      MarkedGrammatical(SLASH, Word("atom"), PathTemplate(SLASH, path));
    case Log(_, path) => PathGrammatical(SLASH, path);
    case Tree(_, path) => PathGrammatical(SLASH, path);
    case Archive(_, path) => PathGrammatical(SLASH, path);
  }

  lemma ViewGrammatical(page: Page)
    requires HasViewTail(page)
    ensures Grammatical(PageTemplate(page))
  {
    var tail := TailTemplate(page);
    TailGrammatical(page);
    ViewTemplate(page);
    PlainWords();
    HyphenatedWords();
    hide Grammatical, PageTemplate, TailTemplate, PlainWord;
    MarkedGrammatical(PLUS, Word(ViewWord(page)), tail);
    MarkedGrammatical(PLUS, RevName(PageRevision(page)), [PLUS, Word(ViewWord(page))] + tail);
    assert PageTemplate(page) == [PLUS, RevName(PageRevision(page))] + ([PLUS, Word(ViewWord(page))] + tail);
  }

  lemma ComparisonGrammatical(word: bytes, a: Revision, b: Revision, path: Option<bytes>)
    requires PlainWord(word)
    ensures Grammatical(ComparisonTemplate(word, a, b, path))
  {
    var tail := PathTemplate(PLUS, path);
    PathGrammatical(PLUS, path);
    hide Grammatical, PlainWord, PathTemplate;
    MarkedGrammatical(Mark(Range), RevName(b), tail);
    MarkedGrammatical(SLASH, RevName(a), [Mark(Range), RevName(b)] + tail);
    MarkedGrammatical(PLUS, Word(word), [SLASH, RevName(a)] + ([Mark(Range), RevName(b)] + tail));
    assert ComparisonTemplate(word, a, b, path)
        == [PLUS, Word(word)] + ([SLASH, RevName(a)] + ([Mark(Range), RevName(b)] + tail));
  }

  predicate IsGit(page: Page) {
    page.GitClone? || page.GitInfoRefs? || page.GitUploadPack? || page.GitReceivePack? || page.GitHead?
    || page.GitObjects? || page.GitLfs?
  }

  /** What follows the `.git` of a transport route. */
  function GitTail(page: Page): seq<Piece>
    requires IsGit(page)
  {
    match page
    case GitClone => []
    case GitInfoRefs => [SLASH, Word("info")] + [SLASH, Word("refs")]
    case GitUploadPack => [SLASH, Word("git-upload-pack")]
    case GitReceivePack => [SLASH, Word("git-receive-pack")]
    case GitHead => [SLASH, Word("HEAD")]
    case GitObjects(file) => [SLASH, Word("objects")] + [SLASH, PathName(file)]
    case GitLfs(file) => [SLASH, Word("info")] + ([SLASH, Word("lfs")] + [SLASH, PathName(file)])
  }

  lemma GitTemplate(page: Page)
    requires IsGit(page)
    ensures PageTemplate(page) == [Mark(GitSuffix)] + GitTail(page)
    ensures GitTail(page) == [] || GitTail(page)[0] == SLASH
  {
  }

  lemma WordSlash(word: bytes, p: Piece)
    requires PlainWord(word) && Grammatical([SLASH, p])
    ensures Grammatical([SLASH, Word(word)] + [SLASH, p])
  {
    hide Grammatical, PlainWord;
    MarkedGrammatical(SLASH, Word(word), [SLASH, p]);
  }

  lemma TransportGrammatical(page: Page)
    requires IsGit(page)
    ensures Grammatical(GitTail(page))
  {
    PlainWords();
    HyphenatedWords();
    NothingGrammatical();
    hide Grammatical, PlainWord;
    match page
    case GitClone =>
    case GitInfoRefs =>
      WordGrammatical("refs");
      WordSlash("info", Word("refs"));
    case GitUploadPack => WordGrammatical("git-upload-pack");
    case GitReceivePack => WordGrammatical("git-receive-pack");
    case GitHead => WordGrammatical("HEAD");
    case GitObjects(file) => FileGrammatical("objects", file);
    case GitLfs(file) =>
      FileGrammatical("lfs", file);
      var lfs := [SLASH, Word("lfs")] + [SLASH, PathName(file)];
      assert lfs[0] == SLASH;
      MarkedGrammatical(SLASH, Word("info"), lfs);
  }

  /** The transport routes. */
  lemma GitGrammatical(page: Page)
    requires IsGit(page)
    ensures Grammatical(PageTemplate(page)) && PageTemplate(page)[0] == Mark(GitSuffix)
  {
    GitTemplate(page);
    TransportGrammatical(page);
    hide IsGit, PageTemplate, GitTail, Grammatical;
    GrammaticalCons(Mark(GitSuffix), GitTail(page));
  }

  lemma WordGrammatical(word: bytes)
    requires PlainWord(word)
    ensures Grammatical([SLASH, Word(word)])
  {
    hide Grammatical, PlainWord;
    OneGrammatical(SLASH, Word(word));
  }

  lemma FileGrammatical(word: bytes, file: bytes)
    requires PlainWord(word)
    ensures Grammatical([SLASH, Word(word)] + [SLASH, PathName(file)])
  {
    hide Grammatical, PlainWord;
    OneGrammatical(SLASH, PathName(file));
    WordSlash(word, PathName(file));
  }

  lemma OneGrammatical(mark: Piece, p: Piece)
    requires Follows(mark, Some(p)) && Follows(p, None)
    ensures Grammatical([mark, p])
  {
    NothingGrammatical();
    hide Follows, Grammatical;
    MarkedGrammatical(mark, p, []);
    assert [mark, p] + [] == [mark, p];
  }

  lemma PageGrammatical(page: Page)
    ensures Grammatical(PageTemplate(page))
    ensures PageTemplate(page) != [] ==> PageTemplate(page)[0] in {PLUS, Mark(GitSuffix)}
  {
    hide Grammatical, PlainWord;
    NothingGrammatical();
    PlainWords();
    if HasViewTail(page) {
      ViewGrammatical(page);
    } else if page.Diff? {
      ComparisonGrammatical("diff", page.old_rev, page.new_rev, page.path);
    } else if page.Patch? {
      ComparisonGrammatical("patch", page.old_rev, page.new_rev, page.path);
    } else if page.Object? {
      OneGrammatical(SLASH, OidName(page.oid));
      MarkedGrammatical(PLUS, Word("object"), [SLASH, OidName(page.oid)]);
      assert PageTemplate(page) == [PLUS, Word("object")] + [SLASH, OidName(page.oid)];
    } else if page.RevisionPage? {
      OneGrammatical(PLUS, RevName(page.rev));
    } else if page.About? || page.Stats? || page.Summary? || page.Refs? {
      OneGrammatical(PLUS, PageTemplate(page)[1]);
    } else if page != Overview {
      GitGrammatical(page);
    }
  }

  lemma TemplateGrammatical(route: Route)
    ensures Grammatical(Template(route))
  {
    hide Grammatical, PageTemplate;
    NothingGrammatical();
    match route
    case Repositories =>
      GrammaticalCons(SLASH, []);
      assert [SLASH] + [] == [SLASH];
    case Repository(repo, page) =>
      PageGrammatical(page);
      MarkedGrammatical(SLASH, RepoName(repo), PageTemplate(page));
  }

  /** For every path and every route: the path denotes the route exactly when it spells its template. */
  lemma SpelledExactly(path: bytes, route: Route)
    ensures Denotes(path, route) <==> Spells(path, Template(route))
  {
    hide *;
    TemplateGrammatical(route);
    if Spells(path, Template(route)) {
      SpellsMatches(path, Template(route));
      DerivesMatches(Tokens(path).value, route);
      DenotesIs(path, route);
    }
    if Denotes(path, route) {
      DenotesIs(path, route);
      DerivesMatches(Tokens(path).value, route);
      MatchesSpells(path, Tokens(path).value, Template(route));
    }
  }

  lemma DenotesIs(path: bytes, route: Route)
    ensures Denotes(path, route) <==> Tokens(path).Some? && Derives(Tokens(path).value, route)
  {
    hide Tokens, Derives;
  }
}
