/** The parser on bytes: a path denotes a route exactly when it spells the template of the route. */
module Spelled {
  import opened Wrappers
  import opened Bytes
  import opened Percent
  import opened Lexer
  import opened Names
  import opened Grammar
  import opened Urls
  import opened Spellings
  import opened TextTokens
  import opened TextDelimiters
  import opened SpelledNames
  import opened SpelledPieces

  /* The grammar as a list of pieces. */

  ghost predicate Matches(ts: seq<Token>, pieces: seq<Piece>)
    decreases |pieces|, 1
  {
    if pieces == [] then ts == []
    else exists k | 0 <= k <= |ts| :: MatchesFrom(ts, k, pieces)
  }

  ghost predicate MatchesFrom(ts: seq<Token>, k: nat, pieces: seq<Piece>)
    requires k <= |ts| && pieces != []
    decreases |pieces|, 0
  {
    Fits(ts[..k], pieces[0]) && Matches(ts[k..], pieces[1..])
  }

  predicate IsToken(piece: Piece) {
    piece.Word? || (piece.Mark? && piece.kind != Text)
  }

  function TokenOf(piece: Piece): Token
    requires IsToken(piece)
  {
    if piece.Word? then T(piece.word) else D(piece.kind)
  }

  lemma MatchNothing(ts: seq<Token>)
    ensures Matches(ts, []) <==> ts == []
  {
  }

  lemma MatchCut(ts: seq<Token>, p: Piece, rest: seq<Piece>) returns (v: seq<Token>, q: seq<Token>)
    requires Matches(ts, [p] + rest)
    ensures ts == v + q && Fits(v, p) && Matches(q, rest)
  {
    hide Fits;
    var pieces := [p] + rest;
    assert Matches(ts, pieces) && pieces[1..] == rest;
    var k :| 0 <= k <= |ts| && MatchesFrom(ts, k, pieces);
    v, q := ts[..k], ts[k..];
  }

  lemma MatchJoin(v: seq<Token>, q: seq<Token>, p: Piece, rest: seq<Piece>)
    requires Fits(v, p) && Matches(q, rest)
    ensures Matches(v + q, [p] + rest)
  {
    hide Fits;
    var pieces, ts := [p] + rest, v + q;
    assert pieces[1..] == rest;
    assert ts[..|v|] == v && ts[|v|..] == q;
    assert MatchesFrom(ts, |v|, pieces);
  }

  /** A piece that is one token. */
  lemma MatchToken(ts: seq<Token>, p: Piece, rest: seq<Piece>)
    requires IsToken(p)
    ensures Matches(ts, [p] + rest) <==> ts != [] && ts[0] == TokenOf(p) && Matches(ts[1..], rest)
  {
    hide Matches;
    if Matches(ts, [p] + rest) {
      var v, q := MatchCut(ts, p, rest);
      assert v == [TokenOf(p)] && ts[1..] == q;
    }
    if ts != [] && ts[0] == TokenOf(p) && Matches(ts[1..], rest) {
      MatchJoin([ts[0]], ts[1..], p, rest);
      assert [ts[0]] + ts[1..] == ts;
    }
  }

  /** The last piece. */
  lemma MatchLast(ts: seq<Token>, p: Piece)
    ensures Matches(ts, [p]) <==> Fits(ts, p)
  {
    hide Matches, Fits;
    assert [p] + [] == [p];
    if Matches(ts, [p]) {
      var v, q := MatchCut(ts, p, []);
      MatchNothing(q);
      assert v + [] == v;
    }
    if Fits(ts, p) {
      MatchNothing([]);
      MatchJoin(ts, [], p, []);
      assert ts + [] == ts;
    }
  }

  /* Every production is its template. */

  lemma OptionalMatches(ts: seq<Token>, separator: Kind, path: Option<bytes>)
    requires separator != Text
    ensures OptionalPathOf(ts, separator, path) <==> Matches(ts, PathTemplate(Mark(separator), path))
  {
    hide Matches, PathOf;
    if path == None {
      MatchNothing(ts);
    } else {
      var p := PathName(path.value);
      assert [Mark(separator), p] == [Mark(separator)] + [p];
      MatchToken(ts, Mark(separator), [p]);
      if ts != [] {
        MatchLast(ts[1..], p);
      }
    }
  }

  lemma OneToken(ts: seq<Token>, a: Piece)
    requires IsToken(a)
    ensures Matches(ts, [a]) <==> ts == [TokenOf(a)]
  {
    hide Matches;
    MatchToken(ts, a, []);
    if ts != [] {
      MatchNothing(ts[1..]);
      assert ts == [ts[0]] + ts[1..];
    }
    assert [a] + [] == [a];
  }

  lemma TwoTokens(ts: seq<Token>, a: Piece, b: Piece, rest: seq<Piece>)
    requires IsToken(a) && IsToken(b)
    ensures Matches(ts, [a, b] + rest)
       <==> |ts| >= 2 && ts[0] == TokenOf(a) && ts[1] == TokenOf(b) && Matches(ts[2..], rest)
  {
    hide Matches;
    assert [a, b] + rest == [a] + ([b] + rest);
    MatchToken(ts, a, [b] + rest);
    if ts != [] {
      MatchToken(ts[1..], b, rest);
      assert |ts| > 1 ==> ts[1..][1..] == ts[2..];
    }
  }

  lemma TailMatches(ts: seq<Token>, rev: Revision, page: Page)
    requires HasViewTail(page)
    ensures RevisionView(ts, rev, page)
       <==> rev == PageRevision(page) && Matches(ts, [Word(ViewWord(page))] + TailTemplate(page))
  {
    hide Matches, PathOf;
    if page.AtomFeed? {
      FeedMatches(ts, page.path);
    } else if page.ArchiveSignature? {
      OneToken(ts, Word(ViewWord(page)));
      assert [Word(ViewWord(page))] + [] == [Word(ViewWord(page))];
    } else if page.Blame? {
      BlameMatches(ts, page.file);
    } else {
      MatchToken(ts, Word(ViewWord(page)), TailTemplate(page));
      if ts != [] {
        OptionalMatches(ts[1..], Slash, page.path);
      }
    }
  }

  lemma FeedMatches(ts: seq<Token>, path: Option<bytes>)
    ensures Matches(ts, [Word("feed")] + ([SLASH, Word("atom")] + PathTemplate(SLASH, path)))
       <==> |ts| >= 3 && ts[0] == T("feed") && ts[1] == D(Slash) && ts[2] == T("atom")
            && OptionalPathOf(ts[3..], Slash, path)
  {
    hide Matches, OptionalPathOf;
    var rest := [Word("atom")] + PathTemplate(SLASH, path);
    assert [Word("feed")] + ([SLASH, Word("atom")] + PathTemplate(SLASH, path)) == [Word("feed"), SLASH] + rest;
    TwoTokens(ts, Word("feed"), SLASH, rest);
    if |ts| >= 2 {
      MatchToken(ts[2..], Word("atom"), PathTemplate(SLASH, path));
      if |ts| >= 3 {
        assert ts[2..][1..] == ts[3..];
        OptionalMatches(ts[3..], Slash, path);
      }
    }
  }

  lemma BlameMatches(ts: seq<Token>, file: bytes)
    ensures Matches(ts, [Word("blame")] + PathTemplate(SLASH, Some(file)))
       <==> |ts| >= 2 && ts[0] == T("blame") && ts[1] == D(Slash) && PathOf(ts[2..], file)
  {
    hide Matches, PathOf;
    assert [Word("blame")] + PathTemplate(SLASH, Some(file)) == [Word("blame"), SLASH] + [PathName(file)];
    TwoTokens(ts, Word("blame"), SLASH, [PathName(file)]);
    if |ts| >= 2 {
      MatchLast(ts[2..], PathName(file));
    }
  }

  lemma RevisionMatches(ts: seq<Token>, page: Page, tail: seq<Piece>)
    requires HasViewTail(page) && tail == [Word(ViewWord(page))] + TailTemplate(page)
    ensures RevisionThenView(ts, page) <==> Matches(ts, [RevName(PageRevision(page))] + ([PLUS] + tail))
  {
    hide Matches, SelectorOf, RevisionView, TailTemplate, PageRevision, HasViewTail, ViewWord;
    if RevisionThenView(ts, page) {
      var v, q, r :| ts == v + [D(Boundary)] + q && SelectorOf(v, r) && RevisionView(q, r, page);
      RevisionMatched(v, q, r, page, tail);
      assert ts == v + ([D(Boundary)] + q);
    }
    if Matches(ts, [RevName(PageRevision(page))] + ([PLUS] + tail)) {
      RevisionUnmatched(ts, page, tail);
    }
  }

  lemma RevisionMatched(v: seq<Token>, q: seq<Token>, r: Revision, page: Page, tail: seq<Piece>)
    requires HasViewTail(page) && tail == [Word(ViewWord(page))] + TailTemplate(page)
    requires SelectorOf(v, r) && RevisionView(q, r, page)
    ensures Matches(v + ([D(Boundary)] + q), [RevName(PageRevision(page))] + ([PLUS] + tail))
  {
    hide Matches, SelectorOf, RevisionView, TailTemplate, PageRevision, HasViewTail, ViewWord;
    TailMatches(q, r, page);
    var q' := [D(Boundary)] + q;
    assert q'[1..] == q;
    MatchToken(q', PLUS, tail);
    MatchJoin(v, q', RevName(r), [PLUS] + tail);
  }

  lemma RevisionUnmatched(ts: seq<Token>, page: Page, tail: seq<Piece>)
    requires HasViewTail(page) && tail == [Word(ViewWord(page))] + TailTemplate(page)
    requires Matches(ts, [RevName(PageRevision(page))] + ([PLUS] + tail))
    ensures RevisionThenView(ts, page)
  {
    hide Matches, SelectorOf, RevisionView, TailTemplate, PageRevision, HasViewTail, ViewWord;
    var rev := PageRevision(page);
    var v, q := MatchCut(ts, RevName(rev), [PLUS] + tail);
    MatchToken(q, PLUS, tail);
    TailMatches(q[1..], rev, page);
    assert q == [D(Boundary)] + q[1..];
    assert ts == v + [D(Boundary)] + q[1..];
  }

  function ChangePieces(old_rev: Revision, new_rev: Revision, path: Option<bytes>): seq<Piece> {
    [RevName(old_rev)] + ([Mark(Range)] + ([RevName(new_rev)] + PathTemplate(PLUS, path)))
  }

  lemma ComparisonMatched(v: seq<Token>, w: seq<Token>, q: seq<Token>,
                          old_rev: Revision, new_rev: Revision, path: Option<bytes>)
    requires SelectorOf(v, old_rev) && SelectorOf(w, new_rev) && OptionalPathOf(q, Boundary, path)
    ensures Matches(v + ([D(Range)] + (w + q)), ChangePieces(old_rev, new_rev, path))
  {
    hide Matches, SelectorOf, OptionalPathOf, PathTemplate;
    var tail := PathTemplate(PLUS, path);
    var last := [RevName(new_rev)] + tail;
    OptionalMatches(q, Boundary, path);
    MatchJoin(w, q, RevName(new_rev), tail);
    var q' := [D(Range)] + (w + q);
    assert q'[1..] == w + q;
    MatchToken(q', Mark(Range), last);
    MatchJoin(v, q', RevName(old_rev), [Mark(Range)] + last);
  }

  lemma ComparisonUnmatched(ts: seq<Token>, old_rev: Revision, new_rev: Revision, path: Option<bytes>)
    requires Matches(ts, ChangePieces(old_rev, new_rev, path))
    ensures ComparisonOf(ts, old_rev, new_rev, path)
  {
    hide Matches, SelectorOf, OptionalPathOf, PathTemplate;
    var tail := PathTemplate(PLUS, path);
    var last := [RevName(new_rev)] + tail;
    var v, q := MatchCut(ts, RevName(old_rev), [Mark(Range)] + last);
    MatchToken(q, Mark(Range), last);
    var w, q' := MatchCut(q[1..], RevName(new_rev), tail);
    OptionalMatches(q', Boundary, path);
    assert q == [D(Range)] + q[1..];
    assert ts == v + [D(Range)] + w + q';
  }

  lemma ComparisonMatches(ts: seq<Token>, old_rev: Revision, new_rev: Revision, path: Option<bytes>)
    ensures ComparisonOf(ts, old_rev, new_rev, path) <==> Matches(ts, ChangePieces(old_rev, new_rev, path))
  {
    hide Matches, SelectorOf, OptionalPathOf, ChangePieces;
    if ComparisonOf(ts, old_rev, new_rev, path) {
      var v, w, q :| && ts == v + [D(Range)] + w + q
                     && SelectorOf(v, old_rev) && SelectorOf(w, new_rev) && OptionalPathOf(q, Boundary, path);
      ComparisonMatched(v, w, q, old_rev, new_rev, path);
      assert ts == v + ([D(Range)] + (w + q));
    }
    if Matches(ts, ChangePieces(old_rev, new_rev, path)) {
      ComparisonUnmatched(ts, old_rev, new_rev, path);
    }
  }

  /** What follows `/+/`. */
  lemma ViewMatches(ts: seq<Token>, page: Page)
    requires PageTemplate(page) != [] && PageTemplate(page)[0] == PLUS
    ensures ViewOf(ts, page) <==> Matches(ts, PageTemplate(page)[1..])
  {
    hide Matches, SelectorOf, ComparisonOf, RevisionThenView;
    if HasViewTail(page) {
      ViewTemplate(page);
      hide PageTemplate, TailTemplate;
      var tail := [Word(ViewWord(page))] + TailTemplate(page);
      assert PageTemplate(page)[1..] == [RevName(PageRevision(page))] + ([PLUS] + tail);
      RevisionMatches(ts, page, tail);
    } else {
      match page
      case Object(oid) => ObjectMatches(ts, oid);
      case RevisionPage(rev) => MatchLast(ts, RevName(rev));
      case Diff(a, b, path) => ChangesMatch(ts, "diff", a, b, path);
      case Patch(a, b, path) => ChangesMatch(ts, "patch", a, b, path);
      case About | Stats | Summary | Refs => OneToken(ts, PageTemplate(page)[1]);
    }
  }

  lemma ObjectMatches(ts: seq<Token>, oid: bytes)
    ensures Matches(ts, [PLUS, Word("object"), SLASH, OidName(oid)][1..])
       <==> ts == [T("object"), D(Slash), T(oid)] && Grammar.ValidOid(oid)
  {
    hide Matches, Grammar.ValidOid;
    assert [PLUS, Word("object"), SLASH, OidName(oid)][1..] == [Word("object"), SLASH] + [OidName(oid)];
    TwoTokens(ts, Word("object"), SLASH, [OidName(oid)]);
    if |ts| >= 2 {
      MatchLast(ts[2..], OidName(oid));
      assert ts == [ts[0], ts[1]] + ts[2..];
      assert [T("object"), D(Slash)] + [T(oid)] == [T("object"), D(Slash), T(oid)];
      assert [T("object"), D(Slash), T(oid)][2..] == [T(oid)];
    }
  }

  lemma ChangesMatch(ts: seq<Token>, word: bytes, a: Revision, b: Revision, path: Option<bytes>)
    ensures Matches(ts, ComparisonTemplate(word, a, b, path)[1..])
       <==> |ts| >= 2 && ts[0] == T(word) && ts[1] == D(Slash) && ComparisonOf(ts[2..], a, b, path)
  {
    hide Matches, ComparisonOf;
    var rest := ChangePieces(a, b, path);
    hide PathTemplate;
    assert ComparisonTemplate(word, a, b, path)[1..] == [Word(word), SLASH] + rest;
    TwoTokens(ts, Word(word), SLASH, rest);
    if |ts| >= 2 {
      ComparisonMatches(ts[2..], a, b, path);
    }
  }

  /** What follows `.git`. */
  lemma GitMatches(ts: seq<Token>, page: Page)
    requires PageTemplate(page) != [] && PageTemplate(page)[0] == Mark(GitSuffix)
    ensures GitOf(ts, page) <==> Matches(ts, PageTemplate(page)[1..])
  {
    hide Matches, PathOf;
    match page
    case GitClone => MatchNothing(ts);
    case GitInfoRefs =>
      FourTokens(ts, SLASH, Word("info"), SLASH, Word("refs"), []);
      NoMore(ts, 4);
      assert PageTemplate(page)[1..] == [SLASH, Word("info"), SLASH, Word("refs")] + [];
    case GitUploadPack | GitReceivePack | GitHead =>
      TwoTokens(ts, SLASH, PageTemplate(page)[2], []);
      NoMore(ts, 2);
      assert PageTemplate(page)[1..] == [SLASH, PageTemplate(page)[2]] + [];
    case GitObjects(file) => ObjectsMatch(ts, file);
    case GitLfs(file) => LfsMatches(ts, file);
  }

  lemma NoMore(ts: seq<Token>, n: nat)
    ensures |ts| >= n ==> (Matches(ts[n..], []) <==> |ts| == n)
  {
    if |ts| >= n {
      MatchNothing(ts[n..]);
    }
    hide Matches;
  }

  lemma FourTokens(ts: seq<Token>, a: Piece, b: Piece, c: Piece, d: Piece, rest: seq<Piece>)
    requires IsToken(a) && IsToken(b) && IsToken(c) && IsToken(d)
    ensures Matches(ts, [a, b, c, d] + rest)
       <==> && |ts| >= 4 && ts[0] == TokenOf(a) && ts[1] == TokenOf(b) && ts[2] == TokenOf(c) && ts[3] == TokenOf(d)
            && Matches(ts[4..], rest)
  {
    hide Matches, TokenOf;
    assert [a, b, c, d] + rest == [a, b] + ([c, d] + rest);
    TwoTokens(ts, a, b, [c, d] + rest);
    if |ts| >= 2 {
      TwoTokens(ts[2..], c, d, rest);
      assert |ts| >= 4 ==> ts[2..][2..] == ts[4..];
    }
  }

  lemma ObjectsMatch(ts: seq<Token>, file: bytes)
    ensures GitOf(ts, GitObjects(file)) <==> Matches(ts, PageTemplate(GitObjects(file))[1..])
  {
    hide Matches, PathOf;
    var rest := [SLASH] + [PathName(file)];
    assert PageTemplate(GitObjects(file))[1..] == [SLASH, Word("objects")] + rest;
    TwoTokens(ts, SLASH, Word("objects"), rest);
    if |ts| >= 2 {
      MatchToken(ts[2..], SLASH, [PathName(file)]);
      if |ts| >= 3 {
        assert ts[2..][1..] == ts[3..];
        MatchLast(ts[3..], PathName(file));
      }
    }
  }

  lemma LfsMatches(ts: seq<Token>, file: bytes)
    ensures GitOf(ts, GitLfs(file)) <==> Matches(ts, PageTemplate(GitLfs(file))[1..])
  {
    hide Matches, PathOf;
    var rest := [SLASH] + [PathName(file)];
    assert PageTemplate(GitLfs(file))[1..] == [SLASH, Word("info"), SLASH, Word("lfs")] + rest;
    FourTokens(ts, SLASH, Word("info"), SLASH, Word("lfs"), rest);
    if |ts| >= 4 {
      MatchToken(ts[4..], SLASH, [PathName(file)]);
      if |ts| >= 5 {
        assert ts[4..][1..] == ts[5..];
        MatchLast(ts[5..], PathName(file));
      }
    }
  }

  lemma PageMatches(ts: seq<Token>, page: Page)
    ensures PageOf(ts, page) <==> Matches(ts, PageTemplate(page))
  {
    var pieces := PageTemplate(page);
    hide Matches, ViewOf, GitOf;
    if page == Overview {
      MatchNothing(ts);
      NotOverview(ts);
    } else {
      assert pieces[0] == PLUS || pieces[0] == Mark(GitSuffix);
      assert pieces == [pieces[0]] + pieces[1..];
      MatchToken(ts, pieces[0], pieces[1..]);
      if ts != [] {
        FamilyOf(ts[1..], page);
        if pieces[0] == PLUS {
          ViewMatches(ts[1..], page);
        } else {
          GitMatches(ts[1..], page);
        }
      }
      hide PageTemplate;
    }
  }

  lemma NotOverview(ts: seq<Token>)
    ensures !ViewOf(ts, Overview) && !GitOf(ts, Overview)
    ensures ts != [] ==> !ViewOf(ts[1..], Overview) && !GitOf(ts[1..], Overview)
  {
  }

  /** Views and transport routes are told apart by their first delimiter. */
  lemma FamilyOf(ts: seq<Token>, page: Page)
    requires page != Overview
    ensures ViewOf(ts, page) ==> PageTemplate(page)[0] == PLUS
    ensures GitOf(ts, page) ==> PageTemplate(page)[0] == Mark(GitSuffix)
  {
    hide SelectorOf, ComparisonOf, PathOf;
  }

  /** A token sequence derives a route exactly when it matches the template of the route. */
  lemma DerivesMatches(ts: seq<Token>, route: Route)
    ensures Derives(ts, route) <==> Matches(ts, Template(route))
  {
    hide Matches, PageOf, RepoOf, PageTemplate;
    match route
    case Repositories => OneToken(ts, SLASH);
    case Repository(repo, page) =>
      var pieces := [RepoName(repo)] + PageTemplate(page);
      assert Template(route) == [SLASH] + pieces;
      MatchToken(ts, SLASH, pieces);
      if Derives(ts, route) {
        var n, q :| ts == [D(Slash)] + n + q && RepoOf(n, repo) && PageOf(q, page);
        PageMatches(q, page);
        MatchJoin(n, q, RepoName(repo), PageTemplate(page));
        assert ts[1..] == n + q;
      }
      if Matches(ts, Template(route)) {
        var n, q := MatchCut(ts[1..], RepoName(repo), PageTemplate(page));
        PageMatches(q, page);
        assert ts == [D(Slash)] + n + q;
      }
  }
}
