/** The recursive-descent parser of the URL scheme, proved against the grammar: what it returns is
    derived, and when it fails nothing is. */
module Parser {
  import opened Wrappers
  import opened Bytes
  import opened Lexer
  import opened Names
  import opened Grammar

  /* What a parser for each nonterminal must answer on the tokens `ts`. */

  ghost predicate ReadsRevision(ts: seq<Token>, r: Option<Revision>) {
    match r
    case Some(rev) => RevisionOf(ts, rev)
    case None => forall rev :: !RevisionOf(ts, rev)
  }

  ghost predicate ReadsOptionalPath(ts: seq<Token>, separator: Kind, r: Option<Option<bytes>>)
    requires separator != Text
  {
    match r
    case Some(path) => OptionalPathOf(ts, separator, path)
    case None => forall path :: !OptionalPathOf(ts, separator, path)
  }

  ghost predicate ReadsRevisionView(ts: seq<Token>, rev: Revision, r: Option<Page>) {
    match r
    case Some(page) => RevisionView(ts, rev, page)
    case None => forall page :: !RevisionView(ts, rev, page)
  }

  ghost predicate ReadsComparison(ts: seq<Token>, patch: bool, r: Option<Page>) {
    match r
    case Some(page) =>
      (if patch then page.Patch? else page.Diff?) && ComparisonOf(ts, page.old_rev, page.new_rev, page.path)
    case None => forall old_rev, new_rev, path :: !ComparisonOf(ts, old_rev, new_rev, path)
  }

  ghost predicate ReadsView(ts: seq<Token>, r: Option<Page>) {
    match r
    case Some(page) => ViewOf(ts, page)
    case None => forall page :: !ViewOf(ts, page)
  }

  ghost predicate ReadsGit(ts: seq<Token>, r: Option<Page>) {
    match r
    case Some(page) => GitOf(ts, page)
    case None => forall page :: !GitOf(ts, page)
  }

  ghost predicate ReadsRoute(ts: seq<Token>, r: Option<Route>) {
    match r
    case Some(route) => Derives(ts, route)
    case None => forall route :: !Derives(ts, route)
  }

  lemma LexedSlice(ts: seq<Token>, lo: nat, hi: nat)
    requires Lexed(ts) && lo <= hi <= |ts|
    ensures Lexed(ts[lo..hi])
    ensures Lexed(ts[lo..])
  {
  }

  method ParseRevision(value: seq<Token>) returns (r: Option<Revision>)
    requires Lexed(value)
    ensures ReadsRevision(value, r)
  {
    if |value| == 1 && value[0].kind == Text {
      assert value == [T(value[0].raw)];
      if value[0].raw == "HEAD" {
        return Some(Head);
      }
      return if ValidOid(value[0].raw) then Some(Commit(value[0].raw)) else None;
    }
    if |value| >= 2 && value[0].raw == "refs" && value[1].kind == Slash {
      LexedSlice(value, 2, |value|);
      var path := DecodeName(value[2..], false);
      ReferenceTokens(value);
      if path == None || !ValidRef("refs/" + path.value) {
        return None;
      }
      return Some(Ref("refs/" + path.value));
    }
    return None;
  }

  /** Only text reads `refs`. */
  lemma ReferenceTokens(value: seq<Token>)
    requires Lexed(value) && |value| >= 2 && value[0].raw == "refs" && value[1].kind == Slash
    ensures value[0] == T("refs") && value[1] == D(Slash)
  {
    assert TokenShape(value[0]) && TokenShape(value[1]);
  }

  class Parser {
    const tokens: seq<Token>
    var cursor: nat

    constructor (tokens: seq<Token>)
      requires Lexed(tokens)
      ensures this.tokens == tokens && Valid() && Rest() == tokens
    {
      this.tokens := tokens;
      cursor := 0;
    }

    ghost predicate Valid()
      reads this
    {
      cursor <= |tokens| && Lexed(tokens)
    }

    /** The tokens not yet consumed. */
    ghost function Rest(): seq<Token>
      requires Valid()
      reads this
    {
      tokens[cursor..]
    }

    method Peek() returns (kind: Option<Kind>)
      requires Valid()
      ensures kind == if Rest() == [] then None else Some(Rest()[0].kind)
    {
      kind := if cursor < |tokens| then Some(tokens[cursor].kind) else None;
    }

    method PeekText() returns (text: Option<bytes>)
      requires Valid()
      ensures text == if Rest() != [] && Rest()[0].kind == Text then Some(Rest()[0].raw) else None
      ensures text.Some? ==> Rest()[0] == T(text.value)
    {
      text := if cursor < |tokens| && tokens[cursor].kind == Text then Some(tokens[cursor].raw) else None;
    }

    method TakeText() returns (text: Option<bytes>)
      requires Valid()
      modifies this`cursor
      ensures Valid()
      ensures text == if old(Rest()) != [] && old(Rest())[0].kind == Text then Some(old(Rest())[0].raw) else None
      ensures text.Some? ==> old(Rest())[0] == T(text.value)
      ensures Rest() == if text.Some? then old(Rest())[1..] else old(Rest())
    {
      text := PeekText();
      if text.Some? {
        cursor := cursor + 1;
      }
    }

    method Expect(expected: Kind) returns (ok: bool)
      requires Valid() && expected != Text
      modifies this`cursor
      ensures Valid()
      ensures ok <==> old(Rest()) != [] && old(Rest())[0] == D(expected)
      ensures Rest() == if ok then old(Rest())[1..] else old(Rest())
    {
      var kind := Peek();
      ok := kind == Some(expected);
      assert cursor < |tokens| ==> TokenShape(tokens[cursor]);
      if ok {
        cursor := cursor + 1;
      }
    }

    method End() returns (end: bool)
      requires Valid()
      ensures end <==> Rest() == []
    {
      end := cursor == |tokens|;
    }

    method TakeUntil(stops: set<Kind>) returns (run: seq<Token>)
      requires Valid()
      modifies this`cursor
      ensures Valid()
      ensures var n := Span(old(Rest()), stops); run == old(Rest())[..n] && Rest() == old(Rest())[n..]
      ensures Lexed(run)
    {
      var start := cursor;
      while cursor < |tokens| && tokens[cursor].kind !in stops
        invariant start <= cursor <= |tokens|
        invariant Free(tokens[start..cursor], stops)
      {
        assert tokens[start..cursor + 1] == tokens[start..cursor] + [tokens[cursor]];
        cursor := cursor + 1;
      }
      run := tokens[start..cursor];
      assert tokens[start..] == run + tokens[cursor..];
      SplitUnique(run, tokens[cursor..], stops);
      LexedSlice(tokens, start, cursor);
    }

    method TakeRest() returns (run: seq<Token>)
      requires Valid()
      modifies this`cursor
      ensures Valid() && Rest() == []
      ensures run == old(Rest()) && Lexed(run)
    {
      run := tokens[cursor..];
      LexedSlice(tokens, cursor, |tokens|);
      cursor := |tokens|;
    }

    method Selector() returns (r: Option<Revision>)
      requires Valid()
      modifies this`cursor
      ensures Valid()
      ensures var n := Span(old(Rest()), {Boundary, Range});
        ReadsRevision(old(Rest())[..n], r) && Rest() == old(Rest())[n..]
    {
      var run := TakeUntil({Boundary, Range});
      r := ParseRevision(run);
    }

    method OptionalPath(separator: Kind) returns (r: Option<Option<bytes>>)
      requires Valid() && separator != Text
      modifies this`cursor
      ensures Valid()
      ensures ReadsOptionalPath(old(Rest()), separator, r)
    {
      var end := End();
      if end {
        return Some(None);
      }
      var ok := Expect(separator);
      if !ok {
        return None;
      }
      var run := TakeRest();
      var path := DecodeName(run, false);
      r := if path.Some? then Some(path) else None;
    }

    method RevisionViewPage(rev: Revision) returns (r: Option<Page>)
      requires Valid()
      modifies this`cursor
      ensures Valid()
      ensures ReadsRevisionView(old(Rest()), rev, r)
    {
      hide Lexed, ReadsRevisionView, ReadsOptionalPath;
      ghost var ts := Rest();
      var word := TakeText();
      if word == None {
        NotARevisionView(ts, rev);
        return None;
      }
      if word.value == "log" {
        var path := OptionalPath(Slash);
        PathView(ts, rev, Log(rev, None), path);
        return if path.Some? then Some(Log(rev, path.value)) else None;
      } else if word.value == "tree" {
        var path := OptionalPath(Slash);
        PathView(ts, rev, Tree(rev, None), path);
        return if path.Some? then Some(Tree(rev, path.value)) else None;
      } else if word.value == "blame" {
        var ok := Expect(Slash);
        if !ok {
          BlameView(ts, rev, None);
          return None;
        }
        var run := TakeRest();
        var file := DecodeName(run, false);
        BlameView(ts, rev, file);
        return if file.Some? then Some(Blame(rev, file.value)) else None;
      } else if word.value == "archive" {
        var path := OptionalPath(Slash);
        PathView(ts, rev, Archive(rev, None), path);
        return if path.Some? then Some(Archive(rev, path.value)) else None;
      } else if word.value == "archive-signature" {
        var end := End();
        SignatureView(ts, rev);
        return if end then Some(ArchiveSignature(rev)) else None;
      } else if word.value == "feed" {
        r := Feed(rev, ts);
      } else {
        NotARevisionView(ts, rev);
        return None;
      }
    }

    /** The `feed` production after its first word. */
    method Feed(rev: Revision, ghost ts: seq<Token>) returns (r: Option<Page>)
      requires Valid() && ts == [T("feed")] + Rest()
      modifies this`cursor
      ensures Valid()
      ensures ReadsRevisionView(ts, rev, r)
    {
      hide Lexed, ReadsRevisionView, ReadsOptionalPath;
      var ok := Expect(Slash);
      if !ok {
        NotAFeed(ts, rev);
        return None;
      }
      var atom := TakeText();
      if atom != Some("atom") || !rev.Ref? {
        NotAFeed(ts, rev);
        return None;
      }
      assert Rest() == ts[3..];
      var path := OptionalPath(Slash);
      FeedView(ts, rev.name, path);
      r := if path.Some? then Some(AtomFeed(rev.name, path.value)) else None;
    }

    method Comparison(patch: bool) returns (r: Option<Page>)
      requires Valid()
      modifies this`cursor
      ensures Valid()
      ensures ReadsComparison(old(Rest()), patch, r)
    {
      hide Lexed, ReadsRevision, ReadsComparison, ReadsOptionalPath;
      ghost var ts := Rest();
      var old_rev := Selector();
      if old_rev == None {
        NoComparison(ts, patch);
        return None;
      }
      SelectorRead(ts[..Span(ts, {Boundary, Range})], old_rev.value);
      var ok := Expect(Range);
      if !ok {
        NoComparison(ts, patch);
        return None;
      }
      r := ComparisonEnd(patch, old_rev.value, ts);
    }

    /** The production of `Comparison` after its range. */
    method ComparisonEnd(patch: bool, old_rev: Revision, ghost ts: seq<Token>) returns (r: Option<Page>)
      requires Valid() && RangeAt(ts, Rest()) && RevisionOf(ts[..Span(ts, {Boundary, Range})], old_rev)
      modifies this`cursor
      ensures Valid()
      ensures ReadsComparison(ts, patch, r)
    {
      hide Lexed, ReadsRevision, ReadsComparison, ReadsOptionalPath, RangeAt, RevisionOf;
      ghost var w := Rest();
      var new_rev := Selector();
      if new_rev == None {
        NoSecondRevision(ts, w, patch);
        return None;
      }
      SelectorRead(w[..Span(w, {Boundary, Range})], new_rev.value);
      var path := OptionalPath(Boundary);
      ComparisonView(ts, w, patch, old_rev, new_rev.value, path);
      r := if path.Some? then Some(ComparisonPage(patch, old_rev, new_rev.value, path.value)) else None;
    }

    method View() returns (r: Option<Page>)
      requires Valid()
      modifies this`cursor
      ensures Valid()
      ensures ReadsView(old(Rest()), r)
    {
      hide Lexed, ReadsView;
      ghost var ts := Rest();
      var word := PeekText();
      if word == Some("about") || word == Some("stats") || word == Some("summary") {
        cursor := cursor + 1;
        var end := End();
        KeywordView(ts);
        return if end then Some(KeywordPage(word.value)) else None;
      } else if word == Some("refs") && cursor + 1 == |tokens| {
        cursor := cursor + 1;
        RefsView(ts);
        return Some(Refs);
      } else if word == Some("object") {
        r := ObjectPage();
      } else if word == Some("diff") || word == Some("patch") {
        r := DiffOrPatch();
      } else {
        r := RevisionOrView();
      }
    }

    /** The `object` production of `View`. */
    method ObjectPage() returns (r: Option<Page>)
      requires Valid() && Rest() != [] && Rest()[0] == T("object")
      modifies this`cursor
      ensures Valid()
      ensures ReadsView(old(Rest()), r)
    {
      hide Lexed, ReadsView;
      ObjectView(Rest());
      cursor := cursor + 1;
      var ok := Expect(Slash);
      if !ok {
        return None;
      }
      var oid := TakeText();
      if oid == None || !ValidOid(oid.value) {
        return None;
      }
      var end := End();
      r := if end then Some(Object(oid.value)) else None;
    }

    /** The `diff` and `patch` productions of `View`. */
    method DiffOrPatch() returns (r: Option<Page>)
      requires Valid() && Rest() != [] && Rest()[0] in {T("diff"), T("patch")}
      modifies this`cursor
      ensures Valid()
      ensures ReadsView(old(Rest()), r)
    {
      hide Lexed, ReadsView, ReadsComparison;
      ghost var ts := Rest();
      var word := TakeText();
      var patch := word == Some("patch");
      var ok := Expect(Slash);
      if !ok {
        ComparisonKeyword(ts, patch, None);
        return None;
      }
      assert Rest() == ts[2..];
      r := Comparison(patch);
      ComparisonKeyword(ts, patch, r);
    }

    /** The productions of `View` that start with a revision. */
    method RevisionOrView() returns (r: Option<Page>)
      requires Valid() && OtherWord(Rest())
      modifies this`cursor
      ensures Valid()
      ensures ReadsView(old(Rest()), r)
    {
      hide Lexed, ReadsView, ReadsRevision, ReadsRevisionView, OtherWord;
      ghost var ts := Rest();
      ghost var n := Span(ts, {Boundary, Range});
      var rev := Selector();
      if rev == None {
        NoRevisionHere(ts);
        return None;
      }
      SelectorRead(ts[..n], rev.value);
      var end := End();
      if end {
        RevisionHere(ts, rev.value);
        return Some(RevisionPage(rev.value));
      }
      var ok := Expect(Boundary);
      if !ok {
        RangeAfterRevision(ts);
        return None;
      }
      assert Rest() == ts[n + 1..];
      r := RevisionViewPage(rev.value);
      ViewAfterRevision(ts, rev.value, r);
    }

    method Git() returns (r: Option<Page>)
      requires Valid()
      modifies this`cursor
      ensures Valid()
      ensures ReadsGit(old(Rest()), r)
    {
      hide Lexed, ReadsGit;
      ghost var ts := Rest();
      var end := End();
      if end {
        GitEnd(ts);
        return Some(GitClone);
      }
      var ok := Expect(Slash);
      if !ok {
        NotGit(ts);
        return None;
      }
      var word := TakeText();
      if word == None {
        NotGit(ts);
        return None;
      }
      if word.value == "info" {
        r := Info(ts);
      } else if word.value == "git-upload-pack" || word.value == "git-receive-pack" || word.value == "HEAD" {
        end := End();
        GitService(ts);
        r := if end then Some(ServicePage(word.value)) else None;
      } else if word.value == "objects" {
        ok := Expect(Slash);
        if !ok {
          ObjectsView(ts, None);
          return None;
        }
        var run := TakeRest();
        var file := DecodeName(run, false);
        assert run == ts[3..];
        ObjectsView(ts, file);
        r := if file.Some? then Some(GitObjects(file.value)) else None;
      } else {
        NotGit(ts);
        r := None;
      }
    }

    /** The `info` productions of `Git`. */
    method Info(ghost ts: seq<Token>) returns (r: Option<Page>)
      requires Valid() && ts == [D(Slash), T("info")] + Rest()
      modifies this`cursor
      ensures Valid()
      ensures ReadsGit(ts, r)
    {
      hide Lexed, ReadsGit;
      var ok := Expect(Slash);
      if !ok {
        NotInfo(ts);
        return None;
      }
      var word := TakeText();
      if word == Some("refs") {
        var end := End();
        InfoRefsView(ts);
        return if end then Some(GitInfoRefs) else None;
      }
      if word != Some("lfs") {
        NotInfo(ts);
        return None;
      }
      ok := Expect(Slash);
      if !ok {
        LfsView(ts, None);
        return None;
      }
      var run := TakeRest();
      var file := DecodeName(run, false);
      assert run == ts[5..];
      LfsView(ts, file);
      r := if file.Some? then Some(GitLfs(file.value)) else None;
    }

    /** What `parse` does after the repository name. */
    method AfterRepository() returns (r: Option<Page>)
      requires Valid() && (Rest() == [] || Rest()[0].kind == Boundary || Rest()[0].kind == GitSuffix)
      modifies this`cursor
      ensures Valid()
      ensures ReadsPage(old(Rest()), r)
    {
      assert Rest() != [] ==> TokenShape(tokens[cursor]);
      hide Lexed, ReadsPage, ReadsView, ReadsGit;
      ghost var q := Rest();
      var kind := Peek();
      PageRead(q);
      if kind == None {
        return Some(Overview);
      }
      cursor := cursor + 1;
      assert Rest() == q[1..];
      if kind == Some(Boundary) {
        r := View();
      } else {
        r := Git();
      }
    }

    method Parse() returns (r: Option<Route>)
      requires Valid()
      modifies this`cursor
      ensures ReadsRoute(old(Rest()), r)
    {
      hide Lexed, ReadsRoute, ReadsPage, NameOf;
      ghost var ts := Rest();
      var ok := Expect(Slash);
      if !ok {
        NotARoute(ts);
        return None;
      }
      var end := End();
      if end {
        RootRoute(ts);
        return Some(Repositories);
      }
      ghost var n := Span(ts[1..], {Boundary, GitSuffix});
      var run := TakeUntil({Boundary, GitSuffix});
      var repo := DecodeName(run, true);
      if repo == None {
        NoRepository(ts);
        return None;
      }
      var page := AfterRepository();
      RepositoryRoute(ts, repo.value, page);
      r := if page.Some? then Some(Repository(repo.value, page.value)) else None;
    }
  }

  /* The branches of `RevisionViewPage`. */

  predicate RevisionViewWord(word: bytes) {
    word in ["log", "tree", "blame", "archive", "archive-signature", "feed"]
  }

  lemma NotARevisionView(ts: seq<Token>, rev: Revision)
    requires ts == [] || ts[0].kind != Text || !RevisionViewWord(ts[0].raw)
    ensures ReadsRevisionView(ts, rev, None)
  {
  }

  lemma RevisionViewHead(ts: seq<Token>, rev: Revision, page: Page)
    requires RevisionView(ts, rev, page)
    ensures ts != [] && ts[0].kind == Text
    ensures match page
            case Log(_, _) => ts[0].raw == "log"
            case Tree(_, _) => ts[0].raw == "tree"
            case Archive(_, _) => ts[0].raw == "archive"
            case Blame(_, _) => ts[0].raw == "blame"
            case ArchiveSignature(_) => ts[0].raw == "archive-signature"
            case AtomFeed(_, _) => ts[0].raw == "feed"
            case _ => false
  {
  }

  function WithPath(page: Page, path: Option<bytes>): Page
    requires page.Log? || page.Tree? || page.Archive?
  {
    match page
    case Log(rev, _) => Log(rev, path)
    case Tree(rev, _) => Tree(rev, path)
    case Archive(rev, _) => Archive(rev, path)
  }

  lemma PathView(ts: seq<Token>, rev: Revision, page: Page, path: Option<Option<bytes>>)
    requires page in {Log(rev, None), Tree(rev, None), Archive(rev, None)}
    requires ts != [] && ts[0] == T(if page.Log? then "log" else if page.Tree? then "tree" else "archive")
    requires ReadsOptionalPath(ts[1..], Slash, path)
    ensures ReadsRevisionView(ts, rev, if path.Some? then Some(WithPath(page, path.value)) else None)
  {
    hide OptionalPathOf;
    forall other | RevisionView(ts, rev, other)
      ensures path.Some?
    {
      RevisionViewHead(ts, rev, other);
      assert OptionalPathOf(ts[1..], Slash, other.path);
    }
  }

  lemma BlameView(ts: seq<Token>, rev: Revision, file: Option<bytes>)
    requires ts != [] && ts[0] == T("blame")
    requires file == if |ts| >= 2 && ts[1] == D(Slash) then NameOf(ts[2..], false) else None
    ensures ReadsRevisionView(ts, rev, if file.Some? then Some(Blame(rev, file.value)) else None)
  {
    hide NameOf;
    forall page | RevisionView(ts, rev, page)
      ensures file.Some?
    {
      RevisionViewHead(ts, rev, page);
    }
  }

  lemma SignatureView(ts: seq<Token>, rev: Revision)
    requires ts != [] && ts[0] == T("archive-signature")
    ensures ReadsRevisionView(ts, rev, if ts[1..] == [] then Some(ArchiveSignature(rev)) else None)
  {
    hide NameOf;
    if ts[1..] == [] {
      assert ts == [T("archive-signature")];
    }
    forall page | RevisionView(ts, rev, page)
      ensures ts[1..] == []
    {
      RevisionViewHead(ts, rev, page);
    }
  }

  lemma NotAFeed(ts: seq<Token>, rev: Revision)
    requires ts != [] && ts[0] == T("feed")
    requires !(|ts| >= 3 && ts[1] == D(Slash) && ts[2] == T("atom") && rev.Ref?)
    ensures ReadsRevisionView(ts, rev, None)
  {
    hide NameOf;
    forall page | RevisionView(ts, rev, page)
      ensures false
    {
      RevisionViewHead(ts, rev, page);
    }
  }

  lemma FeedView(ts: seq<Token>, name: bytes, path: Option<Option<bytes>>)
    requires |ts| >= 3 && ts[0] == T("feed") && ts[1] == D(Slash) && ts[2] == T("atom")
    requires ReadsOptionalPath(ts[3..], Slash, path)
    ensures ReadsRevisionView(ts, Ref(name), if path.Some? then Some(AtomFeed(name, path.value)) else None)
  {
    hide OptionalPathOf;
    forall page | RevisionView(ts, Ref(name), page)
      ensures path.Some?
    {
      RevisionViewHead(ts, Ref(name), page);
      assert OptionalPathOf(ts[3..], Slash, page.path);
    }
  }

  /* The branches of `Comparison`. */

  function ComparisonPage(patch: bool, old_rev: Revision, new_rev: Revision, path: Option<bytes>): Page {
    if patch then Patch(old_rev, new_rev, path) else Diff(old_rev, new_rev, path)
  }

  lemma SelectorRead(ts: seq<Token>, rev: Revision)
    requires ReadsRevision(ts, Some(rev))
    ensures RevisionOf(ts, rev)
  {
  }

  /** The tokens after the first range of a comparison. */
  ghost predicate RangeAt(ts: seq<Token>, w: seq<Token>) {
    HasRange(ts) && w == ts[Span(ts, {Boundary, Range}) + 1..]
  }

  ghost predicate HasRange(ts: seq<Token>) {
    var n := Span(ts, {Boundary, Range});
    n < |ts| && ts[n] == D(Range)
  }

  lemma NoComparison(ts: seq<Token>, patch: bool)
    requires ReadsRevision(ts[..Span(ts, {Boundary, Range})], None) || !HasRange(ts)
    ensures ReadsComparison(ts, patch, None)
  {
    hide RevisionOf, OptionalPathOf, ComparisonOf;
    forall old_rev, new_rev, path | ComparisonOf(ts, old_rev, new_rev, path)
      ensures false
    {
      ComparisonSplit(ts, old_rev, new_rev, path);
    }
  }

  lemma NoSecondRevision(ts: seq<Token>, w: seq<Token>, patch: bool)
    requires RangeAt(ts, w) && ReadsRevision(w[..Span(w, {Boundary, Range})], None)
    ensures ReadsComparison(ts, patch, None)
  {
    hide RevisionOf, OptionalPathOf, ComparisonOf;
    forall old_rev, new_rev, path | ComparisonOf(ts, old_rev, new_rev, path)
      ensures false
    {
      ComparisonSplit(ts, old_rev, new_rev, path);
    }
  }

  lemma ComparisonView(ts: seq<Token>, w: seq<Token>, patch: bool,
                       old_rev: Revision, new_rev: Revision, path: Option<Option<bytes>>)
    requires RangeAt(ts, w)
    requires RevisionOf(ts[..Span(ts, {Boundary, Range})], old_rev)
    requires RevisionOf(w[..Span(w, {Boundary, Range})], new_rev)
    requires ReadsOptionalPath(w[Span(w, {Boundary, Range})..], Boundary, path)
    ensures ReadsComparison(ts, patch,
      if path.Some? then Some(ComparisonPage(patch, old_rev, new_rev, path.value)) else None)
  {
    var n, m := Span(ts, {Boundary, Range}), Span(w, {Boundary, Range});
    hide RevisionOf, OptionalPathOf, ComparisonOf, Span, SelectorOf;
    if path.Some? {
      SelectorIs(ts[..n], old_rev);
      SelectorIs(w[..m], new_rev);
      Reassembled(ts, w, n, m);
      ComparisonIs(ts, ts[..n], w[..m], w[m..], old_rev, new_rev, path.value);
    } else {
      NoPathAfter(ts, w, patch);
    }
  }

  lemma Reassembled(ts: seq<Token>, w: seq<Token>, n: nat, m: nat)
    requires n < |ts| && w == ts[n + 1..] && m <= |w|
    ensures ts == ts[..n] + [ts[n]] + w[..m] + w[m..]
  {
  }

  lemma NoPathAfter(ts: seq<Token>, w: seq<Token>, patch: bool)
    requires RangeAt(ts, w) && ReadsOptionalPath(w[Span(w, {Boundary, Range})..], Boundary, None)
    ensures ReadsComparison(ts, patch, None)
  {
    hide RevisionOf, OptionalPathOf, ComparisonOf;
    forall a, b, p | ComparisonOf(ts, a, b, p)
      ensures false
    {
      ComparisonSplit(ts, a, b, p);
    }
  }

  lemma ComparisonIs(ts: seq<Token>, v: seq<Token>, w: seq<Token>, q: seq<Token>,
                     old_rev: Revision, new_rev: Revision, path: Option<bytes>)
    requires ts == v + [D(Range)] + w + q
    requires SelectorOf(v, old_rev) && SelectorOf(w, new_rev) && OptionalPathOf(q, Boundary, path)
    ensures ComparisonOf(ts, old_rev, new_rev, path)
  {
    hide SelectorOf, OptionalPathOf;
  }

  /* The branches of `View`. */

  ghost predicate OtherWord(ts: seq<Token>) {
    || ts == []
    || ts[0].kind != Text
    || (ts[0].raw !in ["about", "stats", "summary", "object", "diff", "patch"] && ts != [T("refs")])
  }

  function KeywordPage(word: bytes): Page {
    if word == "about" then About else if word == "stats" then Stats else Summary
  }

  lemma KeywordView(ts: seq<Token>)
    requires ts != [] && ts[0] in {T("about"), T("stats"), T("summary")}
    ensures ReadsView(ts, if ts[1..] == [] then Some(KeywordPage(ts[0].raw)) else None)
  {
    if ts[1..] == [] {
      assert ts == [ts[0]];
    }
    hide RevisionThenView, SelectorOf, ComparisonOf;
    forall page | ViewOf(ts, page)
      ensures ts[1..] == []
    {
      ViewHead(ts, page);
    }
  }

  lemma RefsView(ts: seq<Token>)
    requires |ts| == 1 && ts[0] == T("refs")
    ensures ReadsView(ts, Some(Refs))
  {
  }

  lemma ObjectView(ts: seq<Token>)
    requires ts != [] && ts[0] == T("object")
    ensures |ts| == 3 && ts[1] == D(Slash) && ts[2].kind == Text && ValidOid(ts[2].raw)
            ==> ReadsView(ts, Some(Object(ts[2].raw)))
    ensures !(|ts| == 3 && ts[1] == D(Slash) && ts[2].kind == Text && ValidOid(ts[2].raw))
            ==> ReadsView(ts, None)
  {
    if |ts| == 3 && ts[1] == D(Slash) && ts[2].kind == Text {
      assert ts == [T("object"), D(Slash), T(ts[2].raw)];
    }
    hide RevisionThenView, SelectorOf, ComparisonOf, ValidOid;
    forall page | ViewOf(ts, page)
      ensures page.Object?
    {
      ViewHead(ts, page);
      KeywordHead(ts, page);
    }
  }

  /** A keyword names its production. */
  lemma KeywordHead(ts: seq<Token>, page: Page)
    requires HeadOf(ts, page)
    ensures ts[0].raw == "object" ==> page.Object?
    ensures ts[0].raw == "diff" ==> page.Diff?
    ensures ts[0].raw == "patch" ==> page.Patch?
  {
  }

  lemma ComparisonKeyword(ts: seq<Token>, patch: bool, r: Option<Page>)
    requires ts != [] && ts[0] == T(if patch then "patch" else "diff")
    requires if |ts| >= 2 && ts[1] == D(Slash) then ReadsComparison(ts[2..], patch, r) else r == None
    ensures ReadsView(ts, r)
  {
    hide ComparisonOf;
    forall page | ViewOf(ts, page)
      ensures r.Some?
    {
      ViewHead(ts, page);
      KeywordHead(ts, page);
    }
  }

  lemma OtherFamily(ts: seq<Token>, page: Page)
    requires OtherWord(ts) && ViewOf(ts, page)
    ensures RevisionFamily(page)
  {
    ViewHead(ts, page);
    hide ViewOf;
  }

  lemma NoRevisionHere(ts: seq<Token>)
    requires OtherWord(ts) && ReadsRevision(ts[..Span(ts, {Boundary, Range})], None)
    ensures ReadsView(ts, None)
  {
    hide ViewOf, RevisionOf, RevisionView, OtherWord;
    forall page | ViewOf(ts, page)
      ensures false
    {
      OtherFamily(ts, page);
      var rev := RevisionFamilySplit(ts, page);
    }
  }

  lemma RevisionHere(ts: seq<Token>, rev: Revision)
    requires Span(ts, {Boundary, Range}) == |ts| && RevisionOf(ts[..|ts|], rev)
    ensures ReadsView(ts, Some(RevisionPage(rev)))
  {
    hide RevisionOf;
    assert ts[..|ts|] == ts;
  }

  lemma RangeAfterRevision(ts: seq<Token>)
    requires OtherWord(ts)
    requires var n := Span(ts, {Boundary, Range}); n < |ts| && ts[n] != D(Boundary)
    ensures ReadsView(ts, None)
  {
    hide ViewOf, RevisionOf, RevisionView, OtherWord;
    forall page | ViewOf(ts, page)
      ensures false
    {
      OtherFamily(ts, page);
      var rev := RevisionFamilySplit(ts, page);
    }
  }

  lemma ViewAfterRevision(ts: seq<Token>, rev: Revision, r: Option<Page>)
    requires OtherWord(ts)
    requires var n := Span(ts, {Boundary, Range});
      && n < |ts| && ts[n] == D(Boundary) && RevisionOf(ts[..n], rev)
      && ReadsRevisionView(ts[n + 1..], rev, r)
    ensures ReadsView(ts, r)
  {
    hide ViewOf, RevisionOf, RevisionView, OtherWord, SelectorOf;
    var n := Span(ts, {Boundary, Range});
    if r.Some? {
      assert ts == ts[..n] + [D(Boundary)] + ts[n + 1..];
      assert SelectorOf(ts[..n], rev) by { SelectorIs(ts[..n], rev); }
      RevisionViewIsView(ts, ts[..n], rev, ts[n + 1..], r.value);
    } else {
      forall page | ViewOf(ts, page)
        ensures false
      {
        OtherFamily(ts, page);
        var other := RevisionFamilySplit(ts, page);
        RevisionUnique(ts[..n], rev, other);
      }
    }
  }

  lemma SelectorIs(ts: seq<Token>, rev: Revision)
    requires Free(ts, {Boundary, Range}) && RevisionOf(ts, rev)
    ensures SelectorOf(ts, rev)
  {
  }

  lemma RevisionViewIsView(ts: seq<Token>, v: seq<Token>, rev: Revision, q: seq<Token>, page: Page)
    requires ts == v + [D(Boundary)] + q && SelectorOf(v, rev) && RevisionView(q, rev, page)
    ensures ViewOf(ts, page)
  {
    assert RevisionThenView(ts, page);
    hide SelectorOf, RevisionThenView;
  }

  /* The branches of `Git`. */

  lemma GitEnd(ts: seq<Token>)
    requires ts == []
    ensures ReadsGit(ts, Some(GitClone))
  {
  }

  predicate GitWord(word: bytes) {
    word in ["info", "git-upload-pack", "git-receive-pack", "HEAD", "objects"]
  }

  /** A keyword names its production. */
  lemma GitKeywordHead(ts: seq<Token>, page: Page)
    requires GitOf(ts, page) && ts != []
    ensures |ts| >= 2 && ts[0] == D(Slash) && ts[1].kind == Text
    ensures match page
            case GitUploadPack => ts[1].raw == "git-upload-pack"
            case GitReceivePack => ts[1].raw == "git-receive-pack"
            case GitHead => ts[1].raw == "HEAD"
            case GitObjects(_) => ts[1].raw == "objects"
            case GitInfoRefs => ts[1].raw == "info" && ts[2] == D(Slash) && ts[3] == T("refs") && |ts| == 4
            case GitLfs(_) => ts[1].raw == "info" && |ts| >= 5 && ts[2] == D(Slash) && ts[3] == T("lfs")
            case _ => false
  {
    hide NameOf;
  }

  lemma NotGit(ts: seq<Token>)
    requires ts != [] && !(|ts| >= 2 && ts[0] == D(Slash) && ts[1].kind == Text && GitWord(ts[1].raw))
    ensures ReadsGit(ts, None)
  {
    hide GitOf;
    forall page | GitOf(ts, page)
      ensures false
    {
      GitKeywordHead(ts, page);
    }
  }

  function ServicePage(word: bytes): Page {
    if word == "git-upload-pack" then GitUploadPack else if word == "git-receive-pack" then GitReceivePack else GitHead
  }

  lemma GitService(ts: seq<Token>)
    requires |ts| >= 2 && ts[0] == D(Slash)
    requires ts[1] in {T("git-upload-pack"), T("git-receive-pack"), T("HEAD")}
    ensures ReadsGit(ts, if ts[2..] == [] then Some(ServicePage(ts[1].raw)) else None)
  {
    if ts[2..] == [] {
      assert ts == [ts[0], ts[1]];
    }
    hide NameOf;
    forall page | GitOf(ts, page)
      ensures ts[2..] == []
    {
      GitKeywordHead(ts, page);
    }
  }

  lemma ObjectsView(ts: seq<Token>, file: Option<bytes>)
    requires |ts| >= 2 && ts[0] == D(Slash) && ts[1] == T("objects")
    requires file == if |ts| >= 3 && ts[2] == D(Slash) then NameOf(ts[3..], false) else None
    ensures ReadsGit(ts, if file.Some? then Some(GitObjects(file.value)) else None)
  {
    hide NameOf;
    forall page | GitOf(ts, page)
      ensures file.Some?
    {
      GitKeywordHead(ts, page);
    }
  }

  lemma NotInfo(ts: seq<Token>)
    requires |ts| >= 2 && ts[0] == D(Slash) && ts[1] == T("info")
    requires !(|ts| >= 4 && ts[2] == D(Slash) && ts[3] in {T("refs"), T("lfs")})
    ensures ReadsGit(ts, None)
  {
    hide GitOf;
    forall page | GitOf(ts, page)
      ensures false
    {
      GitKeywordHead(ts, page);
    }
  }

  lemma InfoRefsView(ts: seq<Token>)
    requires |ts| >= 4 && ts[0] == D(Slash) && ts[1] == T("info") && ts[2] == D(Slash) && ts[3] == T("refs")
    ensures ReadsGit(ts, if ts[4..] == [] then Some(GitInfoRefs) else None)
  {
    if ts[4..] == [] {
      assert ts == [ts[0], ts[1], ts[2], ts[3]];
    }
    hide NameOf;
    forall page | GitOf(ts, page)
      ensures ts[4..] == []
    {
      GitKeywordHead(ts, page);
    }
  }

  lemma LfsView(ts: seq<Token>, file: Option<bytes>)
    requires |ts| >= 4 && ts[0] == D(Slash) && ts[1] == T("info") && ts[2] == D(Slash) && ts[3] == T("lfs")
    requires file == if |ts| >= 5 && ts[4] == D(Slash) then NameOf(ts[5..], false) else None
    ensures ReadsGit(ts, if file.Some? then Some(GitLfs(file.value)) else None)
  {
    hide NameOf;
    forall page | GitOf(ts, page)
      ensures file.Some?
    {
      GitKeywordHead(ts, page);
    }
  }

  /* The branches of `Parse`. */

  lemma NotARoute(ts: seq<Token>)
    requires ts == [] || ts[0] != D(Slash)
    ensures ReadsRoute(ts, None)
  {
    hide RepoOf, PageOf;
  }

  lemma RootRoute(ts: seq<Token>)
    requires ts != [] && ts[0] == D(Slash) && ts[1..] == []
    ensures ReadsRoute(ts, Some(Repositories))
  {
    assert ts == [ts[0]];
  }

  lemma NoRepository(ts: seq<Token>)
    requires |ts| > 1 && NameOf(ts[1..][..Span(ts[1..], {Boundary, GitSuffix})], true) == None
    ensures ReadsRoute(ts, None)
  {
    forall route | Derives(ts, route)
      ensures false
    {
      hide NameOf, PageOf, Derives;
      if route.Repository? {
        RouteSplit(ts, route.repo, route.page);
      } else {
        RootIsShort(ts);
      }
    }
  }

  lemma RootIsShort(ts: seq<Token>)
    requires Derives(ts, Repositories)
    ensures |ts| == 1
  {
  }

  ghost predicate ReadsPage(ts: seq<Token>, r: Option<Page>) {
    match r
    case Some(page) => PageOf(ts, page)
    case None => forall page :: !PageOf(ts, page)
  }

  lemma PageRead(q: seq<Token>)
    ensures q == [] ==> ReadsPage(q, Some(Overview))
    ensures q != [] && q[0] == D(Boundary) ==> forall r | ReadsView(q[1..], r) :: ReadsPage(q, r)
    ensures q != [] && q[0] == D(GitSuffix) ==> forall r | ReadsGit(q[1..], r) :: ReadsPage(q, r)
  {
    hide ViewOf, GitOf;
  }

  lemma RepositoryRoute(ts: seq<Token>, repo: bytes, r: Option<Page>)
    requires |ts| > 1 && ts[0] == D(Slash)
    requires var n := Span(ts[1..], {Boundary, GitSuffix});
      NameOf(ts[1..][..n], true) == Some(repo) && ReadsPage(ts[1..][n..], r)
    ensures ReadsRoute(ts, if r.Some? then Some(Repository(repo, r.value)) else None)
  {
    hide NameOf, PageOf;
    var n := Span(ts[1..], {Boundary, GitSuffix});
    if r.Some? {
      var v, q := ts[1..][..n], ts[1..][n..];
      assert ts == [D(Slash)] + v + q;
      assert RepoOf(v, repo) && PageOf(q, r.value);
    } else {
      forall route | Derives(ts, route)
        ensures false
      {
        if route.Repository? {
          RouteSplit(ts, route.repo, route.page);
        }
      }
    }
  }

  /** `router::parse`: the answer is the one route that the path denotes, and an error when there is none. */
  method ParsePath(path: bytes) returns (r: Option<Route>)
    ensures forall route :: r == Some(route) <==> Denotes(path, route)
  {
    var tokens := Lex(path);
    if tokens == None {
      return None;
    }
    var parser := new Parser(tokens.value);
    r := parser.Parse();
    Answered(path, r);
  }

  lemma Answered(path: bytes, r: Option<Route>)
    requires Tokens(path).Some? && ReadsRoute(Tokens(path).value, r)
    ensures forall route :: r == Some(route) <==> Denotes(path, route)
  {
    hide Derives;
    if r.Some? {
      forall route | Denotes(path, route)
        ensures route == r.value
      {
        Unambiguous(Tokens(path).value, route, r.value);
      }
    }
  }
}
