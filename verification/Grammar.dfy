/** The documented URL scheme as a grammar over tokens: which token sequences derive which route. */
module Grammar {
  import opened Wrappers
  import opened Bytes
  import opened Lexer
  import opened Names

  datatype Revision = Head | Ref(name: bytes) | Commit(oid: bytes)

  /** Every route but the repository list belongs to a repository. */
  datatype Route = Repositories | Repository(repo: bytes, page: Page)

  datatype Page =
    | Overview | About | Stats | Summary
    | Object(oid: bytes)
    | Refs
    | RevisionPage(rev: Revision)
    | Log(rev: Revision, path: Option<bytes>)
    | Tree(rev: Revision, path: Option<bytes>)
    | Blame(rev: Revision, file: bytes)
    | Archive(rev: Revision, path: Option<bytes>)
    | ArchiveSignature(rev: Revision)
    | AtomFeed(reference: bytes, path: Option<bytes>)
    | Diff(old_rev: Revision, new_rev: Revision, path: Option<bytes>)
    | Patch(old_rev: Revision, new_rev: Revision, path: Option<bytes>)
    | GitClone | GitInfoRefs | GitUploadPack | GitReceivePack | GitHead
    | GitObjects(file: bytes)
    | GitLfs(file: bytes)

  function T(raw: bytes): Token {
    Token(Text, raw)
  }

  function D(kind: Kind): Token
    requires kind != Text
  {
    Token(kind, Literal(kind))
  }

  predicate ValidOid(value: bytes) {
    (|value| == 40 || |value| == 64) && forall c | c in value :: IsLowerHex(c)
  }

  predicate ForbiddenInRef(c: char) {
    c < ' ' || c as int == 0x7f || c in " ~^:?*[\\"
  }

  predicate ValidRefPart(part: string) {
    && part != ""
    && !StartsWith(part, ".")
    && !EndsWith(part, ".lock")
    && forall c | c in part :: !ForbiddenInRef(c)
  }

  predicate ValidRef(value: bytes) {
    && !EndsWith(value, ".")
    && !Contains(value, "..")
    && !Contains(value, "@{")
    && forall part | part in Split(value, '/') :: ValidRefPart(part)
  }

  ghost predicate Free(ts: seq<Token>, stops: set<Kind>) {
    forall i | 0 <= i < |ts| :: ts[i].kind !in stops
  }

  ghost predicate PathOf(ts: seq<Token>, path: bytes) {
    NameOf(ts, false) == Some(path)
  }

  ghost predicate RepoOf(ts: seq<Token>, repo: bytes) {
    Free(ts, {Boundary, GitSuffix}) && NameOf(ts, true) == Some(repo)
  }

  ghost predicate OptionalPathOf(ts: seq<Token>, separator: Kind, path: Option<bytes>)
    requires separator != Text
  {
    match path
    case None => ts == []
    case Some(p) => ts != [] && ts[0] == D(separator) && PathOf(ts[1..], p)
  }

  /** `{rev*}`: a full commit id, `refs/{ref*}` or `HEAD`. */
  ghost predicate RevisionOf(ts: seq<Token>, rev: Revision) {
    match rev
    case Head => ts == [T("HEAD")]
    case Commit(oid) => ts == [T(oid)] && ValidOid(oid)
    case Ref(name) =>
      && |ts| >= 2 && ts[0] == T("refs") && ts[1] == D(Slash)
      && NameOf(ts[2..], false).Some? && name == "refs/" + NameOf(ts[2..], false).value
      && ValidRef(name)
  }

  /** A revision selector ends at the next boundary or range. */
  ghost predicate SelectorOf(ts: seq<Token>, rev: Revision) {
    Free(ts, {Boundary, Range}) && RevisionOf(ts, rev)
  }

  /** What follows `/{repo*}/+/{rev*}/+/`. */
  ghost predicate RevisionView(ts: seq<Token>, rev: Revision, page: Page) {
    match page
    case Log(r, path) => r == rev && ts != [] && ts[0] == T("log") && OptionalPathOf(ts[1..], Slash, path)
    case Tree(r, path) => r == rev && ts != [] && ts[0] == T("tree") && OptionalPathOf(ts[1..], Slash, path)
    case Archive(r, path) => r == rev && ts != [] && ts[0] == T("archive") && OptionalPathOf(ts[1..], Slash, path)
    case Blame(r, file) => r == rev && |ts| >= 2 && ts[0] == T("blame") && ts[1] == D(Slash) && PathOf(ts[2..], file)
    case ArchiveSignature(r) => r == rev && ts == [T("archive-signature")]
    case AtomFeed(reference, path) =>
      && rev == Ref(reference) && |ts| >= 3 && ts[0] == T("feed") && ts[1] == D(Slash) && ts[2] == T("atom")
      && OptionalPathOf(ts[3..], Slash, path)
    case _ => false
  }

  /** `{old_rev*}..{new_rev*}`, optionally followed by `/+/{path*}`. */
  ghost predicate ComparisonOf(ts: seq<Token>, old_rev: Revision, new_rev: Revision, path: Option<bytes>) {
    exists v, w, q ::
      && ts == v + [D(Range)] + w + q
      && SelectorOf(v, old_rev) && SelectorOf(w, new_rev) && OptionalPathOf(q, Boundary, path)
  }

  ghost predicate RevisionThenView(ts: seq<Token>, page: Page) {
    exists v, q, rev :: ts == v + [D(Boundary)] + q && SelectorOf(v, rev) && RevisionView(q, rev, page)
  }

  /** What follows `/{repo*}/+/`. */
  ghost predicate ViewOf(ts: seq<Token>, page: Page) {
    match page
    case About => ts == [T("about")]
    case Stats => ts == [T("stats")]
    case Summary => ts == [T("summary")]
    case Refs => ts == [T("refs")]
    case Object(oid) => ts == [T("object"), D(Slash), T(oid)] && ValidOid(oid)
    case Diff(old_rev, new_rev, path) =>
      |ts| >= 2 && ts[0] == T("diff") && ts[1] == D(Slash) && ComparisonOf(ts[2..], old_rev, new_rev, path)
    case Patch(old_rev, new_rev, path) =>
      |ts| >= 2 && ts[0] == T("patch") && ts[1] == D(Slash) && ComparisonOf(ts[2..], old_rev, new_rev, path)
    case RevisionPage(rev) => SelectorOf(ts, rev)
    case _ => RevisionThenView(ts, page)
  }

  /** What follows `/{repo*}.git`. */
  ghost predicate GitOf(ts: seq<Token>, page: Page) {
    match page
    case GitClone => ts == []
    case GitInfoRefs => ts == [D(Slash), T("info"), D(Slash), T("refs")]
    case GitUploadPack => ts == [D(Slash), T("git-upload-pack")]
    case GitReceivePack => ts == [D(Slash), T("git-receive-pack")]
    case GitHead => ts == [D(Slash), T("HEAD")]
    case GitObjects(file) =>
      |ts| >= 3 && ts[0] == D(Slash) && ts[1] == T("objects") && ts[2] == D(Slash) && PathOf(ts[3..], file)
    case GitLfs(file) =>
      && |ts| >= 5 && ts[0] == D(Slash) && ts[1] == T("info") && ts[2] == D(Slash) && ts[3] == T("lfs")
      && ts[4] == D(Slash) && PathOf(ts[5..], file)
    case _ => false
  }

  /** What follows `/{repo*}`. */
  ghost predicate PageOf(ts: seq<Token>, page: Page) {
    if ts == [] then page == Overview
    else if ts[0] == D(Boundary) then ViewOf(ts[1..], page)
    else ts[0] == D(GitSuffix) && GitOf(ts[1..], page)
  }

  ghost predicate Derives(ts: seq<Token>, route: Route) {
    match route
    case Repositories => ts == [D(Slash)]
    case Repository(repo, page) =>
      exists n, q :: ts == [D(Slash)] + n + q && RepoOf(n, repo) && PageOf(q, page)
  }

  /** The route that a request path denotes. */
  ghost predicate Denotes(path: bytes, route: Route) {
    Tokens(path).Some? && Derives(Tokens(path).value, route)
  }

  /* Runs up to a stop: the split of a sentence is determined by its tokens. */

  function Span(ts: seq<Token>, stops: set<Kind>): (n: nat)
    ensures n <= |ts|
    ensures Free(ts[..n], stops)
    ensures n < |ts| ==> ts[n].kind in stops
  {
    if ts == [] || ts[0].kind in stops then 0
    else
      var n := Span(ts[1..], stops);
      assert ts[..n + 1] == [ts[0]] + ts[1..][..n];
      n + 1
  }

  lemma SplitUnique(v: seq<Token>, q: seq<Token>, stops: set<Kind>)
    requires Free(v, stops) && (q == [] || q[0].kind in stops)
    ensures Span(v + q, stops) == |v|
    ensures (v + q)[..|v|] == v && (v + q)[|v|..] == q
  {
    var ts := v + q;
    var n := Span(ts, stops);
    assert forall i | 0 <= i < n :: ts[..n][i] == ts[i];
    assert forall i | 0 <= i < |v| :: ts[i] == v[i];
    assert q != [] ==> ts[|v|] == q[0];
  }

  lemma SplitAt(ts: seq<Token>, v: seq<Token>, x: Token, q: seq<Token>, stops: set<Kind>)
    requires ts == v + [x] + q && Free(v, stops) && x.kind in stops
    ensures Span(ts, stops) == |v| < |ts|
    ensures ts[..|v|] == v && ts[|v|] == x && ts[|v| + 1..] == q
  {
    assert ts == v + ([x] + q);
    SplitUnique(v, [x] + q, stops);
  }

  /* The grammar is unambiguous. */

  lemma RevisionUnique(ts: seq<Token>, a: Revision, b: Revision)
    requires RevisionOf(ts, a) && RevisionOf(ts, b)
    ensures a == b
  {
  }

  lemma OptionalPathUnique(ts: seq<Token>, separator: Kind, a: Option<bytes>, b: Option<bytes>)
    requires separator != Text && OptionalPathOf(ts, separator, a) && OptionalPathOf(ts, separator, b)
    ensures a == b
  {
  }

  /** A comparison read from left to right. */
  lemma ComparisonSplit(ts: seq<Token>, old_rev: Revision, new_rev: Revision, path: Option<bytes>)
    requires ComparisonOf(ts, old_rev, new_rev, path)
    ensures var n := Span(ts, {Boundary, Range});
            n < |ts| && ts[n] == D(Range) && RevisionOf(ts[..n], old_rev)
            && var w := ts[n + 1..];
               var m := Span(w, {Boundary, Range});
               RevisionOf(w[..m], new_rev) && OptionalPathOf(w[m..], Boundary, path)
  {
    hide RevisionOf, OptionalPathOf;
    var v, w, q :| && ts == v + [D(Range)] + w + q
                   && SelectorOf(v, old_rev) && SelectorOf(w, new_rev) && OptionalPathOf(q, Boundary, path);
    assert ts == v + [D(Range)] + (w + q);
    SplitAt(ts, v, D(Range), w + q, {Boundary, Range});
    OptionalPathHead(q, Boundary, path);
    SplitUnique(w, q, {Boundary, Range});
  }

  lemma OptionalPathHead(ts: seq<Token>, separator: Kind, path: Option<bytes>)
    requires separator != Text && OptionalPathOf(ts, separator, path)
    ensures ts == [] || ts[0].kind == separator
  {
  }

  lemma RevisionThenViewSplit(ts: seq<Token>, page: Page) returns (rev: Revision)
    requires RevisionThenView(ts, page)
    ensures var n := Span(ts, {Boundary, Range});
            n < |ts| && ts[n] == D(Boundary) && SelectorOf(ts[..n], rev) && RevisionView(ts[n + 1..], rev, page)
  {
    hide RevisionOf, RevisionView;
    var v, q, r :| ts == v + [D(Boundary)] + q && SelectorOf(v, r) && RevisionView(q, r, page);
    rev := r;
    SplitAt(ts, v, D(Boundary), q, {Boundary, Range});
  }

  lemma RevisionViewUnique(ts: seq<Token>, rev: Revision, a: Page, b: Page)
    requires RevisionView(ts, rev, a) && RevisionView(ts, rev, b)
    ensures a == b
  {
  }

  lemma ComparisonUnique(ts: seq<Token>, a: Revision, b: Revision, p: Option<bytes>,
                         a': Revision, b': Revision, p': Option<bytes>)
    requires ComparisonOf(ts, a, b, p) && ComparisonOf(ts, a', b', p')
    ensures a == a' && b == b' && p == p'
  {
    hide RevisionOf, OptionalPathOf;
    ComparisonSplit(ts, a, b, p);
    ComparisonSplit(ts, a', b', p');
    var n := Span(ts, {Boundary, Range});
    var w := ts[n + 1..];
    var m := Span(w, {Boundary, Range});
    RevisionUnique(ts[..n], a, a');
    RevisionUnique(w[..m], b, b');
    OptionalPathUnique(w[m..], Boundary, p, p');
  }

  /** Which branch of the scheme a sentence after `/+/` belongs to, by its first token. */
  ghost predicate HeadOf(ts: seq<Token>, page: Page) {
    && ts != [] && ts[0].kind == Text
    && match page
       case About => ts[0].raw == "about"
       case Stats => ts[0].raw == "stats"
       case Summary => ts[0].raw == "summary"
       case Object(_) => ts[0].raw == "object"
       case Diff(_, _, _) => ts[0].raw == "diff"
       case Patch(_, _, _) => ts[0].raw == "patch"
       case Refs => ts == [T("refs")]
       case _ => RevisionWord(ts)
  }

  ghost predicate RevisionWord(ts: seq<Token>)
    requires ts != []
  {
    ts[0].raw == "HEAD" || ValidOid(ts[0].raw) || (|ts| > 1 && ts[0].raw == "refs")
  }

  lemma ViewHead(ts: seq<Token>, page: Page)
    requires ViewOf(ts, page)
    ensures HeadOf(ts, page)
  {
    if page.RevisionPage? {
      RevisionHead(ts, page.rev);
    } else if RevisionThenView(ts, page) {
      var rev := RevisionThenViewSplit(ts, page);
      var n := Span(ts, {Boundary, Range});
      hide RevisionOf, RevisionView, ViewOf, RevisionThenView;
      RevisionHead(ts[..n], rev);
      assert ts[..n][0] == ts[0];
    }
  }

  lemma RevisionHead(ts: seq<Token>, rev: Revision)
    requires RevisionOf(ts, rev)
    ensures ts != [] && ts[0].kind == Text && RevisionWord(ts)
  {
  }

  predicate RevisionFamily(page: Page) {
    match page
    case About | Stats | Summary | Refs | Object(_) | Diff(_, _, _) | Patch(_, _, _) => false
    case _ => true
  }

  /** A page of the revision family, read from left to right. */
  lemma RevisionFamilySplit(ts: seq<Token>, page: Page) returns (rev: Revision)
    requires ViewOf(ts, page) && RevisionFamily(page)
    ensures var n := Span(ts, {Boundary, Range});
      && RevisionOf(ts[..n], rev)
      && (n == |ts| ==> page == RevisionPage(rev))
      && (n < |ts| ==> ts[n] == D(Boundary) && RevisionView(ts[n + 1..], rev, page))
  {
    if page.RevisionPage? {
      rev := page.rev;
      hide RevisionOf;
      SplitUnique(ts, [], {Boundary, Range});
      assert ts + [] == ts;
    } else {
      rev := RevisionThenViewSplit(ts, page);
    }
  }

  lemma RevisionFamilyUnique(ts: seq<Token>, a: Page, b: Page)
    requires ViewOf(ts, a) && ViewOf(ts, b) && RevisionFamily(a) && RevisionFamily(b)
    ensures a == b
  {
    hide ViewOf, RevisionOf, RevisionView;
    var r := RevisionFamilySplit(ts, a);
    var r' := RevisionFamilySplit(ts, b);
    var n := Span(ts, {Boundary, Range});
    RevisionUnique(ts[..n], r, r');
    if n < |ts| {
      RevisionViewUnique(ts[n + 1..], r, a, b);
    }
  }

  /** The keywords of the scheme are neither revisions nor one another. */
  lemma SameFamily(ts: seq<Token>, a: Page, b: Page)
    requires HeadOf(ts, a) && HeadOf(ts, b)
    ensures RevisionFamily(a) == RevisionFamily(b)
    ensures !RevisionFamily(a) ==>
      && (a.About? == b.About?) && (a.Stats? == b.Stats?) && (a.Summary? == b.Summary?) && (a.Refs? == b.Refs?)
      && (a.Object? == b.Object?) && (a.Diff? == b.Diff?) && (a.Patch? == b.Patch?)
  {
  }

  lemma ViewUnique(ts: seq<Token>, a: Page, b: Page)
    requires ViewOf(ts, a) && ViewOf(ts, b)
    ensures a == b
  {
    ViewHead(ts, a);
    ViewHead(ts, b);
    SameFamily(ts, a, b);
    hide HeadOf;
    if RevisionFamily(a) {
      RevisionFamilyUnique(ts, a, b);
    } else if a.Diff? || a.Patch? {
      ComparisonUnique(ts[2..], a.old_rev, a.new_rev, a.path, b.old_rev, b.new_rev, b.path);
    }
  }

  lemma GitUnique(ts: seq<Token>, a: Page, b: Page)
    requires GitOf(ts, a) && GitOf(ts, b)
    ensures a == b
  {
    hide NameOf;
  }

  lemma PageUnique(ts: seq<Token>, a: Page, b: Page)
    requires PageOf(ts, a) && PageOf(ts, b)
    ensures a == b
  {
    hide GitOf, ViewOf;
    if ts != [] {
      if ts[0] == D(Boundary) {
        ViewUnique(ts[1..], a, b);
      } else {
        GitUnique(ts[1..], a, b);
      }
    }
  }

  /** A sentence that derives a repository route, read from left to right. */
  lemma RouteSplit(ts: seq<Token>, repo: bytes, page: Page)
    requires Derives(ts, Repository(repo, page))
    ensures ts != [] && ts[0] == D(Slash)
    ensures var n := Span(ts[1..], {Boundary, GitSuffix});
      n > 0 && NameOf(ts[1..][..n], true) == Some(repo) && PageOf(ts[1..][n..], page)
  {
    hide NameOf, PageOf;
    var n, q :| ts == [D(Slash)] + n + q && RepoOf(n, repo) && PageOf(q, page);
    assert ts[1..] == n + q;
    PageHead(q, page);
    NameNonEmpty(n, true);
    SplitUnique(n, q, {Boundary, GitSuffix});
  }

  lemma PageHead(ts: seq<Token>, page: Page)
    requires PageOf(ts, page)
    ensures ts == [] || ts[0].kind == Boundary || ts[0].kind == GitSuffix
  {
  }

  lemma NameNonEmpty(ts: seq<Token>, repo: bool)
    requires NameOf(ts, repo).Some?
    ensures ts != []
  {
  }

  /** No path has two readings. */
  lemma Unambiguous(ts: seq<Token>, a: Route, b: Route)
    requires Derives(ts, a) && Derives(ts, b)
    ensures a == b
  {
    hide PageOf, NameOf;
    if a.Repository? {
      RouteSplit(ts, a.repo, a.page);
    }
    if b.Repository? {
      RouteSplit(ts, b.repo, b.page);
    }
    if a.Repository? && b.Repository? {
      PageUnique(ts[1..][Span(ts[1..], {Boundary, GitSuffix})..], a.page, b.page);
    }
  }
}
