/** Printing a route and parsing it again: exactly the well-named routes survive. */
module RoundTrip {
  import opened Wrappers
  import opened Bytes
  import opened Utf8
  import opened Percent
  import opened Lexer
  import opened Names
  import opened Grammar
  import opened Parts
  import opened Urls
  import opened RefShapes
  import opened Spellings
  import opened TextDelimiters
  import opened SpelledNames
  import opened SpelledPieces
  import opened SpelledRoutes
  import opened SpelledTexts

  /* Which names, revisions and routes survive; a caller can check each of these before printing. */

  predicate NoEmptyPart(x: bytes) {
    forall part | part in Split(x, '/') :: part != ""
  }

  /** No empty component and no NUL. */
  predicate GoodName(x: bytes) {
    NUL !in x && NoEmptyPart(x)
  }

  predicate GoodRevision(rev: Revision) {
    match rev
    case Head => true
    case Ref(name) => "refs/" <= name && ValidRef(name)
    case Commit(oid) => ValidOid(oid)
  }

  predicate GoodPath(path: Option<bytes>) {
    path.Some? ==> GoodName(path.value)
  }

  predicate GoodPage(page: Page) {
    match page
    case Object(oid) => ValidOid(oid)
    case RevisionPage(rev) => GoodRevision(rev)
    case Log(rev, path) => GoodRevision(rev) && GoodPath(path)
    case Tree(rev, path) => GoodRevision(rev) && GoodPath(path)
    case Blame(rev, file) => GoodRevision(rev) && GoodName(file)
    case Archive(rev, path) => GoodRevision(rev) && GoodPath(path)
    case ArchiveSignature(rev) => GoodRevision(rev)
    case AtomFeed(reference, path) => GoodRevision(Ref(reference)) && GoodPath(path)
    case Diff(old_rev, new_rev, path) => GoodRevision(old_rev) && GoodRevision(new_rev) && GoodPath(path)
    case Patch(old_rev, new_rev, path) => GoodRevision(old_rev) && GoodRevision(new_rev) && GoodPath(path)
    case GitObjects(file) => GoodName(file)
    case GitLfs(file) => GoodName(file)
    case _ => true
  }

  predicate GoodRoute(route: Route) {
    route.Repository? ==> GoodName(route.repo) && GoodPage(route.page)
  }

  /* The strings of a route are Rust strings, so they are UTF-8. */

  predicate StringPath(path: Option<bytes>) {
    path.Some? ==> Valid(path.value)
  }

  predicate StringPage(page: Page) {
    match page
    case Object(oid) => Valid(oid)
    case RevisionPage(rev) => Valid(Selector(rev))
    case Log(rev, path) => Valid(Selector(rev)) && StringPath(path)
    case Tree(rev, path) => Valid(Selector(rev)) && StringPath(path)
    case Blame(rev, file) => Valid(Selector(rev)) && Valid(file)
    case Archive(rev, path) => Valid(Selector(rev)) && StringPath(path)
    case ArchiveSignature(rev) => Valid(Selector(rev))
    case AtomFeed(reference, path) => Valid(reference) && StringPath(path)
    case Diff(old_rev, new_rev, path) => Valid(Selector(old_rev)) && Valid(Selector(new_rev)) && StringPath(path)
    case Patch(old_rev, new_rev, path) => Valid(Selector(old_rev)) && Valid(Selector(new_rev)) && StringPath(path)
    case GitObjects(file) => Valid(file)
    case GitLfs(file) => Valid(file)
    case _ => true
  }

  predicate StringRoute(route: Route) {
    route.Repository? ==> Valid(route.repo) && StringPage(route.page)
  }

  /* Printed names. */

  /** None of the bytes that a component can be refused for. */
  predicate Harmless(s: string) {
    forall c | c in s :: c !in "?#.+-"
  }

  lemma ByteHarmless(c: byte, style: Style)
    requires style.path
    ensures Harmless(EncodedByte(c, style))
    ensures c != '/' ==> '/' !in EncodedByte(c, style)
    ensures c == '/' ==> EncodedByte(c, style) == "/"
  {
    if !Safe(c, style) {
      DigitHarmless(c as int / 16, style.upper);
      DigitHarmless(c as int % 16, style.upper);
      hide HexDigit;
    }
  }

  lemma DigitHarmless(n: nat, upper: bool)
    requires n < 16
    ensures HexDigit(n, upper) !in "?#.+-/%"
  {
  }

  lemma {:induction false} EncodedHarmless(x: bytes, upper: bool)
    ensures Harmless(EncodedPath(x, upper))
  {
    if x == [] {
    } else {
      EncodedHarmless(x[1..], upper);
      ByteHarmless(x[0], Style(true, upper));
      hide EncodedByte;
    }
  }

  /** The same components are empty. */
  predicate EmptyAlike(parts: seq<string>, names: seq<string>) {
    |parts| == |names| && forall i | 0 <= i < |parts| :: parts[i] == "" <==> names[i] == ""
  }

  lemma AlikeCons(parts: seq<string>, names: seq<string>, p: string, q: string)
    requires EmptyAlike(parts, names) && names != [] && (p == "" <==> q == "")
    ensures EmptyAlike([p] + parts, [q] + names) && EmptyAlike([p] + parts[1..], [q] + names[1..])
  {
  }

  lemma {:induction false} EncodedParts(x: bytes, upper: bool)
    ensures EmptyAlike(Split(EncodedPath(x, upper), '/'), Split(x, '/'))
  {
    if x == [] {
    } else {
      var e, rest := EncodedByte(x[0], Style(true, upper)), EncodedPath(x[1..], upper);
      var parts, names := Split(rest, '/'), Split(x[1..], '/');
      EncodedFirst(x, Style(true, upper), []);
      assert [] + e + rest == e + rest && [] + EncodedPath(x, upper) == EncodedPath(x, upper);
      ByteHarmless(x[0], Style(true, upper));
      EncodedParts(x[1..], upper);
      if x[0] == '/' {
        assert (e + rest)[1..] == rest;
        assert Split(e + rest, '/') == [""] + parts && Split(x, '/') == [""] + names;
        hide EmptyAlike;
        AlikeCons(parts, names, "", "");
      } else {
        SplitBehind(e, rest);
        assert Split(x, '/') == [[x[0]] + names[0]] + names[1..];
        hide EmptyAlike, Encoded, Split;
        AlikeCons(parts, names, e + parts[0], [x[0]] + names[0]);
      }
    }
  }

  lemma HarmlessPart(s: bytes, i: nat)
    requires Harmless(s) && i < |Split(s, '/')|
    ensures Harmless(Split(s, '/')[i])
  {
    var part := Split(s, '/')[i];
    var k := PartPlace(s, i);
    hide Split;
    assert part == s[k..k + |part|];
  }

  lemma HarmlessDots(s: string)
    requires Harmless(s)
    ensures !OddDots(s) && !Suffixed(s)
    ensures PlainPart(s) <==> s != ""
    ensures s != "-"
  {
    assert s != "" ==> s[|s| - 1] in s;
    if |s| >= 3 {
      var front := s[..|s| - 3];
      assert front != "" ==> front[|front| - 1] in s;
    }
    assert s != "" ==> s[0] in s;
  }

  lemma PrintedLegible(x: bytes, upper: bool)
    ensures Legible(EncodedPath(x, upper)) && Decoded(EncodedPath(x, upper)) == x
  {
    EncodedDecodes(x, Style(true, upper));
    EncodedHarmless(x, upper);
    hide Encoded, Whole, Decoded;
  }

  /** A printed name is the text of a path, and of a repository, exactly when it is good. */
  lemma NameReads(x: bytes, upper: bool, suffix: bool)
    requires Valid(x)
    ensures PathText(EncodedPath(x, upper)) <==> GoodName(x)
    ensures RepoText(EncodedPath(x, upper), suffix) <==> GoodName(x)
  {
    var s := EncodedPath(x, upper);
    var parts, names := Split(s, '/'), Split(x, '/');
    PrintedLegible(x, upper);
    EncodedHarmless(x, upper);
    EncodedParts(x, upper);
    forall i | 0 <= i < |parts|
      ensures !Suffixed(parts[i]) && (PlainPart(parts[i]) <==> parts[i] != "") && parts[i] != "-"
    {
      HarmlessPart(s, i);
      HarmlessDots(parts[i]);
    }
    HarmlessDots(s);
    hide Split, EncodedPath, Legible, Decoded, Suffixed, PlainPart, OddDots, Valid;
    PartsGood(parts, names);
  }

  lemma PartsGood(parts: seq<string>, names: seq<string>)
    requires EmptyAlike(parts, names) && forall i | 0 <= i < |parts| :: PlainPart(parts[i]) <==> parts[i] != ""
    ensures (forall part | part in parts :: PlainPart(part)) <==> forall name | name in names :: name != ""
  {
    hide PlainPart;
    assert forall i | 0 <= i < |parts| :: parts[i] in parts && names[i] in names;
  }

  /* Printed revisions. */

  lemma {:induction false} PlainPrinted(w: bytes, upper: bool)
    requires forall c | c in w :: IsAlphanumeric(c)
    ensures EncodedPath(w, upper) == w
  {
    if w == [] {
    } else {
      assert w[0] in w;
      PlainPrinted(w[1..], upper);
      assert w == [w[0]] + w[1..];
    }
  }

  predicate Absent(c: char, parts: seq<string>) {
    forall i | 0 <= i < |parts| :: c !in parts[i]
  }

  lemma {:induction false} NotInParts(x: bytes, c: char)
    requires c != '/' && Absent(c, Split(x, '/'))
    ensures c !in x
  {
    if x == [] {
    } else {
      var parts, rest := Split(x, '/'), Split(x[1..], '/');
      if x[0] == '/' {
        assert forall i | 0 <= i < |rest| :: rest[i] == parts[i + 1];
      } else {
        assert c !in parts[0];
        assert forall i | 0 < i < |rest| :: rest[i] == parts[i];
      }
      NotInParts(x[1..], c);
    }
  }

  /** A valid ref has a good name below `refs/`. */
  lemma ValidRefGood(x: bytes)
    requires ValidRef("refs/" + x)
    ensures GoodName(x)
  {
    assert "refs/" + x == "refs" + "/" + x;
    SplitFirst("refs", '/', x);
    var parts := Split("refs/" + x, '/');
    hide Split;
    var rest := Split(x, '/');
    forall i | 0 <= i < |rest|
      ensures ValidRefPart(rest[i])
    {
      assert rest[i] == parts[i + 1];
    }
    NotInParts(x, NUL);
  }

  lemma RefsPrinted(z: bytes, upper: bool)
    ensures EncodedPath("refs/" + z, upper) == "refs/" + EncodedPath(z, upper)
  {
    EncodedAppend("refs/", z, Style(true, upper));
    EncodedAppend("refs", "/", Style(true, upper));
    PlainPrinted("refs", upper);
    assert "refs" + "/" == "refs/";
    SlashPrinted(upper);
    hide Encoded;
  }

  lemma SlashPrinted(upper: bool)
    ensures EncodedPath("/", upper) == "/"
  {
    assert Safe('/', Style(true, upper)) && Encoded([], Style(true, upper)) == [];
    assert "/"[1..] == "";
  }

  lemma RefsValid(x: bytes)
    requires Valid("refs/" + x)
    ensures Valid(x)
  {
    AsciiValid("refs/");
    ValidAppend("refs/", x);
  }

  lemma RefsKept(s: bytes)
    requires StartsWith(s, "refs/")
    ensures "refs/" <= Decoded(s)
  {
    RefsDecoded(s[5..]);
    assert s == "refs/" + s[5..];
    hide Decoded;
  }

  lemma RefReads(name: bytes, upper: bool)
    requires Valid(name)
    ensures RevText(EncodedPath(name, upper), Ref(name)) <==> "refs/" <= name && ValidRef(name)
  {
    var s := EncodedPath(name, upper);
    PrintedLegible(name, upper);
    RefsExactly(name);
    if "refs/" <= name {
      var z := name[5..];
      assert name == "refs/" + z;
      RefsPrinted(z, upper);
      assert s[5..] == EncodedPath(z, upper);
      RefsValid(z);
      NameReads(z, upper, false);
      if ValidRef(name) {
        ValidRefGood(z);
      }
    } else if StartsWith(s, "refs/") {
      RefsKept(s);
    }
    hide EncodedPath, Decoded, ValidRef, RefShape, PathText, Legible, GoodName;
  }

  /** A printed revision is the text of it exactly when it is good. */
  lemma RevisionReads(rev: Revision, upper: bool)
    requires Valid(Selector(rev))
    ensures RevText(EncodedPath(Selector(rev), upper), rev) <==> GoodRevision(rev)
  {
    match rev
    case Head => PlainPrinted("HEAD", upper);
    case Commit(oid) => OidReads(oid, upper);
    case Ref(name) =>
      RefReads(name, upper);
      hide EncodedPath, ValidRef;
  }

  lemma OidReads(oid: bytes, upper: bool)
    ensures EncodedPath(oid, upper) == oid && OidText(oid) <==> ValidOid(oid)
  {
    OidIsText(oid);
    if ValidOid(oid) {
      assert forall c | c in oid :: IsAlphanumeric(c);
      PlainPrinted(oid, upper);
    }
    hide EncodedPath, OidText, ValidOid;
  }

  /* Printed routes. */

  predicate GoodPiece(piece: Piece) {
    match piece
    case Mark(kind) => kind != Text
    case Word(_) => true
    case RepoName(name) => GoodName(name)
    case PathName(name) => GoodName(name)
    case RevName(rev) => GoodRevision(rev)
    case OidName(oid) => ValidOid(oid)
  }

  predicate Printable(piece: Piece) {
    if piece.Mark? then piece.kind != Text else piece.IsName() ==> Valid(piece.Parameter())
  }

  /** A printed piece is a text of its own exactly when it is good. */
  lemma PieceReads(piece: Piece, upper: bool, suffix: bool)
    requires Printable(piece)
    ensures PieceText(Rendered(piece, upper), piece, suffix) <==> GoodPiece(piece)
    ensures Writes(Rendered(piece, upper), piece)
  {
    if piece.IsName() {
      PrintedLegible(piece.Parameter(), upper);
    }
    hide EncodedPath, RepoText, PathText, RevText, OidText, GoodName, GoodRevision, ValidOid, Decoded, Whole, Valid;
    match piece
    case RepoName(name) => NameReads(name, upper, suffix);
    case PathName(name) => NameReads(name, upper, suffix);
    case RevName(rev) => RevisionReads(rev, upper);
    case OidName(oid) => OidReads(oid, upper);
    case _ =>
  }

  function Texts(pieces: seq<Piece>, upper: bool): seq<bytes> {
    seq(|pieces|, i requires 0 <= i < |pieces| => Rendered(pieces[i], upper))
  }

  lemma {:induction false} RenderJoins(pieces: seq<Piece>, upper: bool)
    ensures Render(pieces, upper) == Joined(Texts(pieces, upper))
  {
    hide Rendered;
    if pieces == [] {
    } else {
      RenderJoins(pieces[1..], upper);
      assert Texts(pieces, upper)[1..] == Texts(pieces[1..], upper);
    }
  }

  predicate AllPrintable(pieces: seq<Piece>) {
    forall p | p in pieces :: Printable(p)
  }

  predicate AllGood(pieces: seq<Piece>) {
    forall p | p in pieces :: GoodPiece(p)
  }

  lemma TextsGood(pieces: seq<Piece>, upper: bool)
    requires AllPrintable(pieces)
    ensures WritesAll(Texts(pieces, upper), pieces)
    ensures AllTexts(Texts(pieces, upper), pieces) <==> AllGood(pieces)
  {
    hide Printable, GoodPiece, PieceText, Rendered, Writes;
    forall i | 0 <= i < |pieces|
      ensures pieces[i] in pieces && Writes(Texts(pieces, upper)[i], pieces[i])
      ensures PieceText(Texts(pieces, upper)[i], pieces[i], NextPiece(pieces, i) == Some(Mark(GitSuffix)))
         <==> GoodPiece(pieces[i])
    {
      PieceReads(pieces[i], upper, NextPiece(pieces, i) == Some(Mark(GitSuffix)));
    }
  }

  lemma PathGood(separator: Piece, path: Option<bytes>)
    requires separator in {SLASH, PLUS}
    ensures AllGood(PathTemplate(separator, path)) <==> GoodPath(path)
    ensures AllPrintable(PathTemplate(separator, path)) <==> StringPath(path)
  {
    hide GoodName, Valid;
    if path.Some? {
      assert PathName(path.value) in PathTemplate(separator, path);
    }
  }

  /** A delimiter and what it introduces. */
  lemma AllMarked(mark: Piece, p: Piece, rest: seq<Piece>)
    requires mark in {SLASH, PLUS, Mark(Range)}
    ensures AllGood([mark, p] + rest) <==> GoodPiece(p) && AllGood(rest)
    ensures AllPrintable([mark, p] + rest) <==> Printable(p) && AllPrintable(rest)
  {
    var pieces := [mark, p] + rest;
    assert GoodPiece(mark) && Printable(mark);
    hide GoodPiece, Printable;
    assert mark in pieces && p in pieces;
    assert forall q | q in rest :: q in pieces;
  }

  function TailPath(page: Page): Option<bytes>
    requires HasViewTail(page)
  {
    match page
    case Blame(_, file) => Some(file)
    case ArchiveSignature(_) => None
    case Log(_, path) => path
    case Tree(_, path) => path
    case Archive(_, path) => path
    case AtomFeed(_, path) => path
  }

  lemma TailGood(page: Page)
    requires HasViewTail(page)
    ensures AllGood(TailTemplate(page)) <==> GoodPath(TailPath(page))
    ensures AllPrintable(TailTemplate(page)) <==> StringPath(TailPath(page))
  {
    PathGood(SLASH, TailPath(page));
    hide PathTemplate, GoodName, Valid, AllGood, AllPrintable;
    if page.AtomFeed? {
      AllMarked(SLASH, Word("atom"), PathTemplate(SLASH, page.path));
    } else if page.ArchiveSignature? {
      NothingBad();
    }
  }

  lemma NothingBad()
    ensures AllGood([]) && AllPrintable([])
  {
  }

  lemma ViewGood(page: Page)
    requires HasViewTail(page)
    ensures AllGood(PageTemplate(page)) <==> GoodPage(page)
    ensures StringPage(page) ==> AllPrintable(PageTemplate(page))
  {
    hide *;
    var rev, word, tail := RevName(PageRevision(page)), Word(ViewWord(page)), TailTemplate(page);
    TailGood(page);
    ViewTemplate(page);
    GoodParts(page);
    PieceParts(ViewWord(page), PageRevision(page));
    AllMarked(PLUS, word, tail);
    AllMarked(PLUS, rev, [PLUS, word] + tail);
    assert PageTemplate(page) == [PLUS, rev] + ([PLUS, word] + tail);
  }

  lemma GoodParts(page: Page)
    requires HasViewTail(page)
    ensures GoodPage(page) <==> GoodRevision(PageRevision(page)) && GoodPath(TailPath(page))
    ensures StringPage(page) ==> Valid(Selector(PageRevision(page))) && StringPath(TailPath(page))
  {
    hide GoodName, Valid;
  }

  lemma ComparisonGood(word: bytes, a: Revision, b: Revision, path: Option<bytes>)
    ensures AllGood(ComparisonTemplate(word, a, b, path)) <==> GoodRevision(a) && GoodRevision(b) && GoodPath(path)
    ensures Valid(Selector(a)) && Valid(Selector(b)) && StringPath(path)
        ==> AllPrintable(ComparisonTemplate(word, a, b, path))
  {
    hide *;
    var tail := PathTemplate(PLUS, path);
    ComparisonPieces(word, a, b, path);
    PathGood(PLUS, path);
    PieceParts(word, a);
    PieceParts(word, b);
    AllMarked(Mark(Range), RevName(b), tail);
    AllMarked(SLASH, RevName(a), [Mark(Range), RevName(b)] + tail);
    AllMarked(PLUS, Word(word), [SLASH, RevName(a)] + ([Mark(Range), RevName(b)] + tail));
  }

  lemma ComparisonPieces(word: bytes, a: Revision, b: Revision, path: Option<bytes>)
    ensures ComparisonTemplate(word, a, b, path)
         == [PLUS, Word(word)] + ([SLASH, RevName(a)] + ([Mark(Range), RevName(b)] + PathTemplate(PLUS, path)))
  {
    hide PathTemplate;
  }

  lemma PieceParts(word: bytes, rev: Revision)
    ensures GoodPiece(RevName(rev)) <==> GoodRevision(rev)
    ensures Printable(RevName(rev)) <==> Valid(Selector(rev))
    ensures GoodPiece(Word(word)) && Printable(Word(word))
  {
    hide GoodRevision, Valid, Selector;
  }

  lemma PageGood(page: Page)
    ensures AllGood(PageTemplate(page)) <==> GoodPage(page)
    ensures StringPage(page) ==> AllPrintable(PageTemplate(page))
  {
    hide GoodName, Valid, GoodRevision, Selector, ValidOid, AllGood, AllPrintable, HasViewTail;
    if HasViewTail(page) {
      ViewGood(page);
    } else if page.Diff? || page.Patch? {
      ComparisonGood(if page.Diff? then "diff" else "patch", page.old_rev, page.new_rev, page.path);
    } else {
      SingleGood(page);
    }
  }

  lemma SingleGood(page: Page)
    requires !HasViewTail(page) && !page.Diff? && !page.Patch?
    ensures AllGood(PageTemplate(page)) <==> GoodPage(page)
    ensures StringPage(page) ==> AllPrintable(PageTemplate(page))
  {
    hide GoodName, Valid, GoodRevision, Selector, ValidOid;
    match page
    case Object(oid) => assert OidName(oid) in PageTemplate(page);
    case RevisionPage(rev) => assert RevName(rev) in PageTemplate(page);
    case GitObjects(file) => assert PathName(file) in PageTemplate(page);
    case GitLfs(file) => assert PathName(file) in PageTemplate(page);
    case _ =>
  }

  lemma RouteGood(route: Route)
    ensures AllGood(Template(route)) <==> GoodRoute(route)
    ensures StringRoute(route) ==> AllPrintable(Template(route))
  {
    hide GoodName, Valid, GoodPage, StringPage, PageTemplate;
    if route.Repository? {
      PageGood(route.page);
      AllMarked(SLASH, RepoName(route.repo), PageTemplate(route.page));
    }
  }

  /** A route survives printing and parsing exactly when its names are good. */
  lemma RoundTrip(route: Route, upper: bool)
    requires StringRoute(route)
    ensures Denotes(Url(route, upper), route) <==> GoodRoute(route)
  {
    var pieces := Template(route);
    RouteGood(route);
    TextsGood(pieces, upper);
    RenderJoins(pieces, upper);
    hide Template, Denotes, Render, Texts, GoodRoute, StringRoute, AllPrintable, AllGood, WritesAll, AllTexts;
    WritingReads(Texts(pieces, upper), route);
  }

  /** Distinct well-named routes have distinct URLs, whichever case their hex digits have. */
  lemma DistinctUrls(a: Route, b: Route, upper: bool, upper': bool)
    requires StringRoute(a) && StringRoute(b) && GoodRoute(a) && GoodRoute(b)
    requires Url(a, upper) == Url(b, upper')
    ensures a == b
  {
    RoundTrip(a, upper);
    RoundTrip(b, upper');
    hide Url, Derives, GoodRoute, StringRoute, Tokens;
    Unambiguous(Tokens(Url(a, upper)).value, a, b);
  }
}
