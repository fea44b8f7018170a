/** The printer side of the URL scheme. */
module Urls {
  import opened Wrappers
  import opened Bytes
  import opened Percent
  import opened Lexer
  import opened Grammar

  /** A path encoded as `urls::encode_path` does; the redirect of the daemon uses upper-case digits. */
  function EncodedPath(value: bytes, upper: bool): bytes {
    Encoded(value, Style(true, upper))
  }

  /** `revision::selector` */
  function Selector(rev: Revision): bytes {
    match rev
    case Head => "HEAD"
    case Ref(name) => name
    case Commit(oid) => oid
  }

  /** A piece of a documented URL template: a literal delimiter, a keyword, or a parameter to encode. */
  datatype Piece =
    | Mark(kind: Kind) | Word(word: bytes)
    | RepoName(name: bytes) | PathName(name: bytes) | RevName(rev: Revision) | OidName(oid: bytes)
  {
    predicate IsName() {
      !Mark? && !Word?
    }

    /** The parameter as the printer is given it. */
    function Parameter(): bytes {
      match this
      case Mark(_) => []
      case Word(_) => []
      case RevName(rev) => Selector(rev)
      case OidName(oid) => oid
      case _ => name
    }
  }

  const SLASH := Mark(Slash)
  const PLUS := Mark(Boundary)

  /** The template of a route, with its parameters filled in. */
  function Template(route: Route): seq<Piece> {
    match route
    case Repositories => [SLASH]
    case Repository(repo, page) => [SLASH, RepoName(repo)] + PageTemplate(page)
  }

  function PageTemplate(page: Page): seq<Piece> {
    match page
    case Overview => []
    case About => [PLUS, Word("about")]
    case Stats => [PLUS, Word("stats")]
    case Summary => [PLUS, Word("summary")]
    case Object(oid) => [PLUS, Word("object"), SLASH, OidName(oid)]
    case Refs => [PLUS, Word("refs")]
    case RevisionPage(rev) => [PLUS, RevName(rev)]
    case Log(rev, path) => [PLUS, RevName(rev), PLUS, Word("log")] + PathTemplate(SLASH, path)
    case Tree(rev, path) => [PLUS, RevName(rev), PLUS, Word("tree")] + PathTemplate(SLASH, path)
    case Blame(rev, file) => [PLUS, RevName(rev), PLUS, Word("blame"), SLASH, PathName(file)]
    case Archive(rev, path) => [PLUS, RevName(rev), PLUS, Word("archive")] + PathTemplate(SLASH, path)
    case ArchiveSignature(rev) => [PLUS, RevName(rev), PLUS, Word("archive-signature")]
    case AtomFeed(reference, path) =>
      [PLUS, RevName(Ref(reference)), PLUS, Word("feed"), SLASH, Word("atom")] + PathTemplate(SLASH, path)
    case Diff(old_rev, new_rev, path) => ComparisonTemplate("diff", old_rev, new_rev, path)
    case Patch(old_rev, new_rev, path) => ComparisonTemplate("patch", old_rev, new_rev, path)
    case GitClone => [Mark(GitSuffix)]
    case GitInfoRefs => [Mark(GitSuffix), SLASH, Word("info"), SLASH, Word("refs")]
    case GitUploadPack => [Mark(GitSuffix), SLASH, Word("git-upload-pack")]
    case GitReceivePack => [Mark(GitSuffix), SLASH, Word("git-receive-pack")]
    case GitHead => [Mark(GitSuffix), SLASH, Word("HEAD")]
    case GitObjects(file) => [Mark(GitSuffix), SLASH, Word("objects"), SLASH, PathName(file)]
    case GitLfs(file) => [Mark(GitSuffix), SLASH, Word("info"), SLASH, Word("lfs"), SLASH, PathName(file)]
  }

  function ComparisonTemplate(word: bytes, old_rev: Revision, new_rev: Revision, path: Option<bytes>): seq<Piece> {
    [PLUS, Word(word), SLASH, RevName(old_rev), Mark(Range), RevName(new_rev)] + PathTemplate(PLUS, path)
  }

  function PathTemplate(separator: Piece, path: Option<bytes>): seq<Piece> {
    match path
    case None => []
    case Some(p) => [separator, PathName(p)]
  }

  /** What a piece contributes to the URL. */
  function Rendered(piece: Piece, upper: bool): bytes {
    match piece
    case Mark(kind) => if kind == Text then "" else Literal(kind)
    case Word(word) => word
    case _ => EncodedPath(piece.Parameter(), upper)
  }

  function Render(pieces: seq<Piece>, upper: bool): bytes {
    if pieces == [] then [] else Rendered(pieces[0], upper) + Render(pieces[1..], upper)
  }

  /** The URL that every page prints for a route. */
  function Url(route: Route, upper: bool): bytes {
    Render(Template(route), upper)
  }

  /* The pages below a revision, by their parts. */

  predicate HasViewTail(page: Page) {
    page.Log? || page.Tree? || page.Archive? || page.Blame? || page.ArchiveSignature? || page.AtomFeed?
  }

  function PageRevision(page: Page): Revision
    requires HasViewTail(page)
  {
    match page
    case Log(rev, _) => rev
    case Tree(rev, _) => rev
    case Archive(rev, _) => rev
    case Blame(rev, _) => rev
    case ArchiveSignature(rev) => rev
    case AtomFeed(reference, _) => Ref(reference)
  }

  function TailTemplate(page: Page): seq<Piece>
    requires HasViewTail(page)
  {
    match page
    case Log(_, path) => PathTemplate(SLASH, path)
    case Tree(_, path) => PathTemplate(SLASH, path)
    case Archive(_, path) => PathTemplate(SLASH, path)
    case Blame(_, file) => PathTemplate(SLASH, Some(file))
    case ArchiveSignature(_) => []
    case AtomFeed(_, path) => [SLASH, Word("atom")] + PathTemplate(SLASH, path)
  }

  function ViewWord(page: Page): bytes
    requires HasViewTail(page)
  {
    match page
    case Log(_, path) => "log"
    case Tree(_, path) => "tree"
    case Archive(_, path) => "archive"
    case Blame(_, file) => "blame"
    case ArchiveSignature(_) => "archive-signature"
    case AtomFeed(_, path) => "feed"
  }

  lemma ViewTemplate(page: Page)
    requires HasViewTail(page)
    ensures PageTemplate(page)
         == [PLUS, RevName(PageRevision(page)), PLUS, Word(ViewWord(page))] + TailTemplate(page)
  {
  }
}
