/** The URL scheme on bytes: which texts spell which route, with no token in sight. A name may be written with
    any of its bytes as they are or escaped, so that one route has many texts. */
module Spellings {
  import opened Bytes
  import opened Utf8
  import opened Percent
  import opened Names
  import opened Lexer
  import opened Grammar
  import opened Urls
  import opened RefShapes

  /** Every percent sign starts an escape, and no query or fragment follows. */
  predicate Legible(s: bytes) {
    Whole(s) && '?' !in s && '#' !in s
  }

  function TrailingDots(s: string): (n: nat)
    ensures n <= |s|
  {
    if s != [] && s[|s| - 1] == '.' then 1 + TrailingDots(s[..|s| - 1]) else 0
  }

  predicate OddDots(s: string) {
    TrailingDots(s) % 2 == 1
  }

  /** The component ends in `.git`, and that dot is not the second of a double dot. */
  predicate Suffixed(part: string) {
    EndsWith(part, "git") && OddDots(part[..|part| - 3])
  }

  predicate NoneSuffixed(parts: seq<string>, butLast: bool) {
    forall i | 0 <= i < (if butLast then |parts| - 1 else |parts|) :: !Suffixed(parts[i])
  }

  predicate PlainPart(part: string) {
    part != "" && part != "." && part != ".." && part != "+"
  }

  /** The text of a path: a NUL-free string once decoded, and no component that is empty or, as it stands,
      a dot, a double dot or a plus sign. */
  predicate PathText(s: bytes) {
    && Legible(s) && Valid(Decoded(s)) && NUL !in Decoded(s)
    && forall part | part in Split(s, '/') :: PlainPart(part)
  }

  /** The text of a repository, before `.git` if `suffix` holds: a path that does not open with a component
      `-`, and where nothing is taken for a `.git` but the one that follows. */
  predicate RepoText(s: bytes, suffix: bool) {
    && PathText(s) && Split(s, '/')[0] != "-"
    && NoneSuffixed(Split(s, '/'), suffix)
    && (suffix ==> !OddDots(s))
  }

  predicate OidText(s: bytes) {
    (|s| == 40 || |s| == 64) && forall c | c in s :: c in "0123456789abcdef"
  }

  /** The text of a revision: `HEAD` and object names as they are, a ref with its `refs/` as it is. */
  predicate RevText(s: bytes, rev: Revision) {
    match rev
    case Head => s == "HEAD"
    case Commit(oid) => s == oid && OidText(oid)
    case Ref(name) => StartsWith(s, "refs/") && PathText(s[5..]) && Decoded(s) == name && RefShape(name)
  }

  /** The text of one piece of a template. */
  predicate PieceText(s: bytes, piece: Piece, suffix: bool) {
    match piece
    case Mark(kind) => kind != Text && s == Literal(kind)
    case Word(word) => s == word
    case RepoName(name) => RepoText(s, suffix) && Decoded(s) == name
    case PathName(name) => PathText(s) && Decoded(s) == name
    case RevName(rev) => RevText(s, rev)
    case OidName(oid) => s == oid && OidText(oid)
  }

  predicate SuffixFollows(pieces: seq<Piece>) {
    |pieces| > 1 && pieces[1] == Mark(GitSuffix)
  }

  /** The text is made of texts of the pieces, in order. */
  ghost predicate Spells(s: bytes, pieces: seq<Piece>)
    decreases |pieces|, 1
  {
    if pieces == [] then s == []
    else exists k | 0 <= k <= |s| :: SpellsFrom(s, k, pieces)
  }

  ghost predicate SpellsFrom(s: bytes, k: nat, pieces: seq<Piece>)
    requires k <= |s| && pieces != []
    decreases |pieces|, 0
  {
    PieceText(s[..k], pieces[0], SuffixFollows(pieces)) && Spells(s[k..], pieces[1..])
  }
}
