/** Repository names over SSH, and how the names accepted there are reached over HTTP. */
module Shell {
  import opened Wrappers
  import opened Bytes
  import opened Utf8
  import opened Percent
  import opened Lexer
  import opened Names
  import opened Grammar
  import opened Parts
  import opened Urls
  import opened Spellings
  import opened SpelledRoutes
  import opened SpelledTexts
  import opened RoundTrip

  datatype GitService = ReceivePack | UploadArchive | UploadPack

  datatype ShellError = NotGit | Unquoted | InvalidName

  function ServiceOf(program: bytes): Option<GitService> {
    match program
    case "git-receive-pack" => Some(ReceivePack)
    case "git-upload-archive" => Some(UploadArchive)
    case "git-upload-pack" => Some(UploadPack)
    case _ => None
  }

  function StripPrefix(s: bytes, prefix: bytes): bytes {
    if prefix <= s then s[|prefix|..] else s
  }

  function StripSuffix(s: bytes, suffix: bytes): bytes {
    if EndsWith(s, suffix) then s[..|s| - |suffix|] else s
  }

  predicate NameChar(c: char) {
    IsAlphanumeric(c) || c in "-_."
  }

  predicate NamePart(part: string) {
    part != "" && part != "." && part != ".." && forall i | 0 <= i < |part| :: NameChar(part[i])
  }

  /** The repository names the shell accepts. */
  predicate Accepted(name: bytes, max: nat) {
    && 0 < |name| <= max
    && IsAlphanumeric(name[0])
    && !Contains(name, "..") && !Contains(name, ".git/")
    && forall part | part in Split(name, '/') :: NamePart(part)
  }

  /** The text between the single quotes. */
  function Quoted(argument: bytes): Option<bytes> {
    if |argument| >= 2 && argument[0] == '\'' && argument[|argument| - 1] == '\''
    then Some(argument[1..|argument| - 1]) else None
  }

  /** The name an argument spells: an optional leading slash and an optional `.git` are dropped. */
  function Spelled(text: bytes): bytes {
    StripSuffix(StripPrefix(text, "/"), ".git")
  }

  function RepositoryOf(argument: bytes, max: nat): Result<bytes, ShellError> {
    match Quoted(argument)
    case None => Err(Unquoted)
    case Some(text) => if Accepted(Spelled(text), max) then Ok(Spelled(text)) else Err(InvalidName)
  }

  method ParseRepository(argument: bytes, max: nat) returns (r: Result<bytes, ShellError>)
    ensures r == RepositoryOf(argument, max)
  {
    var text := Quoted(argument);
    if text == None {
      return Err(Unquoted);
    }
    var name := Spelled(text.value);
    if name == "" || |name| > max || !IsAlphanumeric(name[0]) || Contains(name, "..") || Contains(name, ".git/") {
      return Err(InvalidName);
    }
    var parts := Split(name, '/');
    for i := 0 to |parts|
      invariant forall j | 0 <= j < i :: NamePart(parts[j])
    {
      if !NamePart(parts[i]) {
        return Err(InvalidName);
      }
    }
    return Ok(name);
  }

  function CommandOf(command: bytes, max: nat): Result<(GitService, bytes), ShellError> {
    match SplitOnce(command, ' ')
    case None => Err(NotGit)
    case Some((program, argument)) =>
      if ServiceOf(program) == None then Err(NotGit)
      else
        match RepositoryOf(argument, max)
        case Ok(name) => Ok((ServiceOf(program).value, name))
        case Err(e) => Err(e)
  }

  method ParseCommand(command: bytes, max: nat) returns (r: Result<(GitService, bytes), ShellError>)
    ensures r == CommandOf(command, max)
  {
    var parts := SplitOnce(command, ' ');
    if parts == None || ServiceOf(parts.value.0) == None {
      return Err(NotGit);
    }
    var name := ParseRepository(parts.value.1, max);
    match name
    case Ok(n) => r := Ok((ServiceOf(parts.value.0).value, n));
    case Err(e) => r := Err(e);
  }

  /** `safe_repository`: a control character is a byte below 0x20, 0x7f, or the two bytes of U+0080 to U+009F. */
  predicate ControlAt(s: bytes, i: nat)
    requires i < |s|
  {
    || s[i] as int < 0x20 || s[i] as int == 0x7f
    || (i + 1 < |s| && s[i] as int == 0xC2 && 0x80 <= s[i + 1] as int <= 0x9F)
  }

  predicate SafeRepository(repo: bytes) {
    && repo != ""
    && !StartsWith(repo, "/")
    && (forall i | 0 <= i < |repo| :: !ControlAt(repo, i))
    && '\\' !in repo
    && forall part | part in Split(repo, '/') :: part != "" && part != "." && part != ".."
  }

  predicate PartsOfNameChars(parts: seq<string>) {
    forall i | 0 <= i < |parts| :: forall j | 0 <= j < |parts[i]| :: NameChar(parts[i][j])
  }

  lemma {:induction false} SplitChars(x: bytes)
    requires PartsOfNameChars(Split(x, '/'))
    ensures forall i | 0 <= i < |x| :: x[i] == '/' || NameChar(x[i])
  {
    if x == [] {
    } else {
      var parts, rest := Split(x, '/'), Split(x[1..], '/');
      if x[0] == '/' {
        assert forall i | 0 <= i < |rest| :: rest[i] == parts[i + 1];
      } else {
        assert NameChar(parts[0][0]);
        assert forall j | 0 <= j < |rest[0]| :: rest[0][j] == parts[0][j + 1];
        assert forall i | 0 < i < |rest| :: rest[i] == parts[i];
      }
      SplitChars(x[1..]);
    }
  }

  lemma AcceptedChars(name: bytes, max: nat)
    requires Accepted(name, max)
    ensures forall i | 0 <= i < |name| :: name[i] == '/' || NameChar(name[i])
    ensures forall i | 0 <= i < |Split(name, '/')| :: NamePart(Split(name, '/')[i])
  {
    hide Contains;
    var parts := Split(name, '/');
    assert forall i | 0 <= i < |parts| :: parts[i] in parts;
    SplitChars(name);
  }

  /** The name checks of the two front ends agree: what SSH accepts, HTTP considers safe. */
  lemma AcceptedSafe(name: bytes, max: nat)
    requires Accepted(name, max)
    ensures SafeRepository(name) && IsAscii(name) && Valid(name) && GoodName(name)
  {
    AcceptedChars(name, max);
    hide Contains;
    AsciiValid(name);
  }

  /** An accepted name is stable: written with a slash and `.git` it is accepted again, unchanged. */
  lemma Reparsed(name: bytes, max: nat)
    requires Accepted(name, max)
    ensures Quoted("'/" + name + ".git'") == Some("/" + name + ".git")
    ensures Spelled("/" + name + ".git") == name
    ensures RepositoryOf("'/" + name + ".git'", max) == Ok(name)
  {
    hide Accepted;
    var text := "/" + name + ".git";
    assert "'/" + name + ".git'" == "'" + text + "'";
    assert StripPrefix(text, "/") == name + ".git";
    assert (name + ".git")[|name|..] == ".git";
  }

  /** The command line Git sends for an accepted name is understood. */
  lemma CommandReads(program: bytes, name: bytes, max: nat)
    requires ServiceOf(program).Some? && Accepted(name, max)
    ensures CommandOf(program + " " + ("'/" + name + ".git'"), max) == Ok((ServiceOf(program).value, name))
  {
    Reparsed(name, max);
    NoSpace(program);
    hide Accepted, Spelled, Quoted;
    SplitOnceAt(program, ' ', "'/" + name + ".git'");
  }

  lemma NoSpace(program: bytes)
    requires ServiceOf(program).Some?
    ensures ' ' !in program
  {
  }

  function CommandLine(program: bytes, name: bytes): bytes {
    program + (" '/" + name + ".git'")
  }

  function ProgramOf(service: GitService): bytes {
    match service
    case ReceivePack => "git-receive-pack"
    case UploadArchive => "git-upload-archive"
    case UploadPack => "git-upload-pack"
  }

  /** The command lines of the three services. */
  lemma GitCommands(service: GitService, name: bytes, max: nat)
    requires Accepted(name, max)
    ensures CommandOf(CommandLine(ProgramOf(service), name), max) == Ok((service, name))
  {
    assert ServiceOf(ProgramOf(service)) == Some(service);
    hide Accepted, CommandOf, CommandLine, ServiceOf, ProgramOf;
    CommandReads(ProgramOf(service), name, max);
    Spaced(ProgramOf(service), name);
  }

  lemma Spaced(program: bytes, name: bytes)
    ensures program + " " + ("'/" + name + ".git'") == CommandLine(program, name)
  {
    assert " " + ("'/" + name + ".git'") == " '/" + name + ".git'";
  }

  /** No other program is run. */
  lemma OthersRefused(program: bytes, argument: bytes, max: nat)
    requires ' ' !in program && program !in {"git-receive-pack", "git-upload-archive", "git-upload-pack"}
    ensures CommandOf(program + [' '] + argument, max) == Err(NotGit)
    ensures CommandOf(program, max) == Err(NotGit)
  {
    SplitOnceAt(program, ' ', argument);
  }

  /** Written bare, an accepted name is unchanged exactly when it does not itself end in `.git`. */
  lemma ReparsedBare(name: bytes, max: nat)
    requires Accepted(name, max)
    ensures Spelled(name) == name <==> !EndsWith(name, ".git")
  {
    hide Contains, Split;
  }

  /** Every accepted name is reached over HTTP through the printed URL and through the redirect. */
  lemma Reached(name: bytes, max: nat, upper: bool)
    requires Accepted(name, max)
    ensures Denotes(Url(Repository(name, Overview), upper), Repository(name, Overview))
    ensures Denotes(Url(Repository(name, GitInfoRefs), upper), Repository(name, GitInfoRefs))
  {
    AcceptedSafe(name, max);
    hide Denotes, Url, Accepted, SafeRepository, GoodName, Valid;
    RoundTrip.RoundTrip(Repository(name, Overview), upper);
    RoundTrip.RoundTrip(Repository(name, GitInfoRefs), upper);
  }

  /* The plain clone URL, with the name written as it is. */

  function CloneUrl(name: bytes): bytes {
    "/" + name + ".git/info/refs"
  }

  function CloneTexts(name: bytes): seq<bytes> {
    ["/", name, ".git", "/", "info", "/", "refs"]
  }

  lemma JoinedCons(t: bytes, rest: seq<bytes>)
    ensures Joined([t] + rest) == t + Joined(rest)
  {
    assert ([t] + rest)[1..] == rest;
  }

  lemma InfoJoined()
    ensures Joined(["/", "info", "/", "refs"]) == "/info/refs"
  {
    JoinedCons("refs", []);
    JoinedCons("/", ["refs"]);
    JoinedCons("info", ["/", "refs"]);
    JoinedCons("/", ["info", "/", "refs"]);
    assert Joined([]) == "";
    hide Joined;
    assert "refs" + "" == "refs";
    assert "/" + ("info" + ("/" + "refs")) == "/info/refs";
  }

  lemma CloneJoined(name: bytes)
    ensures Joined(CloneTexts(name)) == CloneUrl(name)
  {
    hide Joined;
    InfoJoined();
    var tail: seq<bytes> := ["/", "info", "/", "refs"];
    JoinedCons(".git", tail);
    JoinedCons(name, [".git"] + tail);
    JoinedCons("/", [name] + ([".git"] + tail));
    assert CloneTexts(name) == ["/"] + ([name] + ([".git"] + tail));
    assert ".git" + "/info/refs" == ".git/info/refs";
  }

  /** An accepted name, written as it is, is the text of a repository unless its last dot meets that of `.git`. */
  lemma AcceptedText(name: bytes, max: nat)
    requires Accepted(name, max)
    ensures RepoText(name, true) <==> !EndsWith(name, ".")
    ensures Whole(name) && Decoded(name) == name
  {
    AcceptedPlain(name, max);
    AcceptedParts(name, max);
    LastDot(name);
    hide Contains, Decoded, Whole, Accepted, Split, Suffixed, OddDots, NamePart, PlainPart;
  }

  lemma AcceptedPlain(name: bytes, max: nat)
    requires Accepted(name, max)
    ensures Legible(name) && Decoded(name) == name && Valid(name) && NUL !in name
    ensures !Contains(name, "..")
  {
    AcceptedChars(name, max);
    AcceptedSafe(name, max);
    PlainDecodes(name);
    hide Contains, Decoded, Whole, SafeRepository, Split, NoEmptyPart, Valid;
  }

  lemma AcceptedParts(name: bytes, max: nat)
    requires Accepted(name, max)
    ensures NoneSuffixed(Split(name, '/'), true) && Split(name, '/')[0] != "-"
    ensures forall part | part in Split(name, '/') :: PlainPart(part)
  {
    FirstPart(name);
    hide Contains;
    var parts := Split(name, '/');
    forall i | 0 <= i < |parts| - 1
      ensures !Suffixed(parts[i])
    {
      NotSuffixed(name, i);
    }
    forall part | part in parts
      ensures PlainPart(part)
    {
      PartPlain(part);
    }
    hide Split, Suffixed, NamePart, PlainPart;
  }

  lemma PartPlain(part: string)
    requires NamePart(part)
    ensures PlainPart(part)
  {
    assert part != "" ==> NameChar(part[0]);
  }

  lemma FirstPart(x: bytes)
    requires x != [] && IsAlphanumeric(x[0])
    ensures Split(x, '/')[0] != "-"
  {
    SplitCons(x);
    assert Split(x, '/')[0][0] == x[0];
  }

  lemma LastDot(name: bytes)
    requires !Contains(name, "..")
    ensures OddDots(name) <==> EndsWith(name, ".")
  {
    var n := |name|;
    if EndsWith(name, ".") {
      assert name[n - 1] == name[n - 1..][0];
      if n > 1 {
        assert name[n - 2..n] == [name[n - 2], name[n - 1]];
        assert !OccursAt(name, "..", n - 2);
      }
      assert TrailingDots(name[..n - 1]) == 0;
    }
    assert n > 0 ==> name[n - 1..] == [name[n - 1]];
  }

  lemma NotSuffixed(name: bytes, i: nat)
    requires !Contains(name, ".git/") && i < |Split(name, '/')| - 1
    ensures !Suffixed(Split(name, '/')[i])
  {
    var part := Split(name, '/')[i];
    var k := PartPlace(name, i);
    hide Split;
    var e := k + |part|;
    assert name[e] == '/';
    if Suffixed(part) {
      SuffixedEnds(part);
      assert name[e - 4..e] == part[|part| - 4..];
      GitInside(name, e);
    }
  }

  lemma GitInside(name: bytes, e: nat)
    requires 4 <= e < |name| && name[e - 4..e] == ".git" && name[e] == '/'
    ensures Contains(name, ".git/")
  {
    assert name[e - 4..e + 1] == name[e - 4..e] + [name[e]];
    assert OccursAt(name, ".git/", e - 4);
  }

  lemma SuffixedEnds(part: string)
    requires Suffixed(part)
    ensures EndsWith(part, ".git")
  {
    var front := part[..|part| - 3];
    assert front[|front| - 1] == '.';
    assert part[|part| - 4..] == [part[|part| - 4]] + part[|part| - 3..];
  }

  lemma CloneGood(name: bytes)
    requires Whole(name) && Decoded(name) == name
    ensures var route := Repository(name, GitInfoRefs);
      && |CloneTexts(name)| == |Template(route)| && WritesAll(CloneTexts(name), Template(route))
      && (AllTexts(CloneTexts(name), Template(route)) <==> RepoText(name, true))
  {
    var texts, pieces := CloneTexts(name), Template(Repository(name, GitInfoRefs));
    hide Whole, Decoded, RepoText;
    assert pieces == [SLASH, RepoName(name), Mark(GitSuffix), SLASH, Word("info"), SLASH, Word("refs")];
    assert NextPiece(pieces, 1) == Some(Mark(GitSuffix));
    assert texts[1] == name;
  }

  /** Over plain HTTP a name accepted by the shell is cloned exactly when it does not end in a dot:
      otherwise the dot and the suffix are read as a range. */
  lemma PlainCloneExactly(name: bytes, max: nat)
    requires Accepted(name, max)
    ensures Denotes(CloneUrl(name), Repository(name, GitInfoRefs)) <==> !EndsWith(name, ".")
  {
    hide *;
    AcceptedText(name, max);
    CloneGood(name);
    CloneJoined(name);
    WritingReads(CloneTexts(name), Repository(name, GitInfoRefs));
  }
}
