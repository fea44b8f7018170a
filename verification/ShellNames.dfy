/** The repository names accepted over SSH and those safe for HTTP, told from the characters of the name. */
module ShellNames {
  import opened Wrappers
  import opened Bytes
  import opened Utf8
  import opened Parts
  import opened Shell

  predicate LetterOrDigit(c: char) {
    c in "0123456789" || c in "abcdefghijklmnopqrstuvwxyz" || c in "ABCDEFGHIJKLMNOPQRSTUVWXYZ"
  }

  /** A letter or digit first, then letters, digits and `-_./`, with no double dot, no component that is empty
      or a dot, and no `.git` in front of a slash. */
  predicate NameShape(name: bytes, max: nat) {
    && 0 < |name| <= max && LetterOrDigit(name[0])
    && (forall c | c in name :: LetterOrDigit(c) || c in "-_./")
    && !Contains(name, "..") && !Contains(name, ".git/")
    && !Contains(name, "//") && !EndsWith(name, "/") && !Contains(name, "/./") && !EndsWith(name, "/.")
  }

  lemma Alphabet(c: char)
    ensures IsAlphanumeric(c) <==> LetterOrDigit(c)
    ensures NameChar(c) <==> LetterOrDigit(c) || c in "-_."
  {
  }

  /* An accepted name has the shape. */

  lemma AcceptedPart(name: bytes, max: nat, k: nat, n: nat)
    requires Accepted(name, max) && PartAt(name, k, n)
    ensures n > 0 && name[k..k + n] != "."
  {
    hide Contains;
    var i := PlacePart(name, k, n);
    hide Split;
    assert NamePart(Split(name, '/')[i]);
  }

  lemma NoEmptyShapes(name: bytes, max: nat)
    requires Accepted(name, max)
    ensures !Contains(name, "//") && !EndsWith(name, "/")
  {
    hide Accepted;
    forall i | 0 <= i <= |name| - 2
      ensures !OccursAt(name, "//", i)
    {
      assert name[i..i + 2] == [name[i], name[i + 1]];
      if name[i] == '/' && name[i + 1] == '/' {
        AcceptedPart(name, max, i + 1, 0);
      }
    }
    if EndsWith(name, "/") {
      assert name[|name| - 1] == name[|name| - 1..][0];
      AcceptedPart(name, max, |name|, 0);
    }
  }

  lemma NoDotShapes(name: bytes, max: nat)
    requires Accepted(name, max)
    ensures !Contains(name, "/./") && !EndsWith(name, "/.")
  {
    hide Accepted;
    forall i | 0 <= i <= |name| - 3
      ensures !OccursAt(name, "/./", i)
    {
      assert name[i..i + 3] == [name[i], name[i + 1], name[i + 2]];
      if name[i] == '/' && name[i + 1] == '.' && name[i + 2] == '/' {
        DotPart(name, max, i + 1);
      }
    }
    if EndsWith(name, "/.") {
      var n := |name|;
      assert name[n - 2] == name[n - 2..][0] && name[n - 1] == name[n - 2..][1];
      DotPart(name, max, n - 1);
    }
  }

  lemma DotPart(name: bytes, max: nat, k: nat)
    requires Accepted(name, max) && 0 < k < |name| && name[k - 1] == '/' && name[k] == '.'
    ensures k + 1 < |name| && name[k + 1] != '/'
  {
    hide Accepted;
    assert name[k..k + 1] == ".";
    if k + 1 == |name| || name[k + 1] == '/' {
      AcceptedPart(name, max, k, 1);
    }
  }

  lemma AcceptedShape(name: bytes, max: nat)
    requires Accepted(name, max)
    ensures NameShape(name, max)
  {
    NoEmptyShapes(name, max);
    NoDotShapes(name, max);
    AcceptedChars(name, max);
    hide Contains, NamePart, LetterOrDigit, NameChar, IsAlphanumeric;
    forall c | c in name
      ensures LetterOrDigit(c) || c in "-_./"
    {
      Alphabet(c);
    }
    Alphabet(name[0]);
  }

  /* A name of the shape is accepted. */

  lemma ShapedPart(name: bytes, max: nat, k: nat, n: nat)
    requires NameShape(name, max) && PartAt(name, k, n)
    ensures NamePart(name[k..k + n])
  {
    var part := name[k..k + n];
    forall i | 0 <= i < n
      ensures NameChar(part[i])
    {
      assert part[i] in part && part[i] in name;
      Alphabet(part[i]);
    }
    Alphabet(name[0]);
    hide NameChar, LetterOrDigit;
    if n == 0 {
      EmptyPlace(name, k);
    } else if n == 1 && name[k] == '.' {
      DotPlace(name, k);
    } else if part == ".." {
      DotsOccur(name, k);
    }
    assert n == 1 ==> part == [name[k]];
  }

  lemma DotsOccur(name: bytes, k: nat)
    requires k + 2 <= |name| && name[k..k + 2] == ".."
    ensures Contains(name, "..")
  {
    assert OccursAt(name, "..", k);
  }

  lemma EmptyPlace(name: bytes, k: nat)
    requires name != [] && name[0] != '/' && PartAt(name, k, 0)
    ensures Contains(name, "//") || EndsWith(name, "/")
  {
    if k < |name| {
      assert name[k - 1..k + 1] == [name[k - 1], name[k]];
      assert OccursAt(name, "//", k - 1);
    } else {
      assert name[k - 1..] == [name[k - 1]];
    }
  }

  lemma DotPlace(name: bytes, k: nat)
    requires name != [] && name[0] != '.' && PartAt(name, k, 1) && name[k] == '.'
    ensures Contains(name, "/./") || EndsWith(name, "/.")
  {
    if k + 1 < |name| {
      assert name[k - 1..k + 2] == [name[k - 1], name[k], name[k + 1]];
      assert OccursAt(name, "/./", k - 1);
    } else {
      assert name[k - 1..] == [name[k - 1], name[k]];
    }
  }

  /** The names accepted over SSH are exactly those of this shape. */
  lemma AcceptedExactly(name: bytes, max: nat)
    ensures Accepted(name, max) <==> NameShape(name, max)
  {
    if Accepted(name, max) {
      AcceptedShape(name, max);
    }
    if NameShape(name, max) {
      ShapedParts(name, max);
      NameOpens(name, max);
      hide Contains, NamePart, LetterOrDigit, IsAlphanumeric;
    }
  }

  lemma ShapedParts(name: bytes, max: nat)
    requires NameShape(name, max)
    ensures forall part | part in Split(name, '/') :: NamePart(part)
  {
    hide NameShape, NamePart;
    forall part | part in Split(name, '/')
      ensures NamePart(part)
    {
      var i :| 0 <= i < |Split(name, '/')| && Split(name, '/')[i] == part;
      var k := PartPlace(name, i);
      hide Split;
      ShapedPart(name, max, k, |part|);
    }
  }

  /* The argument of a command. */

  lemma SuffixStripped(t: bytes, name: bytes)
    ensures StripSuffix(t, ".git") == name <==> t == name + ".git" || (t == name && !EndsWith(name, ".git"))
  {
    var s := name + ".git";
    assert s[|name|..] == ".git" && s[..|name|] == name;
    if EndsWith(t, ".git") {
      assert t == t[..|t| - 4] + ".git";
    }
  }

  lemma PrefixStripped(text: bytes, t: bytes)
    requires t != [] && t[0] != '/'
    ensures StripPrefix(text, "/") == t <==> text == "/" + t || text == t
  {
    assert ("/" + t)[1..] == t;
    if "/" <= text {
      assert text == "/" + text[1..];
    }
  }

  lemma QuotedText(argument: bytes, text: bytes)
    ensures Quoted(argument) == Some(text) <==> argument == "'" + text + "'"
  {
    var s := "'" + text + "'";
    assert s[1..|s| - 1] == text;
    if Quoted(argument).Some? {
      assert argument == "'" + argument[1..|argument| - 1] + "'";
    }
  }

  /** A name is read from exactly its quoted forms: with or without a slash in front, with `.git` behind, or
      without it unless the name itself ends so. */
  lemma RepositoryExactly(argument: bytes, max: nat, name: bytes)
    ensures RepositoryOf(argument, max) == Ok(name)
       <==> NameShape(name, max)
            && (argument == "'" + (name + ".git") + "'" || argument == "'" + ("/" + (name + ".git")) + "'"
                || (!EndsWith(name, ".git") && (argument == "'" + name + "'" || argument == "'" + ("/" + name) + "'")))
    ensures RepositoryOf(argument, max) == Err(Unquoted)
       <==> |argument| < 2 || argument[0] != '\'' || argument[|argument| - 1] != '\''
  {
    AcceptedExactly(name, max);
    if NameShape(name, max) {
      NameOpens(name, max);
      SpelledExactly(argument, name);
    }
    hide Accepted, NameShape, Spelled;
    if Quoted(argument).Some? && Spelled(Quoted(argument).value) == name {
      assert RepositoryOf(argument, max) == if Accepted(name, max) then Ok(name) else Err(InvalidName);
    }
  }

  lemma NameOpens(name: bytes, max: nat)
    requires NameShape(name, max)
    ensures name != [] && name[0] != '/' && IsAlphanumeric(name[0])
  {
    Alphabet(name[0]);
    hide Contains, LetterOrDigit;
  }

  lemma SpelledExactly(argument: bytes, name: bytes)
    requires name != [] && name[0] != '/'
    ensures (Quoted(argument).Some? && Spelled(Quoted(argument).value) == name)
       <==> argument == "'" + (name + ".git") + "'" || argument == "'" + ("/" + (name + ".git")) + "'"
            || (!EndsWith(name, ".git") && (argument == "'" + name + "'" || argument == "'" + ("/" + name) + "'"))
  {
    QuotedText(argument, name);
    QuotedText(argument, "/" + name);
    QuotedText(argument, name + ".git");
    QuotedText(argument, "/" + (name + ".git"));
    if Quoted(argument).Some? {
      var text := Quoted(argument).value;
      QuotedText(argument, text);
      SuffixStripped(StripPrefix(text, "/"), name);
      PrefixStripped(text, name);
      PrefixStripped(text, name + ".git");
    }
    hide Quoted, StripPrefix, StripSuffix, EndsWith;
  }

  /* Safe names, by their characters. */

  /** The control characters of Unicode. */
  predicate Control(c: int) {
    0 <= c < 0x20 || 0x7F <= c <= 0x9F
  }

  ghost predicate NoControlAt(s: bytes) {
    forall i | 0 <= i < |s| :: !ControlAt(s, i)
  }

  lemma FirstControl(c: nat, rest: bytes)
    requires Scalar(c)
    ensures NoControlAt(Character(c) + rest) <==> !Control(c) && NoControlAt(rest)
  {
    var e, s := Character(c), Character(c) + rest;
    hide Scalar;
    CharacterControl(c, rest);
    assert forall i | 0 <= i < |rest| :: rest[i] == s[|e| + i];
    hide Character;
    forall i | 0 <= i < |rest|
      ensures ControlAt(rest, i) <==> ControlAt(s, |e| + i)
    {
    }
    forall i | |e| <= i < |s|
      ensures ControlAt(s, i) <==> ControlAt(rest, i - |e|)
    {
      assert i == |e| + (i - |e|);
    }
  }

  lemma CharacterControl(c: nat, rest: bytes)
    requires Scalar(c)
    ensures (forall i | 0 <= i < |Character(c)| :: !ControlAt(Character(c) + rest, i)) <==> !Control(c)
  {
    var e, s := Character(c), Character(c) + rest;
    assert s[0] == e[0];
    assert c >= 0x80 ==> s[1] == e[1];
    assert c >= 0x800 ==> s[2] == e[2];
    assert c >= 0x10000 ==> s[3] == e[3];
    assert Control(c) <==> ControlAt(s, 0);
    forall i | 0 < i < |e|
      ensures !ControlAt(s, i)
    {
      assert 0x80 <= s[i] as int <= 0xBF;
    }
  }

  lemma {:induction false} ControlsExactly(cs: seq<nat>)
    requires Scalars(cs)
    ensures NoControlAt(Characters(cs)) <==> forall i | 0 <= i < |cs| :: !Control(cs[i])
  {
    if cs == [] {
    } else {
      ControlsExactly(cs[1..]);
      FirstControl(cs[0], Characters(cs[1..]));
      hide Control, Character, NoControlAt;
      assert forall i | 1 <= i < |cs| :: cs[i] == cs[1..][i - 1];
    }
  }

  /** A name is safe exactly when no character of it is a control character, no byte a backslash, and no
      component empty, a dot or a double dot. */
  lemma SafeExactly(cs: seq<nat>)
    requires Scalars(cs)
    ensures var repo := Characters(cs);
      SafeRepository(repo) <==>
            && (forall i | 0 <= i < |cs| :: !Control(cs[i])) && '\\' !in repo
            && forall part | part in Split(repo, '/') :: part !in {"", ".", ".."}
  {
    hide *;
    ControlsExactly(cs);
    SafeIs(Characters(cs));
  }

  lemma SafeIs(repo: bytes)
    ensures SafeRepository(repo)
       <==> NoControlAt(repo) && '\\' !in repo && forall part | part in Split(repo, '/') :: part !in {"", ".", ".."}
  {
    OpensEmpty(repo);
    hide ControlAt, Split;
  }

  lemma OpensEmpty(repo: bytes)
    ensures repo == "" || StartsWith(repo, "/") ==> "" in Split(repo, '/')
  {
    assert Split(repo, '/')[0] in Split(repo, '/');
  }
}
