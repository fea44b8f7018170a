/** Names inside a route: the structural checks on tokens and the decoding into UTF-8. */
module Names {
  import opened Wrappers
  import opened Bytes
  import opened Utf8
  import opened Percent
  import opened Lexer

  const NUL: byte := '\0'

  /** The token runs between slashes, as `slice::split` yields them: always at least one. */
  function Components(value: seq<Token>): (cs: seq<seq<Token>>)
    ensures |cs| > 0
  {
    if value == [] then [[]]
    else
      var rest := Components(value[1..]);
      if value[0].kind == Slash then [[]] + rest else [[value[0]] + rest[0]] + rest[1..]
  }

  predicate IsLiteral(component: seq<Token>, expected: bytes) {
    |component| == 1 && component[0].raw == expected
  }

  predicate BadComponent(component: seq<Token>, index: nat, repo: bool) {
    || component == []
    || (exists t | t in component :: t.kind == Slash || t.kind == Boundary)
    || IsLiteral(component, ".")
    || IsLiteral(component, "..")
    || IsLiteral(component, "+")
    || (repo && ((index == 0 && IsLiteral(component, "-")) || component[|component| - 1].kind == GitSuffix))
  }

  ghost predicate Structural(value: seq<Token>, repo: bool) {
    value != [] && forall i | 0 <= i < |Components(value)| :: !BadComponent(Components(value)[i], i, repo)
  }

  /** The name that a run of tokens spells, decoding the text of the run in one piece. */
  ghost function NameOf(value: seq<Token>, repo: bool): Option<bytes> {
    var decoded := Decoded(Flatten(value));
    if Structural(value, repo) && Valid(decoded) && NUL !in decoded then Some(decoded) else None
  }

  method DecodeName(value: seq<Token>, repo: bool) returns (r: Option<bytes>)
    requires Lexed(value)
    ensures r == NameOf(value, repo)
  {
    if value == [] {
      return None;
    }
    var components := Components(value);
    for i := 0 to |components|
      invariant forall j | 0 <= j < i :: !BadComponent(components[j], j, repo)
    {
      if BadComponent(components[i], i, repo) {
        return None;
      }
    }
    r := DecodeTokens(value);
  }

  /** The decoding loop: one token at a time, each checked on its own. */
  method DecodeTokens(value: seq<Token>) returns (r: Option<bytes>)
    requires Lexed(value)
    ensures r == var decoded := Decoded(Flatten(value));
                 if Valid(decoded) && NUL !in decoded then Some(decoded) else None
  {
    hide *;
    TokenByToken(value);
    var decoded: bytes := [];
    DecodedAllAt(value, 0);
    for i := 0 to |value|
      invariant decoded + DecodedAll(value[i..]) == DecodedAll(value)
      invariant forall j | 0 <= j < i :: Valid(Decoded(value[j].raw))
    {
      var piece := Decoded(value[i].raw);
      if !Valid(piece) {
        return None;
      }
      DecodedAllAt(value, i);
      assert decoded + (piece + DecodedAll(value[i + 1..])) == decoded + piece + DecodedAll(value[i + 1..]);
      decoded := decoded + piece;
    }
    DecodedAllAt(value, |value|);
    assert decoded == DecodedAll(value);
    r := if NUL !in decoded then Some(decoded) else None;
  }

  function DecodedAll(value: seq<Token>): bytes {
    if value == [] then [] else Decoded(value[0].raw) + DecodedAll(value[1..])
  }

  lemma DecodedAllAt(value: seq<Token>, i: nat)
    requires i <= |value|
    ensures i < |value| ==> DecodedAll(value[i..]) == Decoded(value[i].raw) + DecodedAll(value[i + 1..])
    ensures DecodedAll(value[|value|..]) == []
    ensures value[0..] == value
  {
    if i < |value| {
      assert value[i..][1..] == value[i + 1..];
    }
  }

  /** Decoding token by token gives what decoding the whole text gives, and every piece is UTF-8
      exactly when the whole is: a lexed run never splits an escape, and texts never adjoin. */
  lemma {:induction false} TokenByToken(value: seq<Token>)
    requires Lexed(value)
    ensures Decoded(Flatten(value)) == DecodedAll(value)
    ensures Valid(DecodedAll(value)) <==> forall i | 0 <= i < |value| :: Valid(Decoded(value[i].raw))
  {
    if value == [] {
      assert Flatten(value) == [];
    } else {
      var t, rest := value[0], value[1..];
      TokenByToken(rest);
      TokenWhole(t);
      assert Flatten(value) == t.raw + Flatten(rest);
      hide Decoded, Valid, Whole, Flatten;
      DecodedAppend(t.raw, Flatten(rest));
      FirstToken(value);
      assert forall i | 0 < i < |value| :: value[i] == rest[i - 1];
    }
  }

  lemma TokenWhole(t: Token)
    requires TokenShape(t)
    ensures Whole(t.raw)
    ensures t.kind != Text ==> Decoded(t.raw) == t.raw && t.raw != [] && IsAscii(t.raw)
  {
    if t.kind != Text {
      PlainDecodes(t.raw);
    }
  }

  lemma {:induction false} PlainDecodes(s: bytes)
    requires forall i | 0 <= i < |s| :: s[i] != '%'
    ensures Whole(s) && Decoded(s) == s
  {
    if s == [] {
    } else {
      PlainDecodes(s[1..]);
    }
  }

  lemma FirstToken(value: seq<Token>)
    requires Lexed(value) && value != []
    ensures Valid(DecodedAll(value)) <==> Valid(Decoded(value[0].raw)) && Valid(DecodedAll(value[1..]))
  {
    var t, rest := value[0], value[1..];
    var d := Decoded(t.raw);
    TokenWhole(t);
    hide Decoded, Valid;
    if t.kind != Text {
      AsciiValid(d);
      ValidAppend(d, DecodedAll(rest));
    } else if rest != [] {
      TokenWhole(rest[0]);
      TextThenAscii(d, Decoded(rest[0].raw), DecodedAll(rest[1..]));
    } else {
      assert d + [] == d;
      AsciiValid([]);
    }
  }
}
