/** A route whose names are written in some way, byte by byte: exactly when it is read back. */
module SpelledTexts {
  import opened Wrappers
  import opened RefShapes
  import opened Bytes
  import opened Utf8
  import opened Percent
  import opened Lexer
  import opened Names
  import opened Grammar
  import opened Urls
  import opened Spellings
  import opened SpelledPieces
  import opened SpelledRoutes

  /** Names escaped in any way, and everything else of the template as it is. */
  predicate Writes(text: bytes, piece: Piece) {
    match piece
    case Mark(kind) => kind != Text && text == Literal(kind)
    case Word(word) => text == word
    case _ => Whole(text) && Decoded(text) == piece.Parameter()
  }

  predicate WritesAll(texts: seq<bytes>, pieces: seq<Piece>) {
    |texts| == |pieces| && forall i | 0 <= i < |texts| :: Writes(texts[i], pieces[i])
  }

  function Joined(texts: seq<bytes>): bytes {
    if texts == [] then [] else texts[0] + Joined(texts[1..])
  }

  /** Every piece is written by a text of its own. */
  predicate AllTexts(texts: seq<bytes>, pieces: seq<Piece>)
    requires |texts| == |pieces|
  {
    forall i | 0 <= i < |texts| :: PieceText(texts[i], pieces[i], NextPiece(pieces, i) == Some(Mark(GitSuffix)))
  }

  lemma {:induction false} DecodedNothing(c: bytes)
    ensures Decoded(c) == [] <==> c == []
  {
  }

  /** Of two texts of one name, neither goes on where the other ends. */
  lemma SameText(a: bytes, b: bytes, s: bytes)
    requires a <= s && b <= s && Whole(a) && Whole(b) && Decoded(a) == Decoded(b)
    ensures a == b
  {
    if |a| <= |b| {
      LongerText(a, b, s);
    } else {
      LongerText(b, a, s);
    }
  }

  lemma LongerText(a: bytes, b: bytes, s: bytes)
    requires a <= s && b <= s && Whole(a) && Decoded(a) == Decoded(b) && |a| <= |b|
    ensures a == b
  {
    hide Decoded, Whole;
    var c := b[|a|..];
    assert a == s[..|a|] && b == s[..|b|];
    assert b == a + c;
    DecodedAppend(a, c);
    DecodedNothing(c);
  }

  lemma TextDecodes(x: bytes, piece: Piece, suffix: bool)
    requires PieceText(x, piece, suffix) && piece.IsName()
    ensures Whole(x) && Decoded(x) == piece.Parameter()
  {
    if piece.OidName? {
      OidIsText(piece.oid);
      PlainDecodes(x);
    } else if piece.RevName? && piece.rev.Commit? {
      OidIsText(piece.rev.oid);
      PlainDecodes(x);
    } else if piece.RevName? && piece.rev.Head? {
      PlainDecodes(x);
    } else if piece.RevName? {
      RefsDecoded(x[5..]);
      assert x == "refs/" + x[5..];
    }
    hide Whole, Decoded, Split, RefShape;
  }

  /** What spells a piece and what writes it, at the front of one text, are the same. */
  lemma SamePiece(x: bytes, text: bytes, s: bytes, piece: Piece, suffix: bool)
    requires PieceText(x, piece, suffix) && Writes(text, piece) && x <= s && text <= s
    ensures x == text
  {
    if piece.IsName() {
      TextDecodes(x, piece, suffix);
      hide PieceText, Whole, Decoded;
      SameText(x, text, s);
    }
  }

  lemma FirstText(texts: seq<bytes>, pieces: seq<Piece>)
    requires WritesAll(texts, pieces) && pieces != []
    ensures Writes(texts[0], pieces[0]) && WritesAll(texts[1..], pieces[1..])
    ensures AllTexts(texts, pieces)
       <==> PieceText(texts[0], pieces[0], SuffixFollows(pieces)) && AllTexts(texts[1..], pieces[1..])
    ensures Joined(texts) == texts[0] + Joined(texts[1..])
  {
    hide Writes, PieceText;
    var texts', pieces' := texts[1..], pieces[1..];
    assert forall i | 0 <= i < |texts'| :: texts'[i] == texts[i + 1] && pieces'[i] == pieces[i + 1];
    assert forall i | 0 <= i < |texts'| :: NextPiece(pieces', i) == NextPiece(pieces, i + 1);
    assert forall i | 0 < i < |texts| :: texts[i] == texts'[i - 1];
  }

  lemma {:induction false} WritingSpells(texts: seq<bytes>, pieces: seq<Piece>)
    requires |texts| == |pieces| && WritesAll(texts, pieces)
    ensures Spells(Joined(texts), pieces) <==> AllTexts(texts, pieces)
    decreases |pieces|
  {
    hide *;
    if pieces == [] {
      NoTexts(texts, pieces);
    } else {
      FirstText(texts, pieces);
      WritingSpells(texts[1..], pieces[1..]);
      var s := Joined(texts);
      if AllTexts(texts, pieces) {
        PiecesSpell(texts[0], Joined(texts[1..]), pieces);
      }
      if Spells(s, pieces) {
        var x, y := SpellsCut(s, pieces);
        SamePiece(x, texts[0], s, pieces[0], SuffixFollows(pieces));
        assert s[|x|..] == y && s[|x|..] == Joined(texts[1..]);
      }
    }
  }

  lemma NoTexts(texts: seq<bytes>, pieces: seq<Piece>)
    requires pieces == [] && WritesAll(texts, pieces)
    ensures Spells(Joined(texts), pieces) && AllTexts(texts, pieces)
  {
  }

  /** Written in any way, a route is read back exactly when each of its names is written by a text of its own. */
  lemma WritingReads(texts: seq<bytes>, route: Route)
    requires |texts| == |Template(route)| && WritesAll(texts, Template(route))
    ensures Denotes(Joined(texts), route) <==> AllTexts(texts, Template(route))
  {
    hide *;
    WritingSpells(texts, Template(route));
    SpelledExactly(Joined(texts), route);
  }

  /* Names, byte by byte. */

  /** Every byte that structures a URL is escaped where it is meant as a byte. */
  predicate Escapes(x: bytes, ways: seq<Way>) {
    |ways| == |x| && forall i | 0 <= i < |x| :: x[i] in "%?#" ==> ways[i].Escape?
  }

  lemma {:induction false} EscapesLegible(x: bytes, ways: seq<Way>)
    requires Escapes(x, ways)
    ensures Unescaped(x, ways) && AllEscaped(x, ways)
    ensures '?' !in Written(x, ways) && '#' !in Written(x, ways)
  {
    if x == [] {
    } else {
      assert Escapes(x[1..], ways[1..]);
      EscapesLegible(x[1..], ways[1..]);
      PlainByte(x[0], ways[0]);
      hide WrittenByte, EscapeAt;
    }
  }

  lemma PlainByte(c: byte, way: Way)
    requires c in "%?#" ==> way.Escape?
    ensures '?' !in WrittenByte(c, way) && '#' !in WrittenByte(c, way)
  {
    if way.Escape? {
      HexReads(c as int / 16, way.first);
      HexReads(c as int % 16, way.second);
      hide Hex;
    }
  }

  /** Written in any way, a name is the text of a path exactly when it is a NUL-free string, and no component
      of what is written is empty, a dot, a double dot or a plus sign. */
  lemma PathWritten(x: bytes, ways: seq<Way>)
    requires Escapes(x, ways)
    ensures Writes(Written(x, ways), PathName(x))
    ensures PathText(Written(x, ways))
       <==> Valid(x) && NUL !in x && forall part | part in Split(Written(x, ways), '/') :: PlainPart(part)
  {
    EscapesLegible(x, ways);
    WrittenDecodes(x, ways);
    hide Written, Decoded, Whole, Valid, Split, PlainPart, Unescaped;
  }
}
