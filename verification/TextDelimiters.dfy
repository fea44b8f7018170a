/** Which texts are lexed without a boundary, without a `.git`, and apart from what follows. */
module TextDelimiters {
  import opened Wrappers
  import opened Bytes
  import opened Percent
  import opened Lexer
  import opened Names
  import opened Grammar
  import opened Urls
  import opened Parts
  import opened Spellings
  import opened TextTokens

  /* Dots. */

  lemma {:induction false} DotsAppend(a: string, b: string)
    ensures TrailingDots(a + b) == if TrailingDots(b) == |b| then |b| + TrailingDots(a) else TrailingDots(b)
    decreases |b|
  {
    if b == "" {
      assert a + b == a;
    } else {
      var b' := b[..|b| - 1];
      assert (a + b)[..|a + b| - 1] == a + b';
      DotsAppend(a, b');
    }
  }

  lemma {:induction false} NotAllDots(b: string)
    requires b != "" && b[0] != '.'
    ensures TrailingDots(b) < |b|
  {
    if b[|b| - 1] == '.' {
      NotAllDots(b[..|b| - 1]);
    }
  }

  lemma FewDots()
    ensures TrailingDots("") == 0 && TrailingDots(".") == 1 && TrailingDots("..") == 2
  {
    assert "."[..0] == "" && ".."[..1] == ".";
  }

  /** A unit in front changes no parity: a double dot adds two dots, and a single one is not followed by another. */
  lemma OddBehind(e: string, x: string)
    requires e != ""
    requires e == ".." || e[|e| - 1] != '.' || (e == "." && x != "" && x[0] != '.')
    ensures OddDots(e + x) <==> OddDots(x)
  {
    DotsAppend(e, x);
    FewDots();
    if x != "" && x[0] != '.' {
      NotAllDots(x);
    }
  }

  /* Components. */

  lemma {:induction false} SplitBehind(e: bytes, x: bytes)
    requires '/' !in e
    ensures var parts := Split(x, '/'); Split(e + x, '/') == [e + parts[0]] + parts[1..]
  {
    var parts := Split(x, '/');
    if e == [] {
      assert e + x == x && e + parts[0] == parts[0];
    } else {
      var s := e + x;
      assert s[1..] == e[1..] + x;
      SplitBehind(e[1..], x);
      assert [e[0]] + (e[1..] + parts[0]) == e + parts[0];
      var rest := [e[1..] + parts[0]] + parts[1..];
      assert rest[1..] == parts[1..];
    }
  }

  lemma NoneSuffixedBehind(p: string, parts: seq<string>, butLast: bool)
    requires parts != []
    ensures NoneSuffixed([p] + parts[1..], butLast)
       <==> (|parts| > 1 || !butLast ==> !Suffixed(p)) && NoneSuffixed([""] + parts[1..], butLast)
    ensures !Suffixed("")
  {
    hide Suffixed;
    NothingSuffixed();
    var a, b := [p] + parts[1..], [""] + parts[1..];
    assert a[0] == p && b[0] == "" && forall i | 1 <= i < |a| :: a[i] == b[i];
  }

  lemma NothingSuffixed()
    ensures !Suffixed("")
  {
  }

  /** A component and the same one behind a unit: only a single dot in front of `git` makes a suffix. */
  lemma SuffixedBehind(e: string, p: string)
    requires e == ".." || (e != "" && e[|e| - 1] != '.' && OneUnit(e)) || (e == "." && (p == "" || p[0] != '.'))
    ensures Suffixed(e + p) <==> if e == "." && p == "git" then true else Suffixed(p)
  {
    if |p| >= 3 {
      var front, front' := p[..|p| - 3], (e + p)[..|e + p| - 3];
      assert front' == e + front;
      assert (e + p)[|e + p| - 3..] == p[|p| - 3..];
      if e == "." && front == "" {
        FewDots();
        assert e + front == e;
      } else {
        OddBehind(e, front);
      }
    } else {
      ShortBehind(e, p);
    }
  }

  /** One byte that is neither dot nor slash, or an escape. */
  predicate OneUnit(e: string) {
    |e| == 1 || (|e| == 3 && e[0] == '%' && IsHexDigit(e[1]) && IsHexDigit(e[2]))
  }

  lemma ShortBehind(e: string, p: string)
    requires |p| < 3 && (OneUnit(e) || e == "..")
    ensures !Suffixed(e + p) && !Suffixed(p)
  {
    var s := e + p;
    assert EndsWith(s, "git") ==> s[|s| - 3] == s[|s| - 3..][0] == 'g';
    if |e| == 3 {
      assert s[|p|] == e[|p|];
    } else if |s| > 3 {
      assert s[1] == e[1];
    }
  }

  /* Units. */

  /** What may follow a name: nothing, a slash or a boundary, a range or a `.git`. */
  predicate Border(y: bytes) {
    y == [] || y[0] == '/' || y[0] == '.'
  }

  predicate DotFollows(y: bytes) {
    y != [] && y[0] == '.'
  }

  /** The unit at the front of `x`, in front of `y`. */
  lemma UnitKinds(x: bytes, y: bytes)
    requires x != [] && Border(y) && !UnitAt(x + y).Bad? && UnitAt(x + y).width <= |x|
    ensures var u := UnitAt(x + y); var e, x' := x[..u.width], x[u.width..];
      && x == e + x' && e != []
      && (u.Plain? ==> OneUnit(e) && '/' !in e && (e[|e| - 1] == '.' ==> e == ".") && LoneDot(e, x', y))
      && (u.Delimiter? ==> u.kind != Text && e == Literal(u.kind))
      && (u.Delimiter? && u.kind == GitSuffix ==> if x' == [] then !DotFollows(y) else x'[0] == '/')
  {
    var u := UnitAt(x + y);
    UnitShape(x + y);
    var s, e := x + y, x[..u.width];
    assert e == s[..u.width] && x == e + x[u.width..];
    assert forall i | 0 <= i < |x| :: s[i] == x[i];
    if u.Plain? && e == "." {
      LoneDotHere(x, y);
    } else if u.Delimiter? && u.kind == GitSuffix {
      assert |x| == 4 ==> s == ".git" + y;
    }
  }

  /** A dot that is text: neither a dot nor a `git` that ends its component comes behind it. */
  predicate LoneDot(e: bytes, x: bytes, y: bytes) {
    e == "." ==>
      && (if x == [] then !DotFollows(y) else x[0] != '.')
      && (Split(x, '/')[0] == "git" ==> |Split(x, '/')| == 1 && DotFollows(y))
  }

  lemma LoneDotHere(x: bytes, y: bytes)
    requires x != [] && Border(y) && x[0] == '.' && UnitAt(x + y) == Plain(1)
    ensures LoneDot(".", x[1..], y)
  {
    var s, x' := x + y, x[1..];
    assert !StartsWith(s, "..") && !GitSuffixAt(s);
    assert |s| >= 2 ==> s[..2] == [s[0], s[1]];
    assert s[1..] == x' + y;
    if Split(x', '/')[0] == "git" {
      GitComponent(x', y);
      assert s == ['.'] + (x' + y);
    }
  }

  lemma GitComponent(x: bytes, y: bytes)
    requires Border(y) && Split(x, '/')[0] == "git"
    ensures GitSuffixAt(['.'] + (x + y)) || (|Split(x, '/')| == 1 && DotFollows(y))
  {
    var k := PartPlace(x, 0);
    assert k == 0 && x[0..3] == "git";
    hide Split;
    var s := ['.'] + (x + y);
    assert s[..4] == ['.'] + x[0..3];
    assert s[4..] == x[3..] + y;
    assert |s| > 4 ==> s[4] == s[4..][0];
  }

  lemma OddUnit(x: bytes, y: bytes)
    requires x != [] && DotFollows(y) && !UnitAt(x + y).Bad? && UnitAt(x + y).width <= |x|
    ensures OddDots(x) <==> OddDots(x[UnitAt(x + y).width..])
  {
    UnitKinds(x, y);
    var u := UnitAt(x + y);
    var e, x' := x[..u.width], x[u.width..];
    hide UnitAt, OneUnit, OddDots;
    OddBehind(e, x');
  }

  /** A text that is lexed apart from a dot behind it ends in no odd run of dots. */
  lemma {:induction false} LexedNotOdd(x: bytes, y: bytes)
    requires InFront(x, y).Some? && DotFollows(y)
    ensures !OddDots(x)
    decreases |x|
  {
    if x == [] {
      FewDots();
    } else {
      InFrontUnit(x, y);
      hide InFront, UnitAt, OddDots;
      LexedNotOdd(x[UnitAt(x + y).width..], y);
      OddUnit(x, y);
    }
  }

  /* Boundaries. */

  /** No boundary starts in `x`. */
  ghost predicate NoBoundary(x: bytes, y: bytes) {
    forall i | 0 <= i < |x| :: !StartsWith((x + y)[i..], "/+/")
  }

  lemma NoBoundaryLater(x: bytes, y: bytes, w: nat)
    requires NoBoundary(x, y) && w <= |x|
    ensures NoBoundary(x[w..], y)
  {
    forall i | 0 <= i < |x[w..]|
      ensures !StartsWith((x[w..] + y)[i..], "/+/")
    {
      assert (x[w..] + y)[i..] == (x + y)[w + i..];
    }
  }

  /** Where no component is a plus sign, no boundary starts. */
  lemma NoPlusNoBoundary(x: bytes, y: bytes)
    requires Border(y) && "+" !in Split(x, '/')
    ensures NoBoundary(x, y)
  {
    forall i | 0 <= i < |x|
      ensures !StartsWith((x + y)[i..], "/+/")
    {
      if StartsWith((x + y)[i..], "/+/") {
        PlusPart(x, y, i);
      }
    }
  }

  lemma PlusPart(x: bytes, y: bytes, i: nat)
    requires Border(y) && i < |x| && StartsWith((x + y)[i..], "/+/")
    ensures "+" in Split(x, '/')
  {
    PlusPlace(x, y, i);
    var j := PlacePart(x, i + 1, 1);
    hide Split;
    assert Split(x, '/')[j] in Split(x, '/');
  }

  lemma PlusPlace(x: bytes, y: bytes, i: nat)
    requires Border(y) && i < |x| && StartsWith((x + y)[i..], "/+/")
    ensures i + 1 < |x| && x[i + 1..i + 2] == "+" && PartAt(x, i + 1, 1)
  {
    var s := (x + y)[i..];
    assert s[0] == '/' && s[1] == '+' && s[2] == '/';
    assert s == x[i..] + y;
    assert x[i + 1..i + 2] == [x[i + 1]];
  }

  lemma FreeCons(t: Token, ts: seq<Token>, stops: set<Kind>)
    ensures Free([t] + ts, stops) <==> t.kind !in stops && Free(ts, stops)
  {
    var a := [t] + ts;
    assert a[0] == t;
    assert forall i | 0 <= i < |ts| :: ts[i] == a[i + 1];
  }

  lemma FreeAlike(a: seq<Token>, b: seq<Token>, stops: set<Kind>)
    requires |a| == |b| && forall i | 0 <= i < |a| :: a[i].kind == b[i].kind
    ensures Free(a, stops) <==> Free(b, stops)
  {
  }

  lemma FreeBehind(u: Unit, e: bytes, ts: seq<Token>, stops: set<Kind>)
    requires !u.Bad? && Text !in stops
    ensures Free(Behind(u, e, ts), stops) <==> (u.Delimiter? ==> u.kind !in stops) && Free(ts, stops)
  {
    hide Free;
    if u.Delimiter? {
      FreeCons(Token(u.kind, e), ts, stops);
    } else if e != [] && ts != [] && ts[0].kind == Text {
      FreeAlike(Behind(u, e, ts), ts, stops);
    } else if e != [] {
      FreeCons(Token(Text, e), ts, stops);
    }
  }

  lemma LegibleUnit(x: bytes, y: bytes)
    requires x != [] && Legible(x) && Border(y) && NoBoundary(x, y) && (DotFollows(y) ==> !OddDots(x))
    ensures var u := UnitAt(x + y);
      !u.Bad? && u.width <= |x| && Legible(x[u.width..]) && (u.Delimiter? ==> u.kind != Boundary)
  {
    var s := x + y;
    assert s[0..] == s;
    assert forall i | 0 <= i < |x| :: s[i] == x[i];
    assert !StartsWith(s, "/+/");
    FewDots();
    if x[0] == '%' {
      assert EscapeAt(s);
    } else if StartsWith(s, "..") {
      assert |x| == 1 ==> x == ".";
      assert |x| > 1 ==> Whole(x[1..]) && x[1..][0] == s[1] && x[1..][1..] == x[2..];
    } else if GitSuffixAt(s) {
      ShortGit(x, y);
      WholeLater(x);
    }
  }

  lemma WholeLater(x: bytes)
    requires |x| >= 4 && Whole(x) && x[0] != '%' && x[1] != '%' && x[2] != '%' && x[3] != '%'
    ensures Whole(x[4..])
  {
    var a, b, c := x[1..], x[2..], x[3..];
    assert a[1..] == b && b[1..] == c && c[1..] == x[4..];
    assert a[0] == x[1] && b[0] == x[2] && c[0] == x[3];
    assert Whole(a) && Whole(b) && Whole(c);
  }

  lemma ShortGit(x: bytes, y: bytes)
    requires x != [] && Border(y) && GitSuffixAt(x + y)
    ensures |x| >= 4
  {
    var s := x + y;
    assert s[..4] == ".git";
    assert s[1] == 'g' && s[2] == 'i' && s[3] == 't';
    assert s[|x|..] == y;
    assert |x| < |s| ==> y != [] && y[0] == s[|x|];
  }

  /** A legible text is lexed apart from what follows, unless a boundary or a double dot reaches over. */
  lemma {:induction false} LegibleLexes(x: bytes, y: bytes)
    requires Legible(x) && Border(y) && NoBoundary(x, y) && (DotFollows(y) ==> !OddDots(x))
    ensures InFront(x, y).Some? && Free(InFront(x, y).value, {Boundary})
    decreases |x|
  {
    if x == [] {
    } else {
      LegibleUnit(x, y);
      InFrontUnit(x, y);
      var u := UnitAt(x + y);
      NoBoundaryLater(x, y, u.width);
      if DotFollows(y) {
        OddUnit(x, y);
      }
      hide InFront, UnitAt, OddDots, NoBoundary, Legible, Free, Behind;
      LegibleLexes(x[u.width..], y);
      FreeBehind(u, x[..u.width], InFront(x[u.width..], y).value, {Boundary});
    }
  }

  /* Suffixes. */

  lemma SlashSuffixed(x: bytes, x': bytes, butLast: bool)
    requires x == "/" + x'
    ensures NoneSuffixed(Split(x, '/'), butLast) <==> NoneSuffixed(Split(x', '/'), butLast)
  {
    assert x[1..] == x';
    SplitCons(x);
    NothingSuffixed();
    hide Split, Suffixed;
    var parts, parts' := Split(x, '/'), Split(x', '/');
    assert forall i | 0 <= i < |parts'| :: parts'[i] == parts[i + 1];
  }

  lemma TextSuffixed(e: bytes, x': bytes, y: bytes)
    requires '/' !in e && (e == ".." || (OneUnit(e) && (e[|e| - 1] == '.' ==> e == ".") && LoneDot(e, x', y)))
    ensures NoneSuffixed(Split(e + x', '/'), DotFollows(y)) <==> NoneSuffixed(Split(x', '/'), DotFollows(y))
  {
    var parts := Split(x', '/');
    SplitBehind(e, x');
    if e == "." {
      FirstDotless(x');
    }
    hide Split, Suffixed, OneUnit;
    SuffixedBehind(e, parts[0]);
    NoneSuffixedBehind(e + parts[0], parts, DotFollows(y));
    NoneSuffixedBehind(parts[0], parts, DotFollows(y));
    assert parts == [parts[0]] + parts[1..];
    hide NoneSuffixed;
  }

  lemma FirstDotless(x: bytes)
    requires x == [] || x[0] != '.'
    ensures Split(x, '/')[0] == "" || Split(x, '/')[0][0] != '.'
  {
    if x != [] {
      SplitCons(x);
    }
  }

  lemma GitSuffixed(x': bytes, y: bytes)
    requires if x' == [] then !DotFollows(y) else x'[0] == '/'
    ensures !NoneSuffixed(Split(".git" + x', '/'), DotFollows(y))
  {
    var parts := Split(x', '/');
    SplitBehind(".git", x');
    if x' != [] {
      SplitCons(x');
    }
    var all := Split(".git" + x', '/');
    hide Split;
    assert all[0] == ".git" + parts[0] == ".git";
    FewDots();
    assert ".git"[1..] == "git" && ".git"[..1] == ".";
    assert Suffixed(all[0]);
  }

  /** No token is a `.git` exactly when no component is suffixed, but for the last one in front of a dot. */
  lemma {:induction false} SuffixTokens(x: bytes, y: bytes)
    requires InFront(x, y).Some? && Border(y) && Free(InFront(x, y).value, {Boundary})
    ensures Free(InFront(x, y).value, {GitSuffix}) <==> NoneSuffixed(Split(x, '/'), DotFollows(y))
    decreases |x|
  {
    hide *;
    if x == [] {
      EmptySuffixTokens(y);
    } else {
      InFrontUnit(x, y);
      UnitKinds(x, y);
      var u := UnitAt(x + y);
      var e, x' := x[..u.width], x[u.width..];
      var ts := InFront(x', y).value;
      FreeBehind(u, e, ts, {Boundary});
      FreeBehind(u, e, ts, {GitSuffix});
      SuffixTokens(x', y);
      SuffixUnit(u, e, x', y);
    }
  }

  lemma EmptySuffixTokens(y: bytes)
    ensures Free(InFront([], y).value, {GitSuffix}) && NoneSuffixed(Split([], '/'), DotFollows(y))
  {
    NothingSuffixed();
  }

  lemma SuffixUnit(u: Unit, e: bytes, x': bytes, y: bytes)
    requires !u.Bad? && e != []
    requires u.Plain? ==> OneUnit(e) && '/' !in e && (e[|e| - 1] == '.' ==> e == ".") && LoneDot(e, x', y)
    requires u.Delimiter? ==> u.kind !in {Text, Boundary} && e == Literal(u.kind)
    requires u.Delimiter? && u.kind == GitSuffix ==> if x' == [] then !DotFollows(y) else x'[0] == '/'
    ensures NoneSuffixed(Split(e + x', '/'), DotFollows(y))
       <==> (u.Delimiter? ==> u.kind != GitSuffix) && NoneSuffixed(Split(x', '/'), DotFollows(y))
  {
    hide Split, NoneSuffixed, OneUnit, LoneDot;
    if u.Plain? {
      TextSuffixed(e, x', y);
    } else if u.kind == Slash {
      SlashSuffixed(e + x', x', DotFollows(y));
    } else if u.kind == Range {
      TextSuffixed(e, x', y);
    } else {
      GitSuffixed(x', y);
    }
  }
}
