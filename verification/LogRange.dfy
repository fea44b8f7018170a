/** The range of a log search: selectors between white space, each made of ends between double dots. */
module LogRange {
  import opened Wrappers
  import opened Bytes
  import opened LogQuery

  /* Selectors. */

  /** Tab, line feed, form feed, carriage return and space. */
  predicate Blank(c: char) {
    c as int in {0x09, 0x0A, 0x0C, 0x0D, 0x20}
  }

  lemma BlankIsSpace()
    ensures forall c: char :: IsAsciiSpace(c) <==> Blank(c)
  {
  }

  predicate IsGap(s: bytes) {
    forall i | 0 <= i < |s| :: Blank(s[i])
  }

  predicate IsWord(s: bytes) {
    s != [] && forall i | 0 <= i < |s| :: !Blank(s[i])
  }

  /** Words with a gap on either side of each. */
  function Spread(words: seq<bytes>, gaps: seq<bytes>): bytes
    requires |gaps| == |words| + 1
  {
    if words == [] then gaps[0] else gaps[0] + (words[0] + Spread(words[1..], gaps[1..]))
  }

  predicate WellSpread(words: seq<bytes>, gaps: seq<bytes>) {
    && |gaps| == |words| + 1
    && (forall i | 0 <= i < |words| :: IsWord(words[i]))
    && (forall i | 0 <= i < |gaps| :: IsGap(gaps[i]))
    && (forall i | 0 < i < |words| :: gaps[i] != [])
  }

  lemma {:induction false} GapPasses(gap: bytes, rest: bytes)
    requires IsGap(gap)
    ensures SelectorsAfter(gap + rest, []) == SelectorsAfter(rest, [])
  {
    if gap == [] {
      assert gap + rest == rest;
    } else {
      BlankIsSpace();
      assert (gap + rest)[1..] == gap[1..] + rest;
      GapPasses(gap[1..], rest);
      hide IsAsciiSpace, Blank;
    }
  }

  lemma {:induction false} WordPasses(w: bytes, word: bytes, rest: bytes)
    requires forall i | 0 <= i < |w| :: !Blank(w[i])
    ensures SelectorsAfter(w + rest, word) == SelectorsAfter(rest, word + w)
    decreases |w|
  {
    if w == [] {
      assert w + rest == rest && word + w == word;
    } else {
      BlankIsSpace();
      assert (w + rest)[1..] == w[1..] + rest;
      WordPasses(w[1..], word + [w[0]], rest);
      assert word + [w[0]] + w[1..] == word + w;
      hide IsAsciiSpace, Blank;
    }
  }

  lemma WordEnds(word: bytes, rest: bytes)
    requires word != [] && (rest == [] || Blank(rest[0]))
    ensures SelectorsAfter(rest, word) == [word] + SelectorsAfter(rest, [])
  {
    BlankIsSpace();
    if rest == [] {
      assert [word] + [] == [word];
    }
  }

  /** The selectors of a text are its words, whatever the white space around them. */
  lemma {:induction false} SelectorsRead(words: seq<bytes>, gaps: seq<bytes>)
    requires WellSpread(words, gaps)
    ensures Selectors(Spread(words, gaps)) == words
    decreases |words|
  {
    if words == [] {
      GapPasses(gaps[0], []);
      assert gaps[0] + [] == gaps[0];
    } else {
      var rest := Spread(words[1..], gaps[1..]);
      RestSpread(words, gaps);
      SelectorsRead(words[1..], gaps[1..]);
      assert IsWord(words[0]) && IsGap(gaps[0]);
      hide WellSpread, Spread, Blank;
      GapPasses(gaps[0], words[0] + rest);
      WordPasses(words[0], [], rest);
      assert [] + words[0] == words[0];
      WordEnds(words[0], rest);
      assert Spread(words, gaps) == gaps[0] + (words[0] + rest);
      assert words == [words[0]] + words[1..];
    }
  }

  lemma RestSpread(words: seq<bytes>, gaps: seq<bytes>)
    requires WellSpread(words, gaps) && words != []
    ensures WellSpread(words[1..], gaps[1..])
    ensures var rest := Spread(words[1..], gaps[1..]); rest == [] || Blank(rest[0])
    ensures Spread(words, gaps) == gaps[0] + (words[0] + Spread(words[1..], gaps[1..]))
  {
    hide IsAsciiSpace, Blank;
    var ws, gs := words[1..], gaps[1..];
    assert forall i | 0 <= i < |gs| :: gs[i] == gaps[i + 1];
    assert forall i | 0 <= i < |ws| :: ws[i] == words[i + 1];
    assert |words| > 1 ==> gaps[1] != [] && gs[0] == gaps[1];
    assert IsGap(gs[0]);
  }

  /* Ends. */

  function Dotted(ends: seq<bytes>): bytes
    requires ends != []
  {
    if |ends| == 1 then ends[0] else ends[0] + (".." + Dotted(ends[1..]))
  }

  /** No end holds a double dot, and none but the last ends in a dot. */
  predicate Undotted(ends: seq<bytes>) {
    && (forall i | 0 <= i < |ends| :: forall j | 0 <= j < |ends[i]| - 1 :: ends[i][j] != '.' || ends[i][j + 1] != '.')
    && (forall i | 0 <= i < |ends| - 1 :: ends[i] != [] ==> ends[i][|ends[i]| - 1] != '.')
  }

  /** Splitting at the double dots loses nothing. */
  lemma {:induction false} EndsJoined(s: bytes)
    ensures Dotted(RangeEnds(s)) == s
    decreases |s|
  {
    if s == [] {
    } else if StartsWith(s, "..") {
      EndsJoined(s[2..]);
      var rest := RangeEnds(s[2..]);
      assert ([[]] + rest)[1..] == rest;
      assert s == ".." + s[2..];
    } else {
      EndsJoined(s[1..]);
      var rest := RangeEnds(s[1..]);
      var ends := [[s[0]] + rest[0]] + rest[1..];
      assert ends[1..] == rest[1..];
      assert s == [s[0]] + s[1..];
      assert |rest| > 1 ==>
        [s[0]] + (rest[0] + (".." + Dotted(rest[1..]))) == [s[0]] + rest[0] + (".." + Dotted(rest[1..]));
    }
  }

  /** The ends of a selector are what stands between its double dots. */
  lemma {:induction false} EndsRead(ends: seq<bytes>)
    requires ends != [] && Undotted(ends)
    ensures RangeEnds(Dotted(ends)) == ends
    decreases |Dotted(ends)|
  {
    var e, s := ends[0], Dotted(ends);
    if e == [] {
      if |ends| > 1 {
        assert s == ".." + Dotted(ends[1..]) && s[2..] == Dotted(ends[1..]);
        EndsRead(ends[1..]);
        assert ends == [[]] + ends[1..];
      }
    } else {
      var ends' := [e[1..]] + ends[1..];
      assert ends'[1..] == ends[1..];
      assert s == [e[0]] + Dotted(ends') && s[1..] == Dotted(ends');
      assert Undotted(ends') by {
        FewerDots(ends);
      }
      NoDotsAhead(ends);
      EndsRead(ends');
      hide Undotted, Dotted;
      assert [e[0]] + e[1..] == e && ends == [e] + ends[1..];
    }
  }

  lemma FewerDots(ends: seq<bytes>)
    requires ends != [] && Undotted(ends) && ends[0] != []
    ensures Undotted([ends[0][1..]] + ends[1..])
  {
    var ends' := [ends[0][1..]] + ends[1..];
    assert forall i | 1 <= i < |ends'| :: ends'[i] == ends[i];
    assert forall j | 0 <= j < |ends[0][1..]| :: ends[0][1..][j] == ends[0][j + 1];
  }

  lemma NoDotsAhead(ends: seq<bytes>)
    requires ends != [] && Undotted(ends) && ends[0] != []
    ensures !StartsWith(Dotted(ends), "..")
  {
    var e, s := ends[0], Dotted(ends);
    assert s[0] == e[0];
    if |e| > 1 {
      assert s[1] == e[1];
      assert e[0] != '.' || e[1] != '.';
    } else {
      assert |ends| > 1 ==> e[|e| - 1] != '.';
    }
  }

  /* Ranges. */

  /** `HEAD`, a ref, or a full object name in either case. */
  predicate IsEnd(e: bytes) {
    || e == "HEAD" || StartsWith(e, "refs/")
    || ((|e| == 40 || |e| == 64) && forall c | c in e :: c in "0123456789abcdefABCDEF")
  }

  lemma EndIsValid(e: bytes)
    ensures ValidEnd(e) <==> IsEnd(e)
    ensures ValidEnd(e) ==> e != [] && e[0] != '-'
  {
    FullOidExactly(e);
    assert e != [] && e[0] == '-' ==> !FullOid(e);
    hide FullOid;
  }

  lemma SelectorIsValid(ends: seq<bytes>)
    requires ends != [] && Undotted(ends)
    ensures ValidSelector(Dotted(ends)) <==> forall i | 0 <= i < |ends| :: IsEnd(ends[i])
  {
    EndsRead(ends);
    forall i | 0 <= i < |ends|
      ensures ends[i] in ends && (ValidEnd(ends[i]) <==> IsEnd(ends[i]))
    {
      EndIsValid(ends[i]);
    }
    EndIsValid(ends[0]);
    assert ends[0] != [] ==> Dotted(ends)[0] == ends[0][0];
    hide ValidEnd, IsEnd, RangeEnds, Dotted, Undotted;
  }

  /** A range is valid exactly when it has a selector and every end of every selector is one. */
  lemma RangeReads(selectors: seq<seq<bytes>>, words: seq<bytes>, gaps: seq<bytes>)
    requires WellSpread(words, gaps) && |selectors| == |words|
    requires forall i | 0 <= i < |words| ::
      selectors[i] != [] && Undotted(selectors[i]) && words[i] == Dotted(selectors[i])
    ensures ValidRange(Spread(words, gaps))
       <==> selectors != [] && forall i, j | 0 <= i < |selectors| && 0 <= j < |selectors[i]| :: IsEnd(selectors[i][j])
  {
    SelectorsRead(words, gaps);
    forall i | 0 <= i < |words|
      ensures words[i] in words
      ensures ValidSelector(words[i]) <==> forall j | 0 <= j < |selectors[i]| :: IsEnd(selectors[i][j])
    {
      SelectorIsValid(selectors[i]);
    }
    hide ValidSelector, IsEnd, Selectors, Dotted, Undotted, WellSpread;
  }
}
