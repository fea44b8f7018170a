/** Marking the characters of a changed line that its counterpart does not share. */
module Highlight {
  import opened Subsequence

  datatype Segment = Segment(changed: bool, text: string)

  /** How many characters of `common` the highlighter takes off `value`, from the left. */
  function Taken(value: string, common: string): (n: nat)
    ensures n <= |common|
    decreases |value|
  {
    if value == [] || common == [] then 0
    else if common[0] == value[0] then 1 + Taken(value[1..], common[1..])
    else Taken(value[1..], common)
  }

  function Joined(segments: seq<Segment>): string {
    if segments == [] then [] else segments[0].text + Joined(segments[1..])
  }

  /** The characters in segments of one kind, in order. */
  function TextOf(segments: seq<Segment>, changed: bool): string {
    if segments == [] then []
    else (if segments[0].changed == changed then segments[0].text else []) + TextOf(segments[1..], changed)
  }

  predicate Alternating(segments: seq<Segment>) {
    && (forall i | 0 <= i < |segments| :: segments[i].text != "")
    && forall i | 0 < i < |segments| :: segments[i].changed != segments[i - 1].changed
  }

  lemma {:induction false} JoinedAppend(segments: seq<Segment>, s: Segment)
    ensures Joined(segments + [s]) == Joined(segments) + s.text
    ensures TextOf(segments + [s], true) == TextOf(segments, true) + (if s.changed then s.text else [])
    ensures TextOf(segments + [s], false) == TextOf(segments, false) + (if s.changed then [] else s.text)
  {
    if segments == [] {
      assert [] + [s] == [s];
      assert [s][1..] == [];
    } else {
      assert (segments + [s])[1..] == segments[1..] + [s];
      JoinedAppend(segments[1..], s);
    }
  }

  /** Adding a character to the last segment of its kind, or as a new segment. */
  function Added(segments: seq<Segment>, changed: bool, c: char): seq<Segment> {
    if segments != [] && segments[|segments| - 1].changed == changed
    then segments[..|segments| - 1] + [Segment(changed, segments[|segments| - 1].text + [c])]
    else segments + [Segment(changed, [c])]
  }

  lemma AddedText(segments: seq<Segment>, changed: bool, c: char)
    ensures var s := Added(segments, changed, c);
      && Joined(s) == Joined(segments) + [c]
      && TextOf(s, changed) == TextOf(segments, changed) + [c]
      && TextOf(s, !changed) == TextOf(segments, !changed)
  {
    hide Joined, TextOf;
    if segments != [] && segments[|segments| - 1].changed == changed {
      var front, last := segments[..|segments| - 1], segments[|segments| - 1];
      assert segments == front + [last];
      JoinedAppend(front, last);
      JoinedAppend(front, Segment(changed, last.text + [c]));
    } else {
      JoinedAppend(segments, Segment(changed, [c]));
    }
  }

  lemma AddedAlternates(segments: seq<Segment>, changed: bool, c: char)
    requires Alternating(segments)
    ensures Alternating(Added(segments, changed, c))
  {
    var s := Added(segments, changed, c);
    assert forall i | 0 <= i < |segments| - 1 :: s[i] == segments[i];
  }

  method HighlightedSegments(value: string, common: string) returns (segments: seq<Segment>)
    ensures Alternating(segments) && Joined(segments) == value
    ensures TextOf(segments, false) == common[..Taken(value, common)]
    ensures |TextOf(segments, true)| == |value| - Taken(value, common)
  {
    hide *;
    segments := [];
    var k := 0;
    NoSegments();
    TakenAt(value, common, 0, 0);
    for i := 0 to |value|
      invariant k <= |common| && k <= i
      invariant Alternating(segments) && Joined(segments) == value[..i]
      invariant TextOf(segments, false) == common[..k] && |TextOf(segments, true)| == i - k
      invariant k + Taken(value[i..], common[k..]) == Taken(value, common)
    {
      TakenAt(value, common, i, k);
      var changed := !(k < |common| && common[k] == value[i]);
      AddedText(segments, changed, value[i]);
      AddedAlternates(segments, changed, value[i]);
      AddedIs(segments, changed, value[i]);
      assert value[..i] + [value[i]] == value[..i + 1];
      if !changed {
        assert common[..k] + [common[k]] == common[..k + 1];
        k := k + 1;
      }
      if segments != [] && segments[|segments| - 1].changed == changed {
        segments := segments[|segments| - 1 := Segment(changed, segments[|segments| - 1].text + [value[i]])];
        continue;
      }
      segments := segments + [Segment(changed, [value[i]])];
    }
    TakenAt(value, common, |value|, k);
    assert value[..|value|] == value;
  }

  lemma NoSegments()
    ensures Alternating([]) && Joined([]) == [] && TextOf([], true) == [] && TextOf([], false) == []
  {
  }

  lemma AddedIs(segments: seq<Segment>, changed: bool, c: char)
    ensures Added(segments, changed, c) ==
      if segments != [] && segments[|segments| - 1].changed == changed
      then segments[|segments| - 1 := Segment(changed, segments[|segments| - 1].text + [c])]
      else segments + [Segment(changed, [c])]
  {
  }

  lemma TakenAt(value: string, common: string, i: nat, k: nat)
    requires i <= |value| && k <= |common|
    ensures i == |value| ==> Taken(value[i..], common[k..]) == 0
    ensures i < |value| ==>
      Taken(value[i..], common[k..]) == if k < |common| && common[k] == value[i]
                                        then 1 + Taken(value[i + 1..], common[k + 1..])
                                        else Taken(value[i + 1..], common[k..])
    ensures value[0..] == value && common[0..] == common && value[..0] == [] && common[..0] == []
  {
    if i < |value| {
      assert value[i..][1..] == value[i + 1..];
      if k < |common| {
        assert common[k..][1..] == common[k + 1..];
      } else {
        NothingTaken(value[i..]);
        NothingTaken(value[i + 1..]);
      }
    }
  }

  lemma NothingTaken(value: string)
    ensures Taken(value, []) == 0
  {
  }

  /** The highlighter leaves unmarked the longest prefix of `common` that the line contains at all. */
  lemma {:induction false} TakenIsMost(value: string, common: string, m: nat)
    requires m <= |common|
    ensures Sub(common[..Taken(value, common)], value)
    ensures Sub(common[..m], value) ==> m <= Taken(value, common)
    decreases |value|
  {
    if value != [] && common != [] {
      if common[0] == value[0] {
        TakenIsMost(value[1..], common[1..], if m > 0 then m - 1 else 0);
        var t := Taken(value[1..], common[1..]);
        assert common[..t + 1][1..] == common[1..][..t];
        if m > 0 && Sub(common[..m], value) {
          SubTail(common[..m], value);
          assert common[..m][1..] == common[1..][..m - 1];
        }
      } else {
        TakenIsMost(value[1..], common, m);
        SubLonger(common[..Taken(value[1..], common)], value);
      }
    }
  }

  /** A common subsequence is left unmarked entirely. */
  lemma TakenAll(value: string, common: string)
    requires Sub(common, value)
    ensures Taken(value, common) == |common| && common[..|common|] == common
  {
    assert common[..|common|] == common;
    TakenIsMost(value, common, |common|);
  }

  /** Both cells of a changed row. What is left unmarked is the same text on both sides, and no way of
      marking that leaves equal text unmarked marks fewer characters. */
  method HighlightPair(old_line: string, new_line: string) returns (left: seq<Segment>, right: seq<Segment>)
    ensures Alternating(left) && Joined(left) == old_line && Alternating(right) && Joined(right) == new_line
    ensures TextOf(left, false) == TextOf(right, false)
    ensures |old_line| < MAX_CHARACTERS && |new_line| < MAX_CHARACTERS ==>
      forall kept | Sub(kept, old_line) && Sub(kept, new_line) ::
        |TextOf(left, true)| + |TextOf(right, true)| <= (|old_line| - |kept|) + (|new_line| - |kept|)
    ensures |old_line| >= MAX_CHARACTERS || |new_line| >= MAX_CHARACTERS ==>
      TextOf(left, false) == [] && |TextOf(left, true)| == |old_line| && |TextOf(right, true)| == |new_line|
  {
    hide Sub, TextOf, Alternating, Joined, Common, Taken;
    var common := CommonSubsequence(old_line, new_line);
    left := HighlightedSegments(old_line, common);
    right := HighlightedSegments(new_line, common);
    if |old_line| < MAX_CHARACTERS && |new_line| < MAX_CHARACTERS {
      TakenAll(old_line, common);
      TakenAll(new_line, common);
    } else {
      NothingTaken(old_line);
      NothingTaken(new_line);
    }
  }
}
