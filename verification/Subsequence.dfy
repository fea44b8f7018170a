/** The intra-line diff: a longest common subsequence by dynamic programming, and the highlighter that
    marks what is not in it. Lines are sequences of characters. */
module Subsequence {

  /** `c` can be had from `s` by deleting characters. */
  predicate Sub(c: string, s: string)
    decreases |s|
  {
    c == [] || (s != [] && ((c[0] == s[0] && Sub(c[1..], s[1..])) || Sub(c, s[1..])))
  }

  lemma {:induction false} SubTail(c: string, s: string)
    requires Sub(c, s) && c != []
    ensures s != [] && Sub(c[1..], s[1..])
    decreases |s|
  {
    if !(c[0] == s[0] && Sub(c[1..], s[1..])) {
      SubTail(c, s[1..]);
      SubLonger(c[1..], s[1..]);
    }
  }

  /** One more character in front does no harm. */
  lemma SubLonger(c: string, s: string)
    requires s != [] && Sub(c, s[1..])
    ensures Sub(c, s)
  {
  }

  lemma {:induction false} SubLength(c: string, s: string)
    requires Sub(c, s)
    ensures |c| <= |s|
  {
    if c == [] {
    } else {
      SubTail(c, s);
      SubLength(c[1..], s[1..]);
    }
  }

  lemma {:induction false} SubPrefix(c: string, n: nat, s: string)
    requires Sub(c, s) && n <= |c|
    ensures Sub(c[..n], s)
    decreases |s|
  {
    if n > 0 {
      assert c[..n][1..] == c[1..][..n - 1];
      if c[0] == s[0] && Sub(c[1..], s[1..]) {
        SubPrefix(c[1..], n - 1, s[1..]);
      } else {
        SubPrefix(c, n, s[1..]);
      }
    }
  }

  function Max(a: nat, b: nat): nat {
    if a > b then a else b
  }

  /** The entries of the table. */
  function Length(a: string, b: string): nat
    decreases |a| + |b|
  {
    if a == [] || b == [] then 0
    else if a[0] == b[0] then Length(a[1..], b[1..]) + 1
    else Max(Length(a[1..], b), Length(a, b[1..]))
  }

  /** The walk through the table. */
  function Common(a: string, b: string): string
    decreases |a| + |b|
  {
    if a == [] || b == [] then []
    else if a[0] == b[0] then [a[0]] + Common(a[1..], b[1..])
    else if Length(a[1..], b) >= Length(a, b[1..]) then Common(a[1..], b)
    else Common(a, b[1..])
  }

  lemma {:induction false} CommonIsCommon(a: string, b: string)
    ensures Sub(Common(a, b), a) && Sub(Common(a, b), b) && |Common(a, b)| == Length(a, b)
    decreases |a| + |b|
  {
    if a != [] && b != [] {
      if a[0] == b[0] {
        CommonIsCommon(a[1..], b[1..]);
      } else if Length(a[1..], b) >= Length(a, b[1..]) {
        CommonIsCommon(a[1..], b);
      } else {
        CommonIsCommon(a, b[1..]);
      }
    }
  }

  lemma {:induction false} NoneLonger(c: string, a: string, b: string)
    requires Sub(c, a) && Sub(c, b)
    ensures |c| <= Length(a, b)
    decreases |a| + |b|
  {
    if c == [] {
    } else {
      if a[0] == b[0] {
        SubTail(c, a);
        SubTail(c, b);
        NoneLonger(c[1..], a[1..], b[1..]);
      } else if c[0] != a[0] {
        NoneLonger(c, a[1..], b);
      } else {
        NoneLonger(c, a, b[1..]);
      }
    }
  }

  const MAX_CHARACTERS := 200

  /** No common subsequence of the two is longer. */
  ghost predicate Longest(c: string, a: string, b: string) {
    Sub(c, a) && Sub(c, b) && forall d | Sub(d, a) && Sub(d, b) :: |d| <= |c|
  }

  method CommonSubsequence(old_line: string, new_line: string) returns (common: string)
    ensures |old_line| < MAX_CHARACTERS && |new_line| < MAX_CHARACTERS ==>
      Longest(common, old_line, new_line) && common == Common(old_line, new_line)
    ensures !(|old_line| < MAX_CHARACTERS && |new_line| < MAX_CHARACTERS) ==> common == []
  {
    if |old_line| >= MAX_CHARACTERS || |new_line| >= MAX_CHARACTERS {
      return [];
    }
    hide Sub, Common, Length;
    var lengths := FillTable(old_line, new_line);
    var left, right := 0, 0;
    common := [];
    assert old_line[0..] == old_line && new_line[0..] == new_line;
    while left < |old_line| && right < |new_line|
      invariant left <= |old_line| && right <= |new_line|
      invariant common + Common(old_line[left..], new_line[right..]) == Common(old_line, new_line)
      invariant forall i, j {:trigger lengths[i, j]} | 0 <= i <= |old_line| && 0 <= j <= |new_line| ::
        lengths[i, j] == Length(old_line[i..], new_line[j..])
      decreases |old_line| + |new_line| - left - right
    {
      CommonAt(old_line, new_line, left, right);
      if old_line[left] == new_line[right] {
        Regrouped(common, [old_line[left]], Common(old_line[left + 1..], new_line[right + 1..]));
        common := common + [old_line[left]];
        left := left + 1;
        right := right + 1;
      } else if lengths[left + 1, right] >= lengths[left, right + 1] {
        left := left + 1;
      } else {
        right := right + 1;
      }
    }
    CommonEnd(old_line, new_line, left, right);
    assert common + [] == common;
    CommonIsLongest(old_line, new_line);
  }

  lemma Regrouped(a: string, b: string, c: string)
    ensures a + (b + c) == a + b + c
  {
  }

  lemma CommonAt(a: string, b: string, i: nat, j: nat)
    requires i < |a| && j < |b|
    ensures Common(a[i..], b[j..])
         == if a[i] == b[j] then [a[i]] + Common(a[i + 1..], b[j + 1..])
            else if Length(a[i + 1..], b[j..]) >= Length(a[i..], b[j + 1..]) then Common(a[i + 1..], b[j..])
            else Common(a[i..], b[j + 1..])
  {
    assert a[i..][1..] == a[i + 1..] && b[j..][1..] == b[j + 1..];
  }

  lemma CommonEnd(a: string, b: string, i: nat, j: nat)
    requires i <= |a| && j <= |b| && (i == |a| || j == |b|)
    ensures Common(a[i..], b[j..]) == []
  {
  }

  lemma CommonIsLongest(a: string, b: string)
    ensures Longest(Common(a, b), a, b)
  {
    CommonIsCommon(a, b);
    forall d | Sub(d, a) && Sub(d, b)
      ensures |d| <= |Common(a, b)|
    {
      NoneLonger(d, a, b);
    }
  }

  lemma LengthAt(a: string, b: string, i: nat, j: nat)
    requires i < |a| && j < |b|
    ensures Length(a[i..], b[j..])
         == if a[i] == b[j] then Length(a[i + 1..], b[j + 1..]) + 1
            else Max(Length(a[i + 1..], b[j..]), Length(a[i..], b[j + 1..]))
  {
    assert a[i..][1..] == a[i + 1..] && b[j..][1..] == b[j + 1..];
  }

  lemma LengthAtEnd(a: string, b: string)
    ensures forall i | 0 <= i <= |a| :: Length(a[i..], b[|b|..]) == 0
    ensures forall j | 0 <= j <= |b| :: Length(a[|a|..], b[j..]) == 0
  {
  }

  method FillTable(old_line: string, new_line: string) returns (lengths: array2<nat>)
    ensures fresh(lengths)
    ensures lengths.Length0 == |old_line| + 1 && lengths.Length1 == |new_line| + 1
    ensures forall i, j {:trigger lengths[i, j]} | 0 <= i <= |old_line| && 0 <= j <= |new_line| ::
      lengths[i, j] == Length(old_line[i..], new_line[j..])
  {
    hide Length;
    LengthAtEnd(old_line, new_line);
    lengths := new nat[|old_line| + 1, |new_line| + 1]((i, j) => 0);
    for left := |old_line| downto 0
      invariant forall i, j {:trigger lengths[i, j]} | left <= i <= |old_line| && 0 <= j <= |new_line| ::
        lengths[i, j] == Length(old_line[i..], new_line[j..])
      invariant forall i | 0 <= i < left :: lengths[i, |new_line|] == 0
    {
      for right := |new_line| downto 0
        invariant forall i, j {:trigger lengths[i, j]} | left < i <= |old_line| && 0 <= j <= |new_line| ::
          lengths[i, j] == Length(old_line[i..], new_line[j..])
        invariant forall j | right <= j <= |new_line| :: lengths[left, j] == Length(old_line[left..], new_line[j..])
        invariant forall i | 0 <= i < left :: lengths[i, |new_line|] == 0
      {
        LengthAt(old_line, new_line, left, right);
        lengths[left, right] :=
          if old_line[left] == new_line[right] then lengths[left + 1, right + 1] + 1
          else Max(lengths[left + 1, right], lengths[left, right + 1]);
      }
    }
  }
}
