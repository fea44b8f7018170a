/** The components of a slash-separated name, by their places in it. */
module Parts {
  import opened Bytes

  /** `s[k..k + n]` is all that stands between two slashes, or between a slash and an end. */
  predicate PartAt(s: bytes, k: nat, n: nat) {
    && k + n <= |s| && '/' !in s[k..k + n]
    && (k == 0 || s[k - 1] == '/') && (k + n == |s| || s[k + n] == '/')
  }

  lemma PlaceMoves(s: bytes, k: nat, n: nat)
    requires s != [] && k + n < |s|
    ensures s[1..][k..k + n] == s[k + 1..k + 1 + n]
    ensures k > 0 || s[0] == '/' ==> (PartAt(s[1..], k, n) <==> PartAt(s, k + 1, n))
  {
    assert s[1..][k..k + n] == s[k + 1..k + 1 + n];
    assert k > 0 ==> s[1..][k - 1] == s[k];
  }

  lemma FirstPlace(s: bytes, n: nat)
    requires s != [] && s[0] != '/' && PartAt(s[1..], 0, n)
    ensures PartAt(s, 0, n + 1) && s[0..n + 1] == [s[0]] + s[1..][0..n]
  {
    assert s[0..n + 1] == [s[0]] + s[1..][0..n];
  }

  lemma SplitCons(s: bytes)
    requires s != []
    ensures var parts, rest := Split(s, '/'), Split(s[1..], '/');
      && |parts| == (if s[0] == '/' then |rest| + 1 else |rest|)
      && parts[0] == (if s[0] == '/' then [] else [s[0]] + rest[0])
      && forall i | 0 < i < |parts| :: parts[i] == if s[0] == '/' then rest[i - 1] else rest[i]
  {
    var parts, rest := Split(s, '/'), Split(s[1..], '/');
    assert parts == if s[0] == '/' then [[]] + rest else [[s[0]] + rest[0]] + rest[1..];
    hide Split;
  }

  /** Every component has a place. */
  lemma {:induction false} PartPlace(s: bytes, i: nat) returns (k: nat)
    requires i < |Split(s, '/')|
    ensures var part := Split(s, '/')[i]; PartAt(s, k, |part|) && s[k..k + |part|] == part
    ensures i == 0 <==> k == 0
    ensures i == |Split(s, '/')| - 1 <==> k + |Split(s, '/')[i]| == |s|
  {
    if s == [] {
      k := 0;
    } else {
      SplitCons(s);
      hide Split, PartAt;
      var rest := Split(s[1..], '/');
      if s[0] == '/' && i == 0 {
        k := 0;
        SlashPlace(s);
      } else if i == 0 {
        var k' := PartPlace(s[1..], 0);
        k := 0;
        FirstPlace(s, |rest[0]|);
      } else {
        var j := if s[0] == '/' then i - 1 else i;
        var k' := PartPlace(s[1..], j);
        PlaceFits(s[1..], k', |rest[j]|);
        PlaceMoves(s, k', |rest[j]|);
        k := k' + 1;
      }
    }
  }

  lemma SlashPlace(s: bytes)
    requires s != [] && s[0] == '/'
    ensures PartAt(s, 0, 0) && s[0..0] == []
  {
  }

  lemma PlaceFits(s: bytes, k: nat, n: nat)
    requires PartAt(s, k, n)
    ensures k + n <= |s|
  {
  }

  lemma FirstPlaced(s: bytes, n: nat)
    requires n > 0 && PartAt(s, 0, n)
    ensures s[0] != '/' && PartAt(s[1..], 0, n - 1) && s[0..n] == [s[0]] + s[1..][0..n - 1]
  {
    assert s[0] in s[0..n];
    assert s[1..][0..n - 1] == s[0..n][1..];
  }

  /** Every place holds a component. */
  lemma {:induction false} PlacePart(s: bytes, k: nat, n: nat) returns (i: nat)
    requires PartAt(s, k, n)
    ensures i < |Split(s, '/')| && Split(s, '/')[i] == s[k..k + n]
    ensures i == 0 <==> k == 0
    decreases |s|
  {
    if s == [] {
      i := 0;
    } else {
      SplitCons(s);
      hide Split;
      if k > 0 {
        PlaceMoves(s, k - 1, n);
        var i' := PlacePart(s[1..], k - 1, n);
        i := if s[0] == '/' then i' + 1 else i';
      } else if n == 0 {
        i := 0;
      } else {
        FirstPlaced(s, n);
        var i' := PlacePart(s[1..], 0, n - 1);
        i := 0;
      }
    }
  }

  /* The component around a place. */

  /** How far the component goes on. */
  function Ahead(s: bytes, k: nat): (n: nat)
    requires k <= |s|
    ensures k + n <= |s| && '/' !in s[k..k + n] && (k + n == |s| || s[k + n] == '/')
    decreases |s| - k
  {
    if k == |s| || s[k] == '/' then 0
    else
      var n := Ahead(s, k + 1);
      assert s[k..k + 1 + n] == [s[k]] + s[k + 1..k + 1 + n];
      n + 1
  }

  /** Where the component starts. */
  function Start(s: bytes, k: nat): (m: nat)
    requires k <= |s|
    ensures m <= k && '/' !in s[m..k] && (m == 0 || s[m - 1] == '/')
  {
    if k == 0 || s[k - 1] == '/' then k
    else
      var m := Start(s, k - 1);
      assert s[m..k] == s[m..k - 1] + [s[k - 1]];
      m
  }
}
