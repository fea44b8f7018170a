/** Byte strings, as the request line, the pipes and the file system carry them. A byte is a
    character with a code below 256, so that ASCII literals can be written as strings. */
module Bytes {
  import opened Wrappers

  type byte = c: char | c as int < 256

  type bytes = seq<byte>

  function Byte(n: nat): byte
    requires n < 256
  {
    n as char
  }

  predicate IsDigit(c: char) {
    '0' <= c <= '9'
  }

  predicate IsAlphanumeric(c: char) {
    IsDigit(c) || 'a' <= c <= 'z' || 'A' <= c <= 'Z'
  }

  predicate IsHexDigit(c: char) {
    IsDigit(c) || 'a' <= c <= 'f' || 'A' <= c <= 'F'
  }

  predicate IsLowerHex(c: char) {
    IsDigit(c) || 'a' <= c <= 'f'
  }

  /** A full object name in either case: 40 hex digits for SHA-1, 64 for SHA-256. */
  predicate FullOid(oid: bytes) {
    (|oid| == 40 || |oid| == 64) && forall i | 0 <= i < |oid| :: IsHexDigit(oid[i])
  }

  /** The same, by the digits themselves. */
  lemma FullOidExactly(oid: bytes)
    ensures FullOid(oid) <==> (|oid| == 40 || |oid| == 64) && forall c | c in oid :: c in "0123456789abcdefABCDEF"
  {
    assert forall c: char :: IsHexDigit(c) <==> c in "0123456789abcdefABCDEF";
    assert forall i | 0 <= i < |oid| :: oid[i] in oid;
    hide IsHexDigit;
  }

  predicate StartsWith(s: string, prefix: string) {
    prefix <= s
  }

  predicate EndsWith(s: string, suffix: string) {
    |suffix| <= |s| && s[|s| - |suffix|..] == suffix
  }

  /** `part` occurs in `s` at offset `i`. */
  predicate OccursAt(s: string, part: string, i: int) {
    0 <= i <= |s| - |part| && s[i..i + |part|] == part
  }

  predicate Contains(s: string, part: string) {
    exists i | 0 <= i <= |s| - |part| :: OccursAt(s, part, i)
  }

  /** The pieces of `s` between occurrences of `c`, as `split` yields them: always at least one. */
  function Split<T(==)>(s: seq<T>, c: T): (parts: seq<seq<T>>)
    ensures |parts| > 0
    ensures forall i | 0 <= i < |parts| :: c !in parts[i]
  {
    if s == [] then [[]]
    else
      var rest := Split(s[1..], c);
      if s[0] == c then [[]] + rest else [[s[0]] + rest[0]] + rest[1..]
  }

  /** The inverse of `Split`: the parts with `c` between neighbours. */
  function Join<T>(parts: seq<seq<T>>, c: T): (s: seq<T>)
    requires |parts| > 0
  {
    if |parts| == 1 then parts[0] else parts[0] + [c] + Join(parts[1..], c)
  }

  lemma {:induction false} SplitJoin<T>(parts: seq<seq<T>>, c: T)
    requires |parts| > 0 && forall i | 0 <= i < |parts| :: c !in parts[i]
    ensures Split(Join(parts, c), c) == parts
  {
    if |parts| == 1 {
      SplitNone(parts[0], c);
    } else {
      SplitJoin(parts[1..], c);
      SplitFirst(parts[0], c, Join(parts[1..], c));
    }
  }

  lemma {:induction false} SplitNone<T>(part: seq<T>, c: T)
    requires c !in part
    ensures Split(part, c) == [part]
  {
    if part == [] {
    } else {
      SplitNone(part[1..], c);
      assert [part[0]] + part[1..] == part;
    }
  }

  lemma {:induction false} SplitFirst<T>(part: seq<T>, c: T, rest: seq<T>)
    requires c !in part
    ensures Split(part + [c] + rest, c) == [part] + Split(rest, c)
  {
    var s := part + [c] + rest;
    if part == [] {
      assert s[1..] == rest;
    } else {
      assert s[1..] == part[1..] + [c] + rest;
      SplitFirst(part[1..], c, rest);
      assert [part[0]] + part[1..] == part;
    }
  }

  /** `str::split_once`: the text around the first `c`. */
  function SplitOnce(s: bytes, c: byte): (r: Option<(bytes, bytes)>)
    ensures r.None? ==> c !in s
    ensures r.Some? ==> s == r.value.0 + [c] + r.value.1 && c !in r.value.0
  {
    if s == [] then None
    else if s[0] == c then Some(([], s[1..]))
    else
      match SplitOnce(s[1..], c)
      case None => None
      case Some((a, b)) => Some(([s[0]] + a, b))
  }

  lemma {:induction false} SplitOnceAt(a: bytes, c: byte, b: bytes)
    requires c !in a
    ensures SplitOnce(a + [c] + b, c) == Some((a, b))
  {
    var s := a + [c] + b;
    if a == [] {
      assert s[1..] == b;
    } else {
      assert s[1..] == a[1..] + [c] + b;
      SplitOnceAt(a[1..], c, b);
      assert [a[0]] + a[1..] == a;
    }
  }

  /** `windows(n).position(..)`: where `part` first occurs in `s`. */
  function Find(s: bytes, part: bytes): (r: Option<nat>)
    requires part != []
    ensures r.Some? ==> r.value + |part| <= |s|
  {
    if part <= s then Some(0)
    else if s == [] then None
    else Shifted(Find(s[1..], part), 1)
  }

  function Shifted(at: Option<nat>, n: nat): Option<nat> {
    match at
    case None => None
    case Some(i) => Some(i + n)
  }
}
