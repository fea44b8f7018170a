/** The refs that URLs accept, by the bytes they may not hold (`git check-ref-format`). */
module RefShapes {
  import opened Bytes
  import opened Grammar
  import opened Parts

  /** Nothing that Git forbids in a ref: no empty component, none that opens with a dot or ends in `.lock`,
      no double dot, no `@{`, no dot at the end, and no control or reserved character. */
  predicate RefShape(v: bytes) {
    && v != [] && !StartsWith(v, "/") && !EndsWith(v, "/") && !Contains(v, "//")
    && !StartsWith(v, ".") && !Contains(v, "/.")
    && !EndsWith(v, ".lock") && !Contains(v, ".lock/")
    && !Contains(v, "..") && !Contains(v, "@{") && !EndsWith(v, ".")
    && forall c | c in v :: 0x20 < c as int != 0x7f && c !in "~^:?*[\\"
  }

  /* A valid ref has that shape. */

  lemma PartHolds(v: bytes, k: nat, n: nat)
    requires ValidRef(v) && PartAt(v, k, n)
    ensures ValidRefPart(v[k..k + n])
  {
    hide Contains, ValidRefPart;
    var i := PlacePart(v, k, n);
    hide Split;
    assert Split(v, '/')[i] in Split(v, '/');
  }

  /** Whatever opens a component of a valid ref is not a dot, and there is something. */
  lemma OpensWell(v: bytes, k: nat)
    requires ValidRef(v) && k <= |v| && (k == 0 || v[k - 1] == '/')
    ensures k < |v| && v[k] != '/' && v[k] != '.'
  {
    var n := Ahead(v, k);
    PartHolds(v, k, n);
    hide ValidRef;
    assert n > 0 ==> v[k..k + n][0] == v[k];
  }

  /** A component of a valid ref goes on behind `.lock`. */
  lemma LockGoesOn(v: bytes, k: nat)
    requires ValidRef(v) && OccursAt(v, ".lock", k)
    ensures k + 5 < |v| && v[k + 5] != '/'
  {
    var m := Start(v, k + 5);
    if k + 5 == |v| || v[k + 5] == '/' {
      LockInside(v, m, k);
      PartHolds(v, m, k + 5 - m);
    }
  }

  lemma LockInside(v: bytes, m: nat, k: nat)
    requires OccursAt(v, ".lock", k) && m <= k + 5 && (m == 0 || v[m - 1] == '/')
    ensures EndsWith(v[m..k + 5], ".lock")
  {
    var w := v[k..k + 5];
    assert '/' !in w;
    assert forall j | k <= j < k + 5 :: v[j] != '/' by {
      assert forall j | k <= j < k + 5 :: v[j] == w[j - k];
    }
    assert v[m..k + 5][k - m..] == w;
  }

  lemma CharWell(v: bytes, c: byte)
    requires ValidRef(v) && c in v
    ensures 0x20 < c as int != 0x7f && c !in "~^:?*[\\"
  {
    if c != '/' {
      var i :| 0 <= i < |v| && v[i] == c;
      var m, n := Start(v, i), Ahead(v, i);
      Around(v, m, i, n);
      PartHolds(v, m, i + n - m);
      hide ValidRef;
      assert v[m..i + n][i - m] == c && c in v[m..i + n];
    }
  }

  lemma Around(v: bytes, m: nat, i: nat, n: nat)
    requires m <= i && i + n <= |v| && '/' !in v[m..i] && '/' !in v[i..i + n]
    ensures '/' !in v[m..i + n]
  {
    assert v[m..i + n] == v[m..i] + v[i..i + n];
  }

  lemma ShapeHolds(v: bytes)
    requires ValidRef(v)
    ensures RefShape(v)
  {
    hide ValidRef;
    OpensWell(v, 0);
    forall c | c in v
      ensures 0x20 < c as int != 0x7f && c !in "~^:?*[\\"
    {
      CharWell(v, c);
    }
    NoSlashShapes(v);
    NoLockShapes(v);
    Elsewhere(v);
    hide Contains;
  }

  lemma Elsewhere(v: bytes)
    requires ValidRef(v)
    ensures !Contains(v, "..") && !Contains(v, "@{") && !EndsWith(v, ".")
  {
  }

  lemma NoSlashShapes(v: bytes)
    requires ValidRef(v)
    ensures !EndsWith(v, "/") && !Contains(v, "//") && !Contains(v, "/.")
  {
    hide ValidRef;
    forall i | 0 <= i <= |v| - 2
      ensures !OccursAt(v, "//", i) && !OccursAt(v, "/.", i)
    {
      assert v[i..i + 2] == [v[i], v[i + 1]];
      if v[i] == '/' {
        OpensWell(v, i + 1);
      }
    }
    if EndsWith(v, "/") {
      assert v[|v| - 1] == v[|v| - 1..][0];
      OpensWell(v, |v|);
    }
  }

  lemma NoLockShapes(v: bytes)
    requires ValidRef(v)
    ensures !EndsWith(v, ".lock") && !Contains(v, ".lock/")
  {
    hide ValidRef;
    forall i | 0 <= i <= |v| - 6
      ensures !OccursAt(v, ".lock/", i)
    {
      if OccursAt(v, ".lock/", i) {
        LockSlash(v, i);
        LockGoesOn(v, i);
      }
    }
    if EndsWith(v, ".lock") {
      assert OccursAt(v, ".lock", |v| - 5);
      LockGoesOn(v, |v| - 5);
    }
  }

  lemma LockSlash(v: bytes, i: nat)
    requires OccursAt(v, ".lock/", i)
    ensures OccursAt(v, ".lock", i) && v[i + 5] == '/'
  {
    var w := v[i..i + 6];
    assert w[5] == v[i + 5];
    assert v[i..i + 5] == w[..5] == ".lock";
  }

  /* A value of that shape is a valid ref. */

  lemma LockOccurs(v: bytes, e: nat)
    requires 5 <= e <= |v| && v[e - 5..e] == ".lock" && (e == |v| || v[e] == '/')
    ensures EndsWith(v, ".lock") || Contains(v, ".lock/")
  {
    if e < |v| {
      assert v[e - 5..e + 1] == v[e - 5..e] + [v[e]];
      assert OccursAt(v, ".lock/", e - 5);
    } else {
      assert v[|v| - 5..] == v[e - 5..e];
    }
  }

  lemma PartFromShape(v: bytes, k: nat, n: nat)
    requires RefShape(v) && PartAt(v, k, n)
    ensures ValidRefPart(v[k..k + n])
  {
    var part := v[k..k + n];
    if k > 0 && k + 1 <= |v| {
      assert !OccursAt(v, "//", k - 1) && !OccursAt(v, "/.", k - 1);
      assert v[k - 1..k + 1] == [v[k - 1], v[k]];
    }
    assert n > 0;
    assert part[0] == v[k];
    if EndsWith(part, ".lock") {
      assert v[k + n - 5..k + n] == part[n - 5..];
      LockOccurs(v, k + n);
    }
    assert forall c | c in part :: c in v;
  }

  /** The refs that are accepted are exactly those that hold nothing Git forbids. */
  lemma RefsExactly(v: bytes)
    ensures ValidRef(v) <==> RefShape(v)
  {
    hide RefShape, ValidRefPart, Contains;
    if ValidRef(v) {
      ShapeHolds(v);
    }
    if RefShape(v) {
      forall part | part in Split(v, '/')
        ensures ValidRefPart(part)
      {
        var i :| 0 <= i < |Split(v, '/')| && Split(v, '/')[i] == part;
        var k := PartPlace(v, i);
        hide Split;
        PartFromShape(v, k, |part|);
      }
      ShapeElsewhere(v);
    }
  }

  lemma ShapeElsewhere(v: bytes)
    requires RefShape(v)
    ensures !Contains(v, "..") && !Contains(v, "@{") && !EndsWith(v, ".")
  {
  }
}
