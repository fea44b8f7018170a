/** Queries as forms and other programs send them: in any order, with any way to write a byte, and with a
    plus sign for a space. */
module QueryForms {
  import opened Wrappers
  import opened Bytes
  import opened Utf8
  import opened Percent
  import opened Names
  import opened Decimal
  import opened Query
  import opened LogQuery

  /* One text. */

  /** How a byte is sent. */
  datatype FormWay = As(way: Way) | Plus

  function SentByte(c: byte, way: FormWay): (s: bytes)
    ensures s != []
  {
    match way
    case As(w) => WrittenByte(c, w)
    case Plus => ['+']
  }

  function SentText(x: bytes, ways: seq<FormWay>): bytes
    requires |ways| == |x|
  {
    if x == [] then [] else SentByte(x[0], ways[0]) + SentText(x[1..], ways[1..])
  }

  /** What the plus signs stand for. */
  function Plain(ways: seq<FormWay>): (r: seq<Way>)
    ensures |r| == |ways|
  {
    if ways == [] then [] else [if ways[0].Plus? then Raw else ways[0].way] + Plain(ways[1..])
  }

  /** A plus sign is sent for a space alone, and the characters that structure a query stand for nothing else. */
  predicate Fits(c: byte, way: FormWay) {
    if way.Plus? then c == ' ' else way.way.Raw? ==> c != '+' && c != '&' && c != '='
  }

  predicate Fitting(x: bytes, ways: seq<FormWay>) {
    && |ways| == |x|
    && (forall i | 0 <= i < |x| :: Fits(x[i], ways[i]))
    && Unescaped(x, Plain(ways))
  }

  lemma HexPlain(n: nat, upper: bool)
    requires n < 16
    ensures IsAlphanumeric(Hex(n, upper))
  {
  }

  lemma ByteSpaced(c: byte, way: FormWay)
    requires Fits(c, way)
    ensures Spaced(SentByte(c, way)) == WrittenByte(c, if way.Plus? then Raw else way.way)
    ensures '&' !in SentByte(c, way) && '=' !in SentByte(c, way)
  {
    if way.As? && way.way.Escape? {
      HexPlain(c as int / 16, way.way.first);
      HexPlain(c as int % 16, way.way.second);
      hide Hex;
      var s := SentByte(c, way);
      assert s[1..][1..][1..] == [];
      assert s[1..] == [s[1], s[2]] && s[1..][1..] == [s[2]];
      assert Spaced([s[2]]) == [s[2]];
      assert Spaced([s[1], s[2]]) == [s[1]] + Spaced([s[2]]);
    } else {
      assert SentByte(c, way)[1..] == [];
    }
  }

  lemma {:induction false} SpacedAppend(a: bytes, b: bytes)
    ensures Spaced(a + b) == Spaced(a) + Spaced(b)
  {
    if a == [] {
      assert a + b == b;
    } else {
      assert (a + b)[1..] == a[1..] + b;
      SpacedAppend(a[1..], b);
    }
  }

  lemma {:induction false} TextSpaced(x: bytes, ways: seq<FormWay>)
    requires |ways| == |x| && forall i | 0 <= i < |x| :: Fits(x[i], ways[i])
    ensures Spaced(SentText(x, ways)) == Written(x, Plain(ways))
    ensures '&' !in SentText(x, ways) && '=' !in SentText(x, ways)
  {
    if x == [] {
    } else {
      ByteSpaced(x[0], ways[0]);
      hide Fits, Spaced, SentByte, WrittenByte;
      TextSpaced(x[1..], ways[1..]);
      SpacedAppend(SentByte(x[0], ways[0]), SentText(x[1..], ways[1..]));
      assert Plain(ways)[1..] == Plain(ways[1..]);
    }
  }

  /** However a text is sent, it is read as itself exactly when it is NUL-free UTF-8, and refused otherwise. */
  lemma TextReads(x: bytes, ways: seq<FormWay>)
    requires Fitting(x, ways)
    ensures DecodedQuery(SentText(x, ways)) == if Valid(x) && NUL !in x then Some(x) else None
  {
    TextSpaced(x, ways);
    WrittenDecodes(x, Plain(ways));
    hide Spaced, Decoded, Valid, Written, SentText, Unescaped;
  }

  /* One parameter. */

  /** The parameters of a request: the format, or a variable of an endpoint. */
  datatype Key = Format | Of(variable: Variable)

  function KeyText(key: Key): bytes {
    match key
    case Format => "format"
    case Of(x) => NameFor(x)
  }

  /** A parameter as it is sent; the equals sign in front of an empty value may be left out. */
  datatype Field = Field(key: Key, value: bytes, keyWays: seq<FormWay>, valueWays: seq<FormWay>, equals: bool)

  predicate Sendable(f: Field) {
    Fitting(KeyText(f.key), f.keyWays) && Fitting(f.value, f.valueWays) && (!f.equals ==> f.value == [])
  }

  function Sent(f: Field): bytes
    requires Sendable(f)
  {
    SentText(KeyText(f.key), f.keyWays) + if f.equals then ['='] + SentText(f.value, f.valueWays) else []
  }

  function ValueOf(q: RequestQuery, key: Key): Option<bytes> {
    match key
    case Format => q.format
    case Of(x) => q.Value(x)
  }

  function With(q: RequestQuery, key: Key, value: bytes): RequestQuery {
    match key
    case Format => q.(format := Some(value))
    case Of(x) => q.(environment := q.environment + [(x, value)])
  }

  lemma KeyShape(key: Key)
    ensures Valid(KeyText(key)) && NUL !in KeyText(key) && KeyText(key) != []
    ensures key.Format? ==> KeyText(key) == "format"
    ensures key.Of? ==> KeyText(key) != "format" && VariableOf(KeyText(key)) == Some(key.variable)
  {
    if key.Of? {
      NameShape(key.variable);
      assert NameFor(key.variable) != [];
    }
    hide VariableOf, NameFor, Valid;
    AsciiValid(KeyText(key));
  }

  lemma NothingSent(x: bytes, ways: seq<FormWay>)
    requires |ways| == |x|
    ensures SentText(x, ways) == [] <==> x == []
  {
    hide SentByte;
  }

  lemma SentSplits(f: Field)
    requires Sendable(f)
    ensures NameAndValue(Sent(f)) == (SentText(KeyText(f.key), f.keyWays), SentText(f.value, f.valueWays))
    ensures '&' !in Sent(f) && Sent(f) != []
  {
    var name, value := SentText(KeyText(f.key), f.keyWays), SentText(f.value, f.valueWays);
    TextSpaced(KeyText(f.key), f.keyWays);
    TextSpaced(f.value, f.valueWays);
    KeyShape(f.key);
    NothingSent(KeyText(f.key), f.keyWays);
    NothingSent(f.value, f.valueWays);
    hide SentText, KeyText, Fitting;
    PairSplits(name, value, f.equals);
  }

  lemma PairSplits(name: bytes, value: bytes, equals: bool)
    requires '&' !in name && '&' !in value && '=' !in name && name != [] && (!equals ==> value == [])
    ensures var pair := name + if equals then ['='] + value else [];
      NameAndValue(pair) == (name, value) && '&' !in pair && pair != []
  {
    if equals {
      SplitOnceAt(name, '=', value);
      assert name + ['='] + value == name + (['='] + value);
    } else {
      assert name + [] == name;
    }
  }

  /** A parameter is recorded exactly when its value can be read and its name is new. */
  lemma FieldAdded(q: RequestQuery, f: Field)
    requires Sendable(f)
    ensures Added(q, Sent(f)) == if GoodText(f.value) && ValueOf(q, f.key) == None
                                 then Some(With(q, f.key, f.value)) else None
  {
    hide DecodedQuery, Sent, NameAndValue, SentText, VariableOf, KeyText, Lookup, Fitting, Valid;
    SentSplits(f);
    KeyShape(f.key);
    TextReads(KeyText(f.key), f.keyWays);
    TextReads(f.value, f.valueWays);
  }

  /** Each variable has its own name, and no other name stands for one. */
  lemma VariableNames(name: bytes, x: Variable)
    ensures VariableOf(name) == Some(x) <==> name == NameFor(x)
  {
    if VariableOf(name).Some? {
      assert name == NameFor(VariableOf(name).value);
    }
    if name == NameFor(x) {
      NameShape(x);
    }
  }

  /** A parameter of any other name refuses the request. */
  lemma UnknownRefused(q: RequestQuery, name: bytes, ways: seq<FormWay>, rest: bytes)
    requires Fitting(name, ways) && name != [] && name != "format" && forall x :: name != NameFor(x)
    ensures Added(q, SentText(name, ways) + ['='] + rest) == None
  {
    var pair := SentText(name, ways) + ['='] + rest;
    TextSpaced(name, ways);
    TextReads(name, ways);
    SplitOnceAt(SentText(name, ways), '=', rest);
    if VariableOf(name).Some? {
      VariableNames(name, VariableOf(name).value);
    }
    hide DecodedQuery, VariableOf, SentText, NameFor, Lookup, Fitting, Valid;
  }

  /* The whole query. */

  /** Parameters, with nothing between two separators where `None` stands. */
  predicate AllSendable(fs: seq<Option<Field>>) {
    forall i | 0 <= i < |fs| :: fs[i].Some? ==> Sendable(fs[i].value)
  }

  function Pairs(fs: seq<Option<Field>>): (r: seq<bytes>)
    requires AllSendable(fs)
    ensures |r| == |fs|
  {
    if fs == [] then [] else [if fs[0].Some? then Sent(fs[0].value) else []] + Pairs(fs[1..])
  }

  function QueryText(fs: seq<Option<Field>>): bytes
    requires AllSendable(fs) && fs != []
  {
    Join<byte>(Pairs(fs), '&')
  }

  /** The value that a query gives to a parameter, if any. */
  function Said(fs: seq<Option<Field>>, key: Key): Option<bytes> {
    if fs == [] then None
    else if fs[0].Some? && fs[0].value.key == key then Some(fs[0].value.value)
    else Said(fs[1..], key)
  }

  predicate AllClean(fs: seq<Option<Field>>) {
    forall i | 0 <= i < |fs| :: fs[i].Some? ==> GoodText(fs[i].value.value)
  }

  predicate NoneRepeated(fs: seq<Option<Field>>) {
    forall i, j | 0 <= i < j < |fs| :: fs[i].Some? && fs[j].Some? ==> fs[i].value.key != fs[j].value.key
  }

  predicate NoneKnown(q: RequestQuery, fs: seq<Option<Field>>) {
    forall i | 0 <= i < |fs| :: fs[i].Some? ==> ValueOf(q, fs[i].value.key) == None
  }

  lemma {:induction false} LookupLast(environment: seq<(Variable, bytes)>, x: Variable, v: bytes, y: Variable)
    ensures Lookup(environment + [(x, v)], y)
         == if Lookup(environment, y).Some? then Lookup(environment, y) else if x == y then Some(v) else None
  {
    var more := environment + [(x, v)];
    if environment == [] {
      assert more[1..] == [];
    } else {
      assert more[1..] == environment[1..] + [(x, v)];
      LookupLast(environment[1..], x, v, y);
    }
  }

  lemma WithValue(q: RequestQuery, key: Key, value: bytes, other: Key)
    requires ValueOf(q, key) == None
    ensures ValueOf(With(q, key, value), other) == if other == key then Some(value) else ValueOf(q, other)
  {
    if key.Of? && other.Of? {
      LookupLast(q.environment, key.variable, value, other.variable);
    }
    hide Lookup;
  }

  lemma FirstPair(q: RequestQuery, fs: seq<Option<Field>>)
    requires AllSendable(fs) && fs != []
    ensures var first := if fs[0].Some? then Added(q, Sent(fs[0].value)) else Some(q);
      AddedAll(q, Pairs(fs)) == if first == None then None else AddedAll(first.value, Pairs(fs[1..]))
  {
    hide Sent;
    assert Pairs(fs)[1..] == Pairs(fs[1..]);
    assert fs[0] == None ==> Added(q, []) == Some(q);
    hide Added;
  }

  lemma FirstConditions(q: RequestQuery, fs: seq<Option<Field>>)
    requires fs != []
    ensures AllClean(fs) <==> (fs[0].Some? ==> GoodText(fs[0].value.value)) && AllClean(fs[1..])
    ensures NoneRepeated(fs) <==> NoneRepeated(fs[1..]) && (fs[0].Some? ==> Said(fs[1..], fs[0].value.key) == None)
    ensures NoneKnown(q, fs)
       <==> NoneKnown(q, fs[1..]) && (fs[0].Some? ==> ValueOf(q, fs[0].value.key) == None)
  {
    hide GoodText, ValueOf;
    assert forall i | 1 <= i < |fs| :: fs[i] == fs[1..][i - 1];
    if fs[0].Some? {
      SaidNone(fs[1..], fs[0].value.key);
    }
    hide Said;
  }

  lemma {:induction false} SaidNone(fs: seq<Option<Field>>, key: Key)
    ensures Said(fs, key) == None <==> forall i | 0 <= i < |fs| :: fs[i].Some? ==> fs[i].value.key != key
  {
    if fs == [] {
    } else {
      SaidNone(fs[1..], key);
      assert forall i | 1 <= i < |fs| :: fs[i] == fs[1..][i - 1];
    }
  }

  lemma KnownLater(q: RequestQuery, f: Field, fs: seq<Option<Field>>)
    requires ValueOf(q, f.key) == None
    ensures NoneKnown(With(q, f.key, f.value), fs) <==> NoneKnown(q, fs) && Said(fs, f.key) == None
  {
    forall key
      ensures ValueOf(With(q, f.key, f.value), key) == if key == f.key then Some(f.value) else ValueOf(q, key)
    {
      WithValue(q, f.key, f.value, key);
    }
    SaidNone(fs, f.key);
    hide ValueOf, With, Said;
  }

  /** What a query adds to what is known, and when it is refused. */
  lemma {:induction false} PairsAdded(q: RequestQuery, fs: seq<Option<Field>>, key: Key)
    requires AllSendable(fs)
    ensures var r := AddedAll(q, Pairs(fs));
      && (r.Some? <==> AllClean(fs) && NoneRepeated(fs) && NoneKnown(q, fs))
      && (r.Some? ==> ValueOf(r.value, key) == if ValueOf(q, key).Some? then ValueOf(q, key) else Said(fs, key))
    decreases |fs|
  {
    if fs == [] {
    } else {
      hide *;
      FirstPair(q, fs);
      FirstConditions(q, fs);
      SaidFirst(fs, key);
      if fs[0] == None {
        PairsAdded(q, fs[1..], key);
      } else {
        var f := fs[0].value;
        FieldAdded(q, f);
        if GoodText(f.value) && ValueOf(q, f.key) == None {
          KnownLater(q, f, fs[1..]);
          WithValue(q, f.key, f.value, key);
          PairsAdded(With(q, f.key, f.value), fs[1..], key);
        }
      }
    }
  }

  lemma SaidFirst(fs: seq<Option<Field>>, key: Key)
    requires fs != []
    ensures Said(fs, key)
         == if fs[0].Some? && fs[0].value.key == key then Some(fs[0].value.value) else Said(fs[1..], key)
    ensures AllSendable(fs) ==> AllSendable(fs[1..]) && (fs[0].Some? ==> Sendable(fs[0].value))
  {
    hide Sendable;
  }

  /** What a request sends is what the endpoint sees: a query is accepted exactly when every value is NUL-free
      UTF-8 and no parameter comes twice, and then every parameter has the value it was sent with. */
  lemma QueryReads(fs: seq<Option<Field>>, key: Key)
    requires AllSendable(fs) && fs != []
    ensures var r := AddedAll(EMPTY, Split<byte>(QueryText(fs), '&'));
      && (r.Some? <==> AllClean(fs) && NoneRepeated(fs))
      && (r.Some? ==> ValueOf(r.value, key) == Said(fs, key))
  {
    PairsSeparate(fs);
    SplitJoin<byte>(Pairs(fs), '&');
    PairsAdded(EMPTY, fs, key);
    hide AllClean, NoneRepeated, Pairs, Split, Join, AddedAll, Said, AllSendable;
  }

  lemma {:induction false} PairsSeparate(fs: seq<Option<Field>>)
    requires AllSendable(fs)
    ensures forall i | 0 <= i < |fs| :: '&' !in Pairs(fs)[i]
  {
    if fs == [] {
    } else {
      PairsSeparate(fs[1..]);
      if fs[0].Some? {
        SentSplits(fs[0].value);
      }
      hide Sent;
    }
  }
}
