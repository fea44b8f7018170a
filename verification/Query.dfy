/** The query string of a request, read into the variables the endpoints look up. */
module Query {
  import opened Wrappers
  import opened Bytes
  import opened Utf8
  import opened Percent
  import opened Names

  /** The variables an endpoint can ask for. */
  datatype Variable =
    | SEARCH | GREP | OFFSET | SORT | SHOWMSG | PERIOD | DIFFTYPE | CONTEXT | IGNOREWS | FOLLOW | VIEW

  datatype RequestQuery = RequestQuery(format: Option<bytes>, environment: seq<(Variable, bytes)>) {
    function Value(name: Variable): Option<bytes> {
      Lookup(environment, name)
    }
  }

  /** The first value recorded under a name. */
  function Lookup(environment: seq<(Variable, bytes)>, name: Variable): Option<bytes> {
    if environment == [] then None
    else if environment[0].0 == name then Some(environment[0].1)
    else Lookup(environment[1..], name)
  }

  const EMPTY := RequestQuery(None, [])

  function Spaced(value: bytes): bytes {
    if value == [] then [] else [if value[0] == '+' then ' ' else value[0]] + Spaced(value[1..])
  }

  function DecodedQuery(value: bytes): Option<bytes> {
    var decoded := Decoded(Spaced(value));
    if Valid(decoded) && NUL !in decoded then Some(decoded) else None
  }

  function VariableOf(name: bytes): Option<Variable> {
    match name
    case "q" => Some(SEARCH)
    case "qt" => Some(GREP)
    case "ofs" => Some(OFFSET)
    case "s" => Some(SORT)
    case "showmsg" => Some(SHOWMSG)
    case "period" => Some(PERIOD)
    case "dt" => Some(DIFFTYPE)
    case "context" => Some(CONTEXT)
    case "ignorews" => Some(IGNOREWS)
    case "follow" => Some(FOLLOW)
    case "view" => Some(VIEW)
    case _ => None
  }

  /** A parameter without an equals sign has an empty value. */
  function NameAndValue(pair: bytes): (bytes, bytes) {
    match SplitOnce(pair, '=')
    case None => (pair, [])
    case Some(p) => p
  }

  /** Adding one parameter; `None` rejects the request. */
  function Added(q: RequestQuery, pair: bytes): Option<RequestQuery> {
    if pair == [] then Some(q)
    else
      var (name, value) := NameAndValue(pair);
      match (DecodedQuery(name), DecodedQuery(value))
      case (Some(n), Some(v)) =>
        if n == "format" then
          if q.format.Some? then None else Some(q.(format := Some(v)))
        else
          (match VariableOf(n)
           case None => None
           case Some(x) =>
             if q.Value(x).Some? then None else Some(q.(environment := q.environment + [(x, v)])))
      case _ => None
  }

  function AddedAll(q: RequestQuery, pairs: seq<bytes>): Option<RequestQuery>
    decreases |pairs|
  {
    if pairs == [] then Some(q)
    else
      match Added(q, pairs[0])
      case None => None
      case Some(q') => AddedAll(q', pairs[1..])
  }

  method ReadQuery(query: Option<bytes>) returns (r: Option<RequestQuery>)
    ensures r == AddedAll(EMPTY, Split<byte>(if query.Some? then query.value else [], '&'))
  {
    var pairs := Split<byte>(if query.Some? then query.value else [], '&');
    var result := EMPTY;
    hide DecodedQuery, VariableOf, NameAndValue;
    AddedFirst(result, pairs, 0);
    for i := 0 to |pairs|
      invariant AddedAll(result, pairs[i..]) == AddedAll(EMPTY, pairs)
    {
      AddedFirst(result, pairs, i);
      if pairs[i] == [] {
        continue;
      }
      var (name, value) := NameAndValue(pairs[i]);
      var n, v := DecodedQuery(name), DecodedQuery(value);
      if n == None || v == None {
        return None;
      }
      if n.value == "format" {
        if result.format.Some? {
          return None;
        }
        result := result.(format := v);
        continue;
      }
      var variable := VariableOf(n.value);
      if variable == None || result.Value(variable.value).Some? {
        return None;
      }
      result := result.(environment := result.environment + [(variable.value, v.value)]);
    }
    AddedFirst(result, pairs, |pairs|);
    r := Some(result);
  }

  lemma AddedFirst(q: RequestQuery, pairs: seq<bytes>, i: nat)
    requires i <= |pairs|
    ensures i < |pairs| ==> AddedAll(q, pairs[i..]) == match Added(q, pairs[i])
                                                       case None => None
                                                       case Some(q') => AddedAll(q', pairs[i + 1..])
    ensures AddedAll(q, pairs[|pairs|..]) == Some(q)
    ensures pairs[0..] == pairs
  {
    hide Added;
    if i < |pairs| {
      assert pairs[i..][1..] == pairs[i + 1..];
    }
  }

  /* What every accepted query keeps. */

  /** Each variable is recorded at most once, and its value is a NUL-free string. */
  predicate Sound(q: RequestQuery) {
    && (forall i, j | 0 <= i < j < |q.environment| :: q.environment[i].0 != q.environment[j].0)
    && (forall i | 0 <= i < |q.environment| :: Valid(q.environment[i].1) && NUL !in q.environment[i].1)
    && (q.format.Some? ==> Valid(q.format.value) && NUL !in q.format.value)
  }

  lemma {:induction false} LookupNone(environment: seq<(Variable, bytes)>, x: Variable)
    requires Lookup(environment, x) == None
    ensures forall i | 0 <= i < |environment| :: environment[i].0 != x
  {
    if environment == [] {
    } else {
      LookupNone(environment[1..], x);
      assert forall i | 1 <= i < |environment| :: environment[i] == environment[1..][i - 1];
    }
  }

  lemma AddedSound(q: RequestQuery, pair: bytes)
    requires Sound(q) && Added(q, pair).Some?
    ensures Sound(Added(q, pair).value)
  {
    hide VariableOf, NameAndValue, Valid, Lookup;
    var name := DecodedQuery(NameAndValue(pair).0);
    if pair != [] && name.value != "format" {
      LookupNone(q.environment, VariableOf(name.value).value);
    }
  }

  /** Nothing repeated and nothing ill-encoded gets past the reading of a query. */
  lemma {:induction false} AddedAllSound(q: RequestQuery, pairs: seq<bytes>)
    requires Sound(q) && AddedAll(q, pairs).Some?
    ensures Sound(AddedAll(q, pairs).value)
    decreases |pairs|
  {
    hide Added, Sound;
    if pairs == [] {
    } else {
      AddedSound(q, pairs[0]);
      AddedAllSound(Added(q, pairs[0]).value, pairs[1..]);
    }
  }
}
