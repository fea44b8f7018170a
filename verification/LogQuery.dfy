/** The query of the log page: read from a request, and printed as the suffix of every link. */
module LogQuery {
  import opened Wrappers
  import opened Bytes
  import opened Utf8
  import opened Percent
  import opened Names
  import opened Decimal
  import opened Query

  datatype Search = NoSearch | Grep(text: bytes) | Author(text: bytes) | Committer(text: bytes) | Range(text: bytes)

  datatype LogQuery = LogQuery(
    offset: nat, show_message: bool, follow: bool, ignore_whitespace: bool, search: Search)

  predicate IsAsciiSpace(c: char) {
    c in " \t\n\r" || c as int == 0x0c
  }

  /** `split_ascii_whitespace` */
  function Selectors(value: bytes): seq<bytes> {
    SelectorsAfter(value, [])
  }

  /** The selectors of the rest of a value, after the characters of an unfinished one. */
  function SelectorsAfter(value: bytes, word: bytes): seq<bytes>
    decreases |value|
  {
    if value == [] then if word == [] then [] else [word]
    else if IsAsciiSpace(value[0]) then (if word == [] then [] else [word]) + SelectorsAfter(value[1..], [])
    else SelectorsAfter(value[1..], word + [value[0]])
  }

  /** `split("..")` */
  function RangeEnds(s: bytes): (parts: seq<bytes>)
    ensures |parts| > 0
    decreases |s|
  {
    if s == [] then [[]]
    else if StartsWith(s, "..") then [[]] + RangeEnds(s[2..])
    else
      var rest := RangeEnds(s[1..]);
      [[s[0]] + rest[0]] + rest[1..]
  }

  predicate ValidEnd(s: bytes) {
    s == "HEAD" || StartsWith(s, "refs/") || FullOid(s)
  }

  predicate ValidSelector(s: bytes) {
    !StartsWith(s, "-") && forall end | end in RangeEnds(s) :: ValidEnd(end)
  }

  ghost predicate ValidRange(value: bytes) {
    Selectors(value) != [] && forall s | s in Selectors(value) :: ValidSelector(s)
  }

  method CheckRange(value: bytes) returns (ok: bool)
    ensures ok <==> ValidRange(value)
  {
    var any := false;
    var selectors := Selectors(value);
    for i := 0 to |selectors|
      invariant any <==> i > 0
      invariant forall j | 0 <= j < i :: ValidSelector(selectors[j])
    {
      any := true;
      if !ValidSelector(selectors[i]) {
        return false;
      }
    }
    ok := any;
  }

  function Flag(value: Option<bytes>): Option<bool> {
    match value
    case None => Some(false)
    case Some(v) => if v == "0" then Some(false) else if v == "1" then Some(true) else None
  }

  ghost function SearchOf(kind: Option<bytes>, text: Option<bytes>): Option<Search> {
    match (kind, text)
    case (None, None) => Some(NoSearch)
    case (Some(k), Some(t)) =>
      if k == "grep" then Some(Grep(t))
      else if k == "author" then Some(Author(t))
      else if k == "committer" then Some(Committer(t))
      else if k == "range" && ValidRange(t) then Some(Range(t))
      else None
    case _ => None
  }

  ghost function OffsetOf(value: Option<bytes>): Option<nat> {
    if value == None then Some(0) else Parsed(value.value, USIZE_MAX)
  }

  /** `Query::from_request` */
  ghost function FromRequest(q: RequestQuery): Option<LogQuery> {
    match (OffsetOf(q.Value(OFFSET)), Flag(q.Value(SHOWMSG)), Flag(q.Value(FOLLOW)), Flag(q.Value(IGNOREWS)),
           SearchOf(q.Value(GREP), q.Value(SEARCH)))
    case (Some(o), Some(m), Some(f), Some(w), Some(s)) => Some(LogQuery(o, m, f, w, s))
    case _ => None
  }

  /* Printing. */

  const QUERY_STYLE := Style(false, true)

  datatype Parameter = Parameter(variable: Variable, value: bytes)

  /** The name under which a variable travels in the query. */
  function NameFor(x: Variable): bytes {
    match x
    case SEARCH => "q"
    case GREP => "qt"
    case OFFSET => "ofs"
    case SORT => "s"
    case SHOWMSG => "showmsg"
    case PERIOD => "period"
    case DIFFTYPE => "dt"
    case CONTEXT => "context"
    case IGNOREWS => "ignorews"
    case FOLLOW => "follow"
    case VIEW => "view"
  }

  function Shown(p: Parameter): bytes {
    NameFor(p.variable) + "=" + Encoded(p.value, QUERY_STYLE)
  }

  function SearchKind(search: Search): bytes
    requires search != NoSearch
  {
    match search
    case Grep(_) => "grep"
    case Author(_) => "author"
    case Committer(_) => "committer"
    case Range(_) => "range"
  }

  /** A parameter that is printed only when `on` holds. */
  function Optional(on: bool, p: Parameter): seq<Parameter> {
    if on then [p] else []
  }

  function Toggles(offset: nat, show_message: bool, follow: bool, ignore_whitespace: bool): seq<Parameter> {
    Optional(offset != 0, Parameter(OFFSET, Digits(offset)))
    + Optional(show_message, Parameter(SHOWMSG, "1"))
    + Optional(follow, Parameter(FOLLOW, "1"))
    + Optional(ignore_whitespace, Parameter(IGNOREWS, "1"))
  }

  function Parameters(q: LogQuery): seq<Parameter> {
    Toggles(q.offset, q.show_message, q.follow, q.ignore_whitespace) + SearchParameters(q.search)
  }

  function SearchParameters(search: Search): seq<Parameter> {
    if search == NoSearch then [] else [Parameter(GREP, SearchKind(search)), Parameter(SEARCH, search.text)]
  }

  function ShownAll(parameters: seq<Parameter>): seq<bytes> {
    if parameters == [] then [] else [Shown(parameters[0])] + ShownAll(parameters[1..])
  }

  function SuffixOf(q: LogQuery): bytes {
    var parts := ShownAll(Parameters(q));
    if parts == [] then [] else "?" + Join<byte>(parts, '&')
  }

  /** `Query::suffix`: the query string of a link that changes the offset and the two toggles. */
  method Suffix(q: LogQuery, offset: nat, show_message: bool, follow: bool) returns (suffix: bytes)
    ensures suffix == SuffixOf(q.(offset := offset, show_message := show_message, follow := follow))
  {
    hide *;
    var values := PushToggles(offset, show_message, follow, q.ignore_whitespace);
    if q.search != NoSearch {
      values := values + ["qt=" + SearchKind(q.search)];
      values := values + ["q=" + Encoded(q.search.text, QUERY_STYLE)];
    }
    ShownSearch(Toggles(offset, show_message, follow, q.ignore_whitespace), q.search);
    SuffixIs(LogQuery(offset, show_message, follow, q.ignore_whitespace, q.search));
    suffix := if values == [] then [] else "?" + Join<byte>(values, '&');
  }

  /** The parameters that `Suffix` pushes before the search. */
  method PushToggles(offset: nat, show_message: bool, follow: bool, ignore_whitespace: bool)
    returns (values: seq<bytes>)
    ensures values == ShownAll(Toggles(offset, show_message, follow, ignore_whitespace))
  {
    values := [];
    if offset != 0 {
      values := values + ["ofs=" + Digits(offset)];
    }
    if show_message {
      values := values + ["showmsg=1"];
    }
    if follow {
      values := values + ["follow=1"];
    }
    if ignore_whitespace {
      values := values + ["ignorews=1"];
    }
    hide *;
    ShownToggles(offset, show_message, follow, ignore_whitespace);
  }

  function Pushed(values: seq<bytes>, on: bool, text: bytes): seq<bytes> {
    if on then values + [text] else values
  }

  lemma ShownToggles(offset: nat, show_message: bool, follow: bool, ignore_whitespace: bool)
    ensures ShownAll(Toggles(offset, show_message, follow, ignore_whitespace))
         == Pushed(Pushed(Pushed(Pushed([], offset != 0, "ofs=" + Digits(offset)),
                                 show_message, "showmsg=1"), follow, "follow=1"), ignore_whitespace, "ignorews=1")
  {
    ShownTexts(offset);
    NothingShown();
    var o, m, f, w :=
      Parameter(OFFSET, Digits(offset)), Parameter(SHOWMSG, "1"), Parameter(FOLLOW, "1"), Parameter(IGNOREWS, "1");
    var ps := Optional(offset != 0, o);
    assert [] + ps == ps;
    hide ShownAll, Shown, Optional, Encoded, Digits;
    ShownOptional([], offset != 0, o);
    ShownOptional(ps, show_message, m);
    ShownOptional(ps + Optional(show_message, m), follow, f);
    ShownOptional(ps + Optional(show_message, m) + Optional(follow, f), ignore_whitespace, w);
  }

  lemma NothingShown()
    ensures ShownAll([]) == []
  {
  }

  lemma {:induction false} ShownAppend(a: seq<Parameter>, b: seq<Parameter>)
    ensures ShownAll(a + b) == ShownAll(a) + ShownAll(b)
  {
    if a == [] {
      assert a + b == b;
    } else {
      assert (a + b)[1..] == a[1..] + b;
      ShownAppend(a[1..], b);
    }
  }

  lemma ShownOptional(ps: seq<Parameter>, on: bool, p: Parameter)
    ensures ShownAll(ps + Optional(on, p)) == Pushed(ShownAll(ps), on, Shown(p))
  {
    hide Shown;
    ShownAppend(ps, Optional(on, p));
    assert ShownAll([p]) == [Shown(p)];
    assert ps + [] == ps;
  }

  lemma ShownSearch(ps: seq<Parameter>, search: Search)
    ensures ShownAll(ps + SearchParameters(search))
         == if search == NoSearch then ShownAll(ps)
            else ShownAll(ps) + ["qt=" + SearchKind(search)] + ["q=" + Encoded(search.text, QUERY_STYLE)]
  {
    ShownAppend(ps, SearchParameters(search));
    if search != NoSearch {
      KindPlain(search);
      var kind, text := Parameter(GREP, SearchKind(search)), Parameter(SEARCH, search.text);
      assert ShownAll([text]) == [Shown(text)];
      assert [kind, text][1..] == [text];
      assert ShownAll([kind, text]) == [Shown(kind)] + [Shown(text)];
      hide ShownAll, Encoded, SearchKind;
      assert "qt" + "=" == "qt=";
      assert "q" + "=" == "q=";
    }
  }

  lemma SuffixIs(q: LogQuery)
    ensures SuffixOf(q) == var values := ShownAll(Toggles(q.offset, q.show_message, q.follow, q.ignore_whitespace)
                                                  + SearchParameters(q.search));
                           if values == [] then [] else "?" + Join<byte>(values, '&')
  {
  }

  lemma {:induction false} PlainEncodes(s: bytes, style: Style)
    requires forall i | 0 <= i < |s| :: IsAlphanumeric(s[i])
    ensures Encoded(s, style) == s
  {
    if s == [] {
    } else {
      PlainEncodes(s[1..], style);
      assert s == [s[0]] + s[1..];
    }
  }

  lemma KindPlain(search: Search)
    requires search != NoSearch
    ensures Encoded(SearchKind(search), QUERY_STYLE) == SearchKind(search)
  {
    hide Encoded;
    PlainEncodes(SearchKind(search), QUERY_STYLE);
  }

  lemma ShownTexts(offset: nat)
    ensures Shown(Parameter(OFFSET, Digits(offset))) == "ofs=" + Digits(offset)
    ensures Shown(Parameter(SHOWMSG, "1")) == "showmsg=1"
    ensures Shown(Parameter(FOLLOW, "1")) == "follow=1"
    ensures Shown(Parameter(IGNOREWS, "1")) == "ignorews=1"
  {
    hide Encoded, Digits;
    PlainEncodes(Digits(offset), QUERY_STYLE);
    PlainEncodes("1", QUERY_STYLE);
    assert "ofs" + "=" == "ofs=";
    assert "showmsg" + "=" + "1" == "showmsg=1";
    assert "follow" + "=" + "1" == "follow=1";
    assert "ignorews" + "=" + "1" == "ignorews=1";
  }

  /* Reading a suffix back. */

  predicate GoodText(text: bytes) {
    Valid(text) && NUL !in text
  }

  lemma {:induction false} SpacedSame(s: bytes)
    requires forall i | 0 <= i < |s| :: s[i] != '+'
    ensures Spaced(s) == s
  {
    if s == [] {
    } else {
      SpacedSame(s[1..]);
      assert s == [s[0]] + s[1..];
    }
  }

  /** A printed value holds none of the characters that structure a query. */
  predicate Unstructured(s: bytes) {
    forall i | 0 <= i < |s| :: s[i] != '+' && s[i] != '&' && s[i] != '='
  }

  lemma {:induction false} EncodedUnstructured(value: bytes)
    ensures Unstructured(Encoded(value, QUERY_STYLE))
  {
    if value == [] {
    } else {
      EncodedUnstructured(value[1..]);
      ByteUnstructured(value[0]);
      hide EncodedByte;
    }
  }

  lemma ByteUnstructured(c: byte)
    ensures Unstructured(EncodedByte(c, QUERY_STYLE))
  {
  }

  lemma ValueReads(value: bytes)
    ensures DecodedQuery(Encoded(value, QUERY_STYLE)) == if GoodText(value) then Some(value) else None
  {
    EncodedUnstructured(value);
    EncodedDecodes(value, QUERY_STYLE);
    hide Encoded, Decoded, Valid;
    SpacedSame(Encoded(value, QUERY_STYLE));
  }

  predicate Alphanumeric(s: bytes) {
    forall i | 0 <= i < |s| :: IsAlphanumeric(s[i])
  }

  lemma NameShape(x: Variable)
    ensures Alphanumeric(NameFor(x)) && NameFor(x) != "format" && VariableOf(NameFor(x)) == Some(x)
  {
  }

  lemma ShownSplits(p: Parameter)
    ensures NameAndValue(Shown(p)) == (NameFor(p.variable), Encoded(p.value, QUERY_STYLE))
    ensures Shown(p) != [] && '&' !in Shown(p)
  {
    EncodedUnstructured(p.value);
    NameShape(p.variable);
    hide Encoded, NameFor;
    SplitOnceAt(NameFor(p.variable), '=', Encoded(p.value, QUERY_STYLE));
    assert NameFor(p.variable) + ['='] + Encoded(p.value, QUERY_STYLE) == Shown(p);
  }

  lemma NameReads(name: bytes)
    requires Alphanumeric(name)
    ensures DecodedQuery(name) == Some(name)
  {
    PlainEncodes(name, QUERY_STYLE);
    AsciiValid(name);
    ValueReads(name);
    hide Encoded, DecodedQuery;
  }

  /** Reading one printed parameter. */
  lemma ParameterReads(q: RequestQuery, p: Parameter)
    requires q.Value(p.variable) == None
    ensures Added(q, Shown(p)) == if GoodText(p.value)
                                  then Some(q.(environment := q.environment + [(p.variable, p.value)]))
                                  else None
  {
    hide DecodedQuery, Shown, NameAndValue, Encoded, VariableOf, GoodText, Alphanumeric, NameFor, Lookup;
    ShownSplits(p);
    NameShape(p.variable);
    NameReads(NameFor(p.variable));
    ValueReads(p.value);
  }

  /** The order in which the parameters are printed. */
  function Rank(x: Variable): nat {
    match x
    case OFFSET => 0
    case SHOWMSG => 1
    case FOLLOW => 2
    case IGNOREWS => 3
    case GREP => 4
    case SEARCH => 5
    case _ => 6
  }

  predicate Ascending(ps: seq<Parameter>) {
    forall i, j | 0 <= i < j < |ps| :: Rank(ps[i].variable) < Rank(ps[j].variable)
  }

  function Recorded(ps: seq<Parameter>): seq<(Variable, bytes)> {
    if ps == [] then [] else [(ps[0].variable, ps[0].value)] + Recorded(ps[1..])
  }

  predicate AllGood(ps: seq<Parameter>) {
    forall i | 0 <= i < |ps| :: GoodText(ps[i].value)
  }

  predicate Below(environment: seq<(Variable, bytes)>, ps: seq<Parameter>) {
    forall i, j | 0 <= i < |environment| && 0 <= j < |ps| :: Rank(environment[i].0) < Rank(ps[j].variable)
  }

  lemma {:induction false} NotBelow(environment: seq<(Variable, bytes)>, x: Variable)
    requires forall i | 0 <= i < |environment| :: environment[i].0 != x
    ensures Lookup(environment, x) == None
  {
    if environment == [] {
    } else {
      NotBelow(environment[1..], x);
    }
  }

  lemma {:induction false} ParametersRead(environment: seq<(Variable, bytes)>, ps: seq<Parameter>)
    requires Ascending(ps) && Below(environment, ps)
    ensures AddedAll(RequestQuery(None, environment), ShownAll(ps))
         == if AllGood(ps) then Some(RequestQuery(None, environment + Recorded(ps))) else None
    decreases |ps|
  {
    hide *;
    if ps == [] {
      NothingAdded(environment, ps);
    } else {
      var p, rest := ps[0], ps[1..];
      FirstFits(environment, ps);
      ParameterReads(RequestQuery(None, environment), p);
      ShownFirst(RequestQuery(None, environment), ps);
      if GoodText(p.value) {
        ParametersRead(environment + [(p.variable, p.value)], rest);
        assert environment + [(p.variable, p.value)] + Recorded(rest)
            == environment + ([(p.variable, p.value)] + Recorded(rest));
      }
    }
  }

  lemma NothingAdded(environment: seq<(Variable, bytes)>, ps: seq<Parameter>)
    requires ps == []
    ensures AddedAll(RequestQuery(None, environment), ShownAll(ps))
         == Some(RequestQuery(None, environment + Recorded(ps)))
    ensures AllGood(ps)
  {
    assert environment + [] == environment;
  }

  lemma FirstFits(environment: seq<(Variable, bytes)>, ps: seq<Parameter>)
    requires Ascending(ps) && Below(environment, ps) && ps != []
    ensures RequestQuery(None, environment).Value(ps[0].variable) == None
    ensures Ascending(ps[1..]) && Below(environment + [(ps[0].variable, ps[0].value)], ps[1..])
    ensures AllGood(ps) <==> GoodText(ps[0].value) && AllGood(ps[1..])
    ensures Recorded(ps) == [(ps[0].variable, ps[0].value)] + Recorded(ps[1..])
  {
    hide GoodText;
    NotBelow(environment, ps[0].variable);
    assert forall i | 0 < i < |ps| :: ps[i] == ps[1..][i - 1];
    hide Rank, Lookup;
  }

  lemma ShownFirst(q: RequestQuery, ps: seq<Parameter>)
    requires ps != []
    ensures AddedAll(q, ShownAll(ps)) == match Added(q, Shown(ps[0]))
                                         case None => None
                                         case Some(q') => AddedAll(q', ShownAll(ps[1..]))
  {
    hide Added, Shown;
    assert ShownAll(ps)[1..] == ShownAll(ps[1..]);
  }

  lemma {:induction false} LookupAppend(a: seq<Parameter>, b: seq<Parameter>, x: Variable)
    ensures Lookup(Recorded(a + b), x)
         == if Lookup(Recorded(a), x).Some? then Lookup(Recorded(a), x) else Lookup(Recorded(b), x)
  {
    if a == [] {
      assert a + b == b;
    } else {
      assert (a + b)[1..] == a[1..] + b;
      LookupAppend(a[1..], b, x);
    }
  }

  lemma LookupOptional(ps: seq<Parameter>, on: bool, p: Parameter, x: Variable)
    ensures Lookup(Recorded(ps + Optional(on, p)), x)
         == if Lookup(Recorded(ps), x).Some? then Lookup(Recorded(ps), x)
            else if on && p.variable == x then Some(p.value) else None
  {
    LookupAppend(ps, Optional(on, p), x);
    assert Recorded([p]) == [(p.variable, p.value)];
  }

  lemma LookupSearch(search: Search, x: Variable)
    ensures Lookup(Recorded(SearchParameters(search)), x)
         == if search == NoSearch then None
            else if x == GREP then Some(SearchKind(search)) else if x == SEARCH then Some(search.text) else None
  {
    if search != NoSearch {
      hide SearchKind;
      LookupOptional([Parameter(GREP, SearchKind(search))], true, Parameter(SEARCH, search.text), x);
      assert Recorded([Parameter(GREP, SearchKind(search))]) == [(GREP, SearchKind(search))];
      assert [Parameter(GREP, SearchKind(search))] + [Parameter(SEARCH, search.text)] == SearchParameters(search);
    }
  }

  /** What a printed toggle is read as. */
  function ToggleValue(
      offset: nat, show_message: bool, follow: bool, ignore_whitespace: bool, x: Variable): Option<bytes>
  {
    match x
    case OFFSET => if offset != 0 then Some(Digits(offset)) else None
    case SHOWMSG => if show_message then Some("1") else None
    case FOLLOW => if follow then Some("1") else None
    case IGNOREWS => if ignore_whitespace then Some("1") else None
    case _ => None
  }

  lemma LookupToggles(offset: nat, show_message: bool, follow: bool, ignore_whitespace: bool, x: Variable)
    ensures Lookup(Recorded(Toggles(offset, show_message, follow, ignore_whitespace)), x)
         == ToggleValue(offset, show_message, follow, ignore_whitespace, x)
  {
    hide Lookup, Recorded, Optional, Digits;
    var o, m, f, w :=
      Parameter(OFFSET, Digits(offset)), Parameter(SHOWMSG, "1"), Parameter(FOLLOW, "1"), Parameter(IGNOREWS, "1");
    var ps := Optional(offset != 0, o);
    NothingRecorded(x);
    assert [] + ps == ps;
    LookupOptional([], offset != 0, o, x);
    LookupOptional(ps, show_message, m, x);
    LookupOptional(ps + Optional(show_message, m), follow, f, x);
    LookupOptional(ps + Optional(show_message, m) + Optional(follow, f), ignore_whitespace, w, x);
  }

  lemma NothingRecorded(x: Variable)
    ensures Lookup(Recorded([]), x) == None
  {
  }

  lemma ParametersRecorded(q: LogQuery, x: Variable)
    ensures Lookup(Recorded(Parameters(q)), x)
         == if x == GREP then (if q.search == NoSearch then None else Some(SearchKind(q.search)))
            else if x == SEARCH then (if q.search == NoSearch then None else Some(q.search.text))
            else ToggleValue(q.offset, q.show_message, q.follow, q.ignore_whitespace, x)
  {
    hide Lookup, Recorded, Toggles, SearchParameters, SearchKind, Digits;
    LookupAppend(Toggles(q.offset, q.show_message, q.follow, q.ignore_whitespace), SearchParameters(q.search), x);
    LookupToggles(q.offset, q.show_message, q.follow, q.ignore_whitespace, x);
    LookupSearch(q.search, x);
  }

  predicate UpTo(ps: seq<Parameter>, rank: nat) {
    forall i | 0 <= i < |ps| :: Rank(ps[i].variable) < rank
  }

  lemma FitOptional(ps: seq<Parameter>, on: bool, p: Parameter)
    requires Ascending(ps) && UpTo(ps, Rank(p.variable))
    ensures Ascending(ps + Optional(on, p)) && UpTo(ps + Optional(on, p), Rank(p.variable) + 1)
    ensures AllGood(ps + Optional(on, p)) <==> AllGood(ps) && (on ==> GoodText(p.value))
  {
    hide GoodText, Rank;
    var qs := ps + Optional(on, p);
    assert forall i | 0 <= i < |ps| :: qs[i] == ps[i];
    assert on ==> qs[|ps|] == p;
  }

  lemma TogglesFit(offset: nat, show_message: bool, follow: bool, ignore_whitespace: bool)
    ensures var ps := Toggles(offset, show_message, follow, ignore_whitespace);
      Ascending(ps) && UpTo(ps, 4) && AllGood(ps)
  {
    hide Digits, GoodText, Optional, Ascending, AllGood, UpTo;
    DigitsGood(offset);
    var o, m, f, w :=
      Parameter(OFFSET, Digits(offset)), Parameter(SHOWMSG, "1"), Parameter(FOLLOW, "1"), Parameter(IGNOREWS, "1");
    var ps := Optional(offset != 0, o);
    assert [] + ps == ps;
    NothingFits();
    FitOptional([], offset != 0, o);
    FitOptional(ps, show_message, m);
    FitOptional(ps + Optional(show_message, m), follow, f);
    FitOptional(ps + Optional(show_message, m) + Optional(follow, f), ignore_whitespace, w);
  }

  lemma NothingFits()
    ensures Ascending([]) && UpTo([], 0) && AllGood([])
  {
  }

  lemma ParametersFit(q: LogQuery)
    ensures Ascending(Parameters(q))
    ensures AllGood(Parameters(q)) <==> (q.search == NoSearch || GoodText(q.search.text))
  {
    hide Toggles, GoodText, Optional, Ascending, AllGood, UpTo;
    var ps := Toggles(q.offset, q.show_message, q.follow, q.ignore_whitespace);
    TogglesFit(q.offset, q.show_message, q.follow, q.ignore_whitespace);
    if q.search == NoSearch {
      assert ps + [] == ps;
    } else {
      KindGood(q.search);
      SearchOptional(ps, q.search);
      hide SearchKind, SearchParameters;
      FitOptional(ps, true, Parameter(GREP, SearchKind(q.search)));
      FitOptional(ps + Optional(true, Parameter(GREP, SearchKind(q.search))), true, Parameter(SEARCH, q.search.text));
    }
  }

  lemma SearchOptional(ps: seq<Parameter>, search: Search)
    requires search != NoSearch
    ensures ps + SearchParameters(search)
         == ps + Optional(true, Parameter(GREP, SearchKind(search))) + Optional(true, Parameter(SEARCH, search.text))
  {
    hide SearchKind;
  }

  lemma DigitsGood(offset: nat)
    ensures GoodText(Digits(offset)) && GoodText("1")
  {
    AsciiValid(Digits(offset));
    AsciiValid("1");
  }

  lemma KindGood(search: Search)
    requires search != NoSearch
    ensures GoodText(SearchKind(search))
  {
    KindShape(search);
    hide SearchKind;
    AsciiValid(SearchKind(search));
  }

  lemma KindShape(search: Search)
    requires search != NoSearch
    ensures Alphanumeric(SearchKind(search)) && NUL !in SearchKind(search)
  {
  }

  /** Exactly the searches that come back. */
  ghost predicate GoodSearch(search: Search) {
    search == NoSearch || (NUL !in search.text && (search.Range? ==> ValidRange(search.text)))
  }

  lemma SearchReads(search: Search)
    requires search != NoSearch
    ensures SearchOf(Some(SearchKind(search)), Some(search.text))
         == if search.Range? && !ValidRange(search.text) then None else Some(search)
  {
    hide ValidRange;
  }

  lemma RecordedReads(q: LogQuery)
    requires q.offset <= USIZE_MAX
    ensures FromRequest(RequestQuery(None, Recorded(Parameters(q))))
         == if q.search.Range? && !ValidRange(q.search.text) then None else Some(q)
  {
    hide Lookup, Recorded, Parameters, SearchOf, SearchKind, ValidRange, Digits, Parsed;
    ParametersRecorded(q, OFFSET);
    ParametersRecorded(q, SHOWMSG);
    ParametersRecorded(q, FOLLOW);
    ParametersRecorded(q, IGNOREWS);
    ParametersRecorded(q, GREP);
    ParametersRecorded(q, SEARCH);
    ParsedDigits(q.offset, USIZE_MAX);
    if q.search != NoSearch {
      SearchReads(q.search);
    }
    NoSearchReads();
  }

  lemma NoSearchReads()
    ensures SearchOf(None, None) == Some(NoSearch)
  {
  }

  /** What the server makes of the query string of a followed link. */
  ghost function ReadBack(suffix: bytes): Option<LogQuery> {
    if suffix != [] && suffix[0] != '?' then None
    else
      match AddedAll(EMPTY, Split<byte>(if suffix == [] then [] else suffix[1..], '&'))
      case None => None
      case Some(q) => FromRequest(q)
  }

  /** Following a printed link gives back the query it was printed for, exactly when its search is good. */
  lemma SuffixRoundTrip(q: LogQuery)
    requires q.offset <= USIZE_MAX && (q.search == NoSearch || Valid(q.search.text))
    ensures ReadBack(SuffixOf(q)) == if GoodSearch(q.search) then Some(q) else None
  {
    var ps := Parameters(q);
    hide *;
    SuffixRead(q);
    ParametersFit(q);
    RecordedReads(q);
    EmptyRecords(ps);
    ParametersRead([], ps);
    SearchGood(q.search);
  }

  lemma SuffixRead(q: LogQuery)
    ensures ReadBack(SuffixOf(q)) == match AddedAll(EMPTY, ShownAll(Parameters(q)))
                                     case None => None
                                     case Some(r) => FromRequest(r)
  {
    var parts := ShownAll(Parameters(q));
    SuffixParts(Parameters(q));
    hide Parameters, ShownAll, AddedAll, FromRequest, Split, Join;
    var s := SuffixOf(q);
    assert parts != [] ==> s[0] == '?' && s[1..] == Join<byte>(parts, '&');
  }

  lemma EmptyRecords(ps: seq<Parameter>)
    ensures [] + Recorded(ps) == Recorded(ps)
    ensures EMPTY == RequestQuery(None, []) && Below([], ps)
  {
  }

  lemma SearchGood(search: Search)
    requires search == NoSearch || Valid(search.text)
    ensures GoodSearch(search)
       <==> (search == NoSearch || GoodText(search.text)) && (search.Range? ==> ValidRange(search.text))
  {
    hide Valid, ValidRange;
  }

  /** The printed parameters are what splitting the suffix yields. */
  lemma SuffixParts(ps: seq<Parameter>)
    ensures var parts := ShownAll(ps);
      AddedAll(EMPTY, Split<byte>(if parts == [] then [] else Join<byte>(parts, '&'), '&')) == AddedAll(EMPTY, parts)
    ensures ps != [] ==> ShownAll(ps) != []
  {
    var parts := ShownAll(ps);
    var s: bytes := if parts == [] then [] else Join<byte>(parts, '&');
    ShownClean(ps);
    hide ShownAll;
    if parts == [] {
      NoPairs(s, parts);
    } else {
      SplitJoin<byte>(parts, '&');
    }
  }

  lemma NoPairs(s: bytes, parts: seq<bytes>)
    requires s == [] && parts == []
    ensures AddedAll(EMPTY, Split<byte>(s, '&')) == AddedAll(EMPTY, parts)
  {
    var pairs: seq<bytes> := Split<byte>(s, '&');
    assert pairs == [[]] && pairs[1..] == [];
    assert Added(EMPTY, []) == Some(EMPTY);
  }

  lemma {:induction false} ShownClean(ps: seq<Parameter>)
    ensures forall i | 0 <= i < |ShownAll(ps)| :: '&' !in ShownAll(ps)[i]
  {
    if ps == [] {
    } else {
      ShownClean(ps[1..]);
      ShownSplits(ps[0]);
      hide Shown;
    }
  }
}
