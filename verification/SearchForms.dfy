/** The log page as a request asks for it: what its parameters must say, and its search form. */
module SearchForms {
  import opened Wrappers
  import opened Bytes
  import opened Utf8
  import opened Percent
  import opened Names
  import opened Decimal
  import opened Query
  import opened LogQuery
  import opened QueryForms

  /* What the parameters say. */

  predicate SaysFlag(value: Option<bytes>, on: bool) {
    value == Some(if on then "1" else "0") || (value == None && !on)
  }

  ghost predicate SaysOffset(value: Option<bytes>, offset: nat) {
    if value == None then offset == 0 else offset <= USIZE_MAX && Spells(value.value, offset)
  }

  ghost predicate SaysSearch(kind: Option<bytes>, text: Option<bytes>, search: Search) {
    match search
    case NoSearch => kind == None && text == None
    case Grep(x) => kind == Some("grep") && text == Some(x)
    case Author(x) => kind == Some("author") && text == Some(x)
    case Committer(x) => kind == Some("committer") && text == Some(x)
    case Range(x) => kind == Some("range") && text == Some(x) && ValidRange(x)
  }

  ghost predicate Says(fs: seq<Option<Field>>, q: LogQuery) {
    && SaysOffset(Said(fs, Of(OFFSET)), q.offset)
    && SaysFlag(Said(fs, Of(SHOWMSG)), q.show_message)
    && SaysFlag(Said(fs, Of(FOLLOW)), q.follow)
    && SaysFlag(Said(fs, Of(IGNOREWS)), q.ignore_whitespace)
    && SaysSearch(Said(fs, Of(GREP)), Said(fs, Of(SEARCH)), q.search)
  }

  lemma FlagReads(value: Option<bytes>, on: bool)
    ensures Flag(value) == Some(on) <==> SaysFlag(value, on)
  {
  }

  lemma OffsetReads(value: Option<bytes>, offset: nat)
    ensures OffsetOf(value) == Some(offset) <==> SaysOffset(value, offset)
  {
    if value.Some? {
      ParsedExactly(value.value, USIZE_MAX, offset);
    }
    hide Parsed, Spells;
  }

  lemma SearchOfReads(kind: Option<bytes>, text: Option<bytes>, search: Search)
    ensures SearchOf(kind, text) == Some(search) <==> SaysSearch(kind, text, search)
  {
    hide ValidRange;
  }

  /** A log page is shown for exactly the queries that say which: in any order and any spelling, with each
      parameter once and every value readable. */
  lemma RequestReads(fs: seq<Option<Field>>, q: LogQuery)
    requires AllSendable(fs) && fs != []
    ensures ReadBack("?" + QueryText(fs)) == Some(q) <==> AllClean(fs) && NoneRepeated(fs) && Says(fs, q)
  {
    hide *;
    var text := QueryText(fs);
    BehindMark(text);
    QueryReads(fs, Of(OFFSET));
    QueryReads(fs, Of(SHOWMSG));
    QueryReads(fs, Of(FOLLOW));
    QueryReads(fs, Of(IGNOREWS));
    QueryReads(fs, Of(GREP));
    QueryReads(fs, Of(SEARCH));
    var r := AddedAll(EMPTY, Split<byte>(text, '&'));
    if r.Some? {
      ValuesDecide(fs, r.value, q);
    }
  }

  lemma BehindMark(text: bytes)
    ensures ReadBack("?" + text) == match AddedAll(EMPTY, Split<byte>(text, '&'))
                                    case None => None
                                    case Some(q) => FromRequest(q)
  {
    hide AddedAll, Split, FromRequest;
    assert ("?" + text)[1..] == text;
  }

  lemma ValuesDecide(fs: seq<Option<Field>>, r: RequestQuery, q: LogQuery)
    requires forall x | x in {OFFSET, SHOWMSG, FOLLOW, IGNOREWS, GREP, SEARCH} :: ValueOf(r, Of(x)) == Said(fs, Of(x))
    ensures FromRequest(r) == Some(q) <==> Says(fs, q)
  {
    assert forall x :: ValueOf(r, Of(x)) == r.Value(x);
    OffsetReads(r.Value(OFFSET), q.offset);
    FlagReads(r.Value(SHOWMSG), q.show_message);
    FlagReads(r.Value(FOLLOW), q.follow);
    FlagReads(r.Value(IGNOREWS), q.ignore_whitespace);
    SearchOfReads(r.Value(GREP), r.Value(SEARCH), q.search);
    hide OffsetOf, Flag, SearchOf, SaysOffset, SaysFlag, SaysSearch, Said, ValueOf, Lookup;
  }

  /* The search form. */

  function Untouched(x: bytes): (ways: seq<FormWay>)
    ensures |ways| == |x|
  {
    if x == [] then [] else [As(Raw)] + Untouched(x[1..])
  }

  lemma {:induction false} UntouchedFits(x: bytes)
    requires Alphanumeric(x)
    ensures Fitting(x, Untouched(x))
  {
    if x == [] {
    } else {
      UntouchedFits(x[1..]);
      var ways := Untouched(x);
      assert ways[1..] == Untouched(x[1..]) && Plain(ways)[1..] == Plain(ways[1..]);
      forall i | 0 <= i < |x|
        ensures Fits(x[i], ways[i])
      {
        assert i > 0 ==> x[i] == x[1..][i - 1] && ways[i] == ways[1..][i - 1];
      }
      hide Fits, Written;
    }
  }

  /** A parameter with a plain value, as a browser sends it. */
  function Sends(x: Variable, value: bytes): Field {
    Field(Of(x), value, Untouched(NameFor(x)), Untouched(value), true)
  }

  lemma SendsSendable(x: Variable, value: bytes)
    requires Alphanumeric(value)
    ensures Sendable(Sends(x, value))
  {
    NameShape(x);
    UntouchedFits(NameFor(x));
    UntouchedFits(value);
    hide Fitting, NameFor, Untouched;
  }

  function Hidden(on: bool, x: Variable): Option<Field> {
    if on then Some(Sends(x, "1")) else None
  }

  /** The form of a log page, submitted for a search whose text is sent in some way. */
  function SearchForm(q: LogQuery, ways: seq<FormWay>): seq<Option<Field>>
    requires q.search != NoSearch
  {
    [Hidden(q.show_message, SHOWMSG), Hidden(q.follow, FOLLOW), Hidden(q.ignore_whitespace, IGNOREWS),
     Some(Sends(GREP, SearchKind(q.search))),
     Some(Field(Of(SEARCH), q.search.text, Untouched(NameFor(SEARCH)), ways, true))]
  }

  lemma FiveSendable(fs: seq<Option<Field>>)
    requires |fs| == 5
    requires forall k | k in {0, 1, 2, 3, 4} :: fs[k].Some? ==> Sendable(fs[k].value)
    requires forall k | k in {0, 1, 2, 3} :: fs[k].Some? ==> GoodText(fs[k].value.value)
    requires fs[4].Some?
    ensures AllSendable(fs)
    ensures AllClean(fs) <==> GoodText(fs[4].value.value)
  {
    hide Sendable, GoodText;
  }

  lemma HiddenField(on: bool, x: Variable)
    ensures var h := Hidden(on, x);
      h.Some? ==> Sendable(h.value) && GoodText(h.value.value) && h.value.key == Of(x) && h.value.value == "1"
  {
    SendsSendable(x, "1");
    DigitsGood(1);
    hide Untouched, NameFor, Sendable, GoodText;
  }

  lemma KindField(search: Search)
    requires search != NoSearch
    ensures var f := Sends(GREP, SearchKind(search)); Sendable(f) && GoodText(f.value)
  {
    KindShape(search);
    KindGood(search);
    SendsSendable(GREP, SearchKind(search));
    hide Untouched, NameFor, Sendable, GoodText, SearchKind;
  }

  lemma TextField(text: bytes, ways: seq<FormWay>)
    requires Fitting(text, ways)
    ensures Sendable(Field(Of(SEARCH), text, Untouched(NameFor(SEARCH)), ways, true))
  {
    SendsSendable(SEARCH, "1");
    hide Untouched, NameFor, Fitting;
  }

  lemma FormSendable(q: LogQuery, ways: seq<FormWay>)
    requires q.search != NoSearch && Fitting(q.search.text, ways)
    ensures AllSendable(SearchForm(q, ways))
    ensures AllClean(SearchForm(q, ways)) <==> GoodText(q.search.text)
  {
    HiddenField(q.show_message, SHOWMSG);
    HiddenField(q.follow, FOLLOW);
    HiddenField(q.ignore_whitespace, IGNOREWS);
    KindField(q.search);
    TextField(q.search.text, ways);
    hide Hidden, Untouched, SearchKind, GoodText, Fitting, NameFor, Sendable, AllSendable, AllClean;
    FiveSendable(SearchForm(q, ways));
  }

  lemma FormDistinct(q: LogQuery, ways: seq<FormWay>)
    requires q.search != NoSearch
    ensures NoneRepeated(SearchForm(q, ways))
  {
    var fs := SearchForm(q, ways);
    var keys := [Of(SHOWMSG), Of(FOLLOW), Of(IGNOREWS), Of(GREP), Of(SEARCH)];
    assert forall k | 0 <= k < 5 :: fs[k].Some? ==> fs[k].value.key == keys[k];
    hide SearchForm;
  }

  lemma FormSays(q: LogQuery, ways: seq<FormWay>)
    requires q.search != NoSearch
    ensures Says(SearchForm(q, ways), q.(offset := 0)) <==> (q.search.Range? ==> ValidRange(q.search.text))
  {
    var fs := SearchForm(q, ways);
    FormSaid(q, ways);
    hide ValidRange, Said, SearchForm;
  }

  lemma FormSaid(q: LogQuery, ways: seq<FormWay>)
    requires q.search != NoSearch
    ensures var fs := SearchForm(q, ways);
      && Said(fs, Of(OFFSET)) == None
      && Said(fs, Of(SHOWMSG)) == (if q.show_message then Some("1") else None)
      && Said(fs, Of(FOLLOW)) == (if q.follow then Some("1") else None)
      && Said(fs, Of(IGNOREWS)) == (if q.ignore_whitespace then Some("1") else None)
      && Said(fs, Of(GREP)) == Some(SearchKind(q.search))
      && Said(fs, Of(SEARCH)) == Some(q.search.text)
  {
    var h, f, w := Hidden(q.show_message, SHOWMSG), Hidden(q.follow, FOLLOW), Hidden(q.ignore_whitespace, IGNOREWS);
    var g, t := Some(Sends(GREP, SearchKind(q.search))),
      Some(Field(Of(SEARCH), q.search.text, Untouched(NameFor(SEARCH)), ways, true));
    hide Untouched, SearchKind, NameFor, Said;
    forall key: Key
      ensures Said([h, f, w, g, t], key)
           == First(h, key, First(f, key, First(w, key, First(g, key, First(t, key, None)))))
    {
      FiveSaid(h, f, w, g, t, key);
    }
  }

  function First(f: Option<Field>, key: Key, otherwise: Option<bytes>): Option<bytes> {
    if f.Some? && f.value.key == key then Some(f.value.value) else otherwise
  }

  lemma FirstSaid(f: Option<Field>, fs: seq<Option<Field>>, key: Key)
    ensures Said([f] + fs, key) == First(f, key, Said(fs, key))
  {
    assert ([f] + fs)[1..] == fs;
  }

  lemma FiveSaid(
      a: Option<Field>, b: Option<Field>, c: Option<Field>, d: Option<Field>, e: Option<Field>, key: Key)
    ensures Said([a, b, c, d, e], key)
         == First(a, key, First(b, key, First(c, key, First(d, key, First(e, key, None)))))
  {
    FirstSaid(a, [b, c, d, e], key);
    FirstSaid(b, [c, d, e], key);
    FirstSaid(c, [d, e], key);
    FirstSaid(d, [e], key);
    FirstSaid(e, [], key);
    assert Said([], key) == None;
    hide Said, First;
    assert [a] + [b, c, d, e] == [a, b, c, d, e] && [b] + [c, d, e] == [b, c, d, e] && [c] + [d, e] == [c, d, e];
    assert [d] + [e] == [d, e] && [e] + [] == [e];
  }

  /** The form finds what was typed, however the browser writes it: exactly the texts that are NUL-free UTF-8
      and, for a range, valid ones. */
  lemma FormReads(q: LogQuery, ways: seq<FormWay>)
    requires q.search != NoSearch && Fitting(q.search.text, ways)
    ensures AllSendable(SearchForm(q, ways))
    ensures ReadBack("?" + QueryText(SearchForm(q, ways))) == Some(q.(offset := 0))
       <==> GoodText(q.search.text) && (q.search.Range? ==> ValidRange(q.search.text))
  {
    hide *;
    FormSendable(q, ways);
    FormDistinct(q, ways);
    FormSays(q, ways);
    FormLong(q, ways);
    RequestReads(SearchForm(q, ways), q.(offset := 0));
  }

  lemma FormLong(q: LogQuery, ways: seq<FormWay>)
    requires q.search != NoSearch
    ensures SearchForm(q, ways) != []
  {
  }
}
