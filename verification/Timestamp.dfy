/** The RFC 3339 form of a timestamp: section 5.6 gives its grammar, section 5.1 the order of its strings. */
module Timestamp {
  import opened Bytes
  import opened Decimal
  import opened Calendar

  const MIN_TIME := -62_135_596_800
  const MAX_TIME := 253_402_300_799

  function Clamped(timestamp: int): int {
    if timestamp < MIN_TIME then MIN_TIME else if timestamp > MAX_TIME then MAX_TIME else timestamp
  }

  /** The fields of a timestamp; Dafny's division is the Euclidean one the source asks for. */
  datatype Fields = Fields(date: Date, hour: int, minute: int, second: int)

  function FieldsOf(timestamp: int): Fields {
    var seconds := timestamp % 86_400;
    Fields(CivilFromDays(timestamp / 86_400), seconds / 3_600, seconds % 3_600 / 60, seconds % 60)
  }

  predicate InRange(f: Fields) {
    && IsDate(f.date) && 1 <= f.date.year <= 9999
    && 0 <= f.hour < 24 && 0 <= f.minute < 60 && 0 <= f.second < 60
  }

  function Written(f: Fields): bytes
    requires InRange(f)
  {
    Padded(f.date.year, 4) + ("-" + (Padded(f.date.month, 2) + ("-" + (Padded(f.date.day, 2) + ("T"
    + (Padded(f.hour, 2) + (":" + (Padded(f.minute, 2) + (":" + (Padded(f.second, 2) + "Z"))))))))))
  }

  lemma {:induction false} DatesAdvance(a: int, b: int)
    requires a <= b
    ensures a < b ==> DateBefore(CivilFromDays(a), CivilFromDays(b))
    decreases b - a
  {
    hide CivilFromDays, Next;
    if a < b {
      DatesAdvance(a, b - 1);
      CivilSteps(b - 1);
      NextIsLater(CivilFromDays(b - 1));
    }
  }

  predicate DateBefore(d: Date, e: Date) {
    d.year < e.year || (d.year == e.year && (d.month < e.month || (d.month == e.month && d.day < e.day)))
  }

  lemma NextIsLater(d: Date)
    ensures DateBefore(d, Next(d))
  {
  }

  lemma FirstDate()
    ensures CivilFromDays(-719_162) == Date(1, 1, 1)
  {
  }

  lemma LastDate()
    ensures CivilFromDays(2_932_896) == Date(9999, 12, 31)
  {
  }

  lemma DateInRange(days: int)
    requires -719_162 <= days <= 2_932_896
    ensures IsDate(CivilFromDays(days)) && 1 <= CivilFromDays(days).year <= 9999
  {
    hide CivilFromDays, IsDate;
    FirstDate();
    LastDate();
    CivilSteps(days);
    DatesAdvance(-719_162, days);
    DatesAdvance(days, 2_932_896);
  }

  lemma FieldsInRange(timestamp: int)
    requires MIN_TIME <= timestamp <= MAX_TIME
    ensures InRange(FieldsOf(timestamp))
  {
    hide CivilFromDays, IsDate;
    DateInRange(timestamp / 86_400);
  }

  /** `rfc3339` */
  function Rfc3339(timestamp: int): bytes {
    FieldsInRange(Clamped(timestamp));
    Written(FieldsOf(Clamped(timestamp)))
  }

  /* Reading a date-time back. */

  /** The date-time production of section 5.6, with the separators and the zone this program writes. */
  ghost predicate IsDateTime(s: bytes) {
    && |s| == 20
    && AllDigits(s[0..4]) && s[4] == '-' && AllDigits(s[5..7]) && s[7] == '-' && AllDigits(s[8..10]) && s[10] == 'T'
    && AllDigits(s[11..13]) && s[13] == ':' && AllDigits(s[14..16]) && s[16] == ':' && AllDigits(s[17..19])
    && s[19] == 'Z'
  }

  ghost function Read(s: bytes): Fields
    requires IsDateTime(s)
  {
    Fields(Date(Number(s[0..4]), Number(s[5..7]), Number(s[8..10])),
           Number(s[11..13]), Number(s[14..16]), Number(s[17..19]))
  }

  /** The seconds since the epoch that a date-time in UTC denotes. */
  function Seconds(f: Fields): int
    requires InRange(f)
  {
    DayNumber(f.date) * 86_400 + f.hour * 3_600 + f.minute * 60 + f.second
  }

  /** Field widths: every field takes exactly its place. */
  lemma FieldWidths(f: Fields)
    requires InRange(f)
    ensures |Padded(f.date.year, 4)| == 4 && Number(Padded(f.date.year, 4)) == f.date.year
    ensures |Padded(f.date.month, 2)| == 2 && Number(Padded(f.date.month, 2)) == f.date.month
    ensures |Padded(f.date.day, 2)| == 2 && Number(Padded(f.date.day, 2)) == f.date.day
    ensures |Padded(f.hour, 2)| == 2 && Number(Padded(f.hour, 2)) == f.hour
    ensures |Padded(f.minute, 2)| == 2 && Number(Padded(f.minute, 2)) == f.minute
    ensures |Padded(f.second, 2)| == 2 && Number(Padded(f.second, 2)) == f.second
  {
    assert Power10(2) == 100 && Power10(4) == 10_000 by {
      assert Power10(3) == 1_000;
    }
    hide Padded, Number, Power10;
    PaddedReads(f.date.year, 4);
    PaddedReads(f.date.month, 2);
    PaddedReads(f.date.day, 2);
    PaddedReads(f.hour, 2);
    PaddedReads(f.minute, 2);
    PaddedReads(f.second, 2);
  }

  lemma TimePlaces(h: bytes, mi: bytes, sec: bytes)
    requires |h| == 2 && |mi| == 2 && |sec| == 2
    ensures var t := h + (":" + (mi + (":" + (sec + "Z"))));
      |t| == 9 && t[0..2] == h && t[2] == ':' && t[3..5] == mi && t[5] == ':' && t[6..8] == sec && t[8] == 'Z'
  {
  }

  /** The places of six fields of width 4, 2, 2, 2, 2 and 2. */
  lemma Places(y: bytes, mo: bytes, d: bytes, t: bytes)
    requires |y| == 4 && |mo| == 2 && |d| == 2 && |t| == 9
    ensures var s := y + ("-" + (mo + ("-" + (d + ("T" + t)))));
      && |s| == 20
      && s[0..4] == y && s[4] == '-' && s[5..7] == mo && s[7] == '-' && s[8..10] == d && s[10] == 'T'
      && s[11..13] == t[0..2] && s[13] == t[2] && s[14..16] == t[3..5] && s[16] == t[5] && s[17..19] == t[6..8]
      && s[19] == t[8]
  {
    var s := y + ("-" + (mo + ("-" + (d + ("T" + t)))));
    assert s[11..] == t;
  }

  lemma WrittenReads(f: Fields)
    requires InRange(f)
    ensures IsDateTime(Written(f)) && Read(Written(f)) == f
  {
    hide InRange, Padded, AllDigits, Number;
    FieldWidths(f);
    TimePlaces(Padded(f.hour, 2), Padded(f.minute, 2), Padded(f.second, 2));
    Places(Padded(f.date.year, 4), Padded(f.date.month, 2), Padded(f.date.day, 2),
           Padded(f.hour, 2) + (":" + (Padded(f.minute, 2) + (":" + (Padded(f.second, 2) + "Z")))));
  }

  const FIRST := Fields(Date(1, 1, 1), 0, 0, 0)
  const LAST := Fields(Date(9999, 12, 31), 23, 59, 59)

  lemma EndsInRange()
    ensures InRange(FIRST) && InRange(LAST)
  {
  }

  lemma Ends()
    ensures FieldsOf(MIN_TIME) == FIRST && FieldsOf(MAX_TIME) == LAST
    ensures DayNumber(FIRST.date) == -719_162 && DayNumber(LAST.date) == 2_932_896
  {
    FirstDate();
    LastDate();
    CivilCounts(-719_162);
    CivilCounts(2_932_896);
    hide CivilFromDays, DayNumber;
  }

  lemma TwoDigits(n: nat)
    requires n < 100
    ensures Padded(n, 2) == [Digit(n / 10), Digit(n % 10)]
  {
    if n < 10 {
      assert Digits(n) == [Digit(n)];
      assert Zeros(1) == ['0'];
    } else {
      assert Digits(n / 10) == [Digit(n / 10)];
    }
  }

  lemma FirstYear()
    ensures Padded(1, 4) == "0001"
  {
    assert Digits(1) == "1";
    assert Zeros(1) == "0" && Zeros(2) == "00" && Zeros(3) == "000";
    hide Digits, Zeros;
  }

  lemma LastYear()
    ensures Padded(9999, 4) == "9999"
  {
    assert Digits(9) == "9";
    assert Digits(99) == "99";
    assert Digits(999) == "999";
    assert Digits(9999) == "9999";
    hide Digits;
  }

  lemma FirstWritten()
    ensures InRange(FIRST) && Written(FIRST) == "0001-01-01T00:00:00Z"
  {
    EndsInRange();
    FirstYear();
    TwoDigits(0);
    TwoDigits(1);
    hide Padded, InRange;
  }

  lemma LastWritten()
    ensures InRange(LAST) && Written(LAST) == "9999-12-31T23:59:59Z"
  {
    EndsInRange();
    LastYear();
    TwoDigits(12);
    TwoDigits(23);
    TwoDigits(31);
    TwoDigits(59);
    hide Padded, InRange;
  }

  /** From 0001-01-01T00:00:00Z to 9999-12-31T23:59:59Z, by counting days. */
  predicate InYears(timestamp: int) {
    DayNumber(Date(1, 1, 1)) * 86_400 <= timestamp < (DayNumber(Date(9999, 12, 31)) + 1) * 86_400
  }

  /** The string is a valid date-time of the years 1 to 9999 and reads back as the timestamp itself; a
      timestamp out of these years is written as the nearer end. */
  lemma Rfc3339Reads(timestamp: int)
    ensures var s := Rfc3339(timestamp);
      && IsDateTime(s) && InRange(Read(s))
      && (InYears(timestamp) ==> Seconds(Read(s)) == timestamp)
      && (!InYears(timestamp) ==> s == if timestamp < 0 then "0001-01-01T00:00:00Z" else "9999-12-31T23:59:59Z")
  {
    var t := Clamped(timestamp);
    hide Written, Read, IsDateTime, CivilFromDays, DayNumber, IsDate;
    Ends();
    FirstWritten();
    LastWritten();
    FieldsInRange(t);
    WrittenReads(FieldsOf(t));
    CivilCounts(t / 86_400);
    SecondsOfDay(t % 86_400);
  }

  lemma SecondsOfDay(seconds: int)
    requires 0 <= seconds < 86_400
    ensures seconds / 3_600 * 3_600 + seconds % 3_600 / 60 * 60 + seconds % 60 == seconds
  {
    assert seconds % 60 == seconds % 3_600 % 60;
  }

  /* The order of the strings. */

  /** Strict lexicographic order. */
  predicate Before(s: bytes, t: bytes) {
    t != [] && (s == [] || s[0] < t[0] || (s[0] == t[0] && Before(s[1..], t[1..])))
  }

  lemma {:induction false} BeforeConcat(a: bytes, b: bytes, x: bytes, y: bytes)
    requires |a| == |b|
    ensures Before(a + x, b + y) <==> Before(a, b) || (a == b && Before(x, y))
    ensures Before(a, b) ==> a != b
  {
    if a == [] {
      assert a + x == x && b + y == y;
    } else {
      assert (a + x)[1..] == a[1..] + x && (b + y)[1..] == b[1..] + y;
      BeforeConcat(a[1..], b[1..], x, y);
      assert a == [a[0]] + a[1..] && b == [b[0]] + b[1..];
    }
  }

  /** Digit strings of one length are ordered as the numbers they write. */
  lemma {:induction false} NumbersOrdered(s: bytes, t: bytes)
    requires |s| == |t| && AllDigits(s) && AllDigits(t)
    ensures Before(s, t) <==> Number(s) < Number(t)
    ensures s == t <==> Number(s) == Number(t)
    decreases |s|
  {
    if s == [] {
    } else {
      var a, b, c, d := s[..|s| - 1], t[..|t| - 1], s[|s| - 1], t[|t| - 1];
      assert s == a + [c] && t == b + [d];
      NumbersOrdered(a, b);
      BeforeConcat(a, b, [c], [d]);
      LastDigits(c, d);
      hide Before;
    }
  }

  lemma LastDigits(c: byte, d: byte)
    ensures Before([c], [d]) <==> c < d
  {
  }

  predicate FieldsBefore(f: Fields, g: Fields) {
    || DateBefore(f.date, g.date)
    || (f.date == g.date && (f.hour < g.hour || (f.hour == g.hour && (f.minute < g.minute
        || (f.minute == g.minute && f.second < g.second)))))
  }

  /** One field with its separator decides the order, or leaves it to the rest. */
  lemma FieldOrdered(m: nat, n: nat, width: nat, sep: bytes, x: bytes, y: bytes)
    requires |sep| == 1
    requires |Padded(m, width)| == width && Number(Padded(m, width)) == m
    requires |Padded(n, width)| == width && Number(Padded(n, width)) == n
    ensures Before(Padded(m, width) + (sep + x), Padded(n, width) + (sep + y)) <==> m < n || (m == n && Before(x, y))
  {
    var a, b := Padded(m, width), Padded(n, width);
    hide Padded, Number;
    NumbersOrdered(a, b);
    BeforeConcat(a, b, sep + x, sep + y);
    assert (sep + x)[1..] == x && (sep + y)[1..] == y;
  }

  lemma LastField(m: nat, n: nat)
    requires |Padded(m, 2)| == 2 && Number(Padded(m, 2)) == m && |Padded(n, 2)| == 2 && Number(Padded(n, 2)) == n
    ensures Before(Padded(m, 2) + "Z", Padded(n, 2) + "Z") <==> m < n
  {
    hide Padded, Number;
    NumbersOrdered(Padded(m, 2), Padded(n, 2));
    BeforeConcat(Padded(m, 2), Padded(n, 2), "Z", "Z");
    assert !Before("Z", "Z");
  }

  lemma TimesOrdered(f: Fields, g: Fields)
    requires InRange(f) && InRange(g)
    ensures Before(Padded(f.hour, 2) + (":" + (Padded(f.minute, 2) + (":" + (Padded(f.second, 2) + "Z")))),
                   Padded(g.hour, 2) + (":" + (Padded(g.minute, 2) + (":" + (Padded(g.second, 2) + "Z")))))
       <==> f.hour < g.hour || (f.hour == g.hour && (f.minute < g.minute
            || (f.minute == g.minute && f.second < g.second)))
  {
    hide Padded, Number, Before, IsDate;
    FieldWidths(f);
    FieldWidths(g);
    LastField(f.second, g.second);
    var x, y := Padded(f.second, 2) + "Z", Padded(g.second, 2) + "Z";
    FieldOrdered(f.minute, g.minute, 2, ":", x, y);
    FieldOrdered(f.hour, g.hour, 2, ":", Padded(f.minute, 2) + (":" + x), Padded(g.minute, 2) + (":" + y));
  }

  lemma WrittenOrdered(f: Fields, g: Fields)
    requires InRange(f) && InRange(g)
    ensures Before(Written(f), Written(g)) <==> FieldsBefore(f, g)
  {
    hide Padded, Number, Before, IsDate;
    FieldWidths(f);
    FieldWidths(g);
    TimesOrdered(f, g);
    var x := Padded(f.hour, 2) + (":" + (Padded(f.minute, 2) + (":" + (Padded(f.second, 2) + "Z"))));
    var y := Padded(g.hour, 2) + (":" + (Padded(g.minute, 2) + (":" + (Padded(g.second, 2) + "Z"))));
    FieldOrdered(f.date.day, g.date.day, 2, "T", x, y);
    var x', y' := Padded(f.date.day, 2) + ("T" + x), Padded(g.date.day, 2) + ("T" + y);
    FieldOrdered(f.date.month, g.date.month, 2, "-", x', y');
    FieldOrdered(f.date.year, g.date.year, 4, "-",
                 Padded(f.date.month, 2) + ("-" + x'), Padded(g.date.month, 2) + ("-" + y'));
  }

  lemma FieldsAdvance(a: int, b: int)
    requires a < b
    ensures FieldsBefore(FieldsOf(a), FieldsOf(b)) && !FieldsBefore(FieldsOf(b), FieldsOf(a))
    ensures !FieldsBefore(FieldsOf(a), FieldsOf(a))
  {
    hide CivilFromDays;
    if a / 86_400 < b / 86_400 {
      DatesAdvance(a / 86_400, b / 86_400);
    } else {
      TimeOfDayAdvances(a % 86_400, b % 86_400);
    }
  }

  lemma TimeOfDayAdvances(s: int, t: int)
    requires 0 <= s < t < 86_400
    ensures s / 3_600 < t / 3_600 || (s / 3_600 == t / 3_600 && (s % 3_600 / 60 < t % 3_600 / 60
            || (s % 3_600 / 60 == t % 3_600 / 60 && s % 60 < t % 60)))
  {
    SecondsOfDay(s);
    SecondsOfDay(t);
  }

  /** Section 5.1: the strings sort as the timestamps do, strictly unless both lie beyond one end. */
  lemma Rfc3339Ordered(a: int, b: int)
    ensures Before(Rfc3339(a), Rfc3339(b))
       <==> a < b && a + 1 < (DayNumber(Date(9999, 12, 31)) + 1) * 86_400 && DayNumber(Date(1, 1, 1)) * 86_400 < b
  {
    var s, t := Clamped(a), Clamped(b);
    hide Written, CivilFromDays, FieldsOf, FieldsBefore, Before, InRange, DayNumber;
    Ends();
    FieldsInRange(s);
    FieldsInRange(t);
    WrittenOrdered(FieldsOf(s), FieldsOf(t));
    FieldsAdvance(s, s + 1);
    if s < t {
      FieldsAdvance(s, t);
    } else if t < s {
      FieldsAdvance(t, s);
    }
  }
}
