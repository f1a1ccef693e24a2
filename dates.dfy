/**
 * The date handling of the record handlers: `datetime.datetime.strptime` against one of
 * the two fixed formats, and `datetime.isoformat()` of the result.
 *
 * `strptime` turns its format into a regular expression with one group per directive and
 * matches the whole string against it; the groups are
 *   %Y  exactly four digits
 *   %m  `1[0-2]|0[1-9]|[1-9]`               (1 to 12, one or two digits)
 *   %d  `3[01]|[12]\d|0[1-9]|[1-9]| [1-9]`  (1 to 31, one or two digits, or a space and a digit)
 *   %H  `2[0-3]|[0-1]\d|\d`                 (0 to 23)
 *   %M  `[0-5]\d|\d`                        (0 to 59)
 *   %S  `6[0-1]|[0-5]\d|\d`                 (0 to 61)
 * Every group holds only digits (and the one space of %d) and every separator is neither,
 * so a group matches exactly when the text up to the next separator is one of its
 * alternatives. The matched values are then handed to `datetime`, which refuses year 0,
 * a day past the end of its month and the seconds 60 and 61.
 */
module Dates {
  import opened Wrappers

  /** The two formats: publication dates "%Y-%m-%d-%H;%M;%S", modification dates "%Y-%m-%d-%H:%M:%S". */
  datatype DateFormat = PublicationFormat | ModificationFormat

  /** The separator between hours, minutes and seconds: the only difference between the formats. */
  function TimeSeparator(f: DateFormat): char
  {
    match f
    case PublicationFormat => ';'
    case ModificationFormat => ':'
  }

  datatype DateTime = DateTime(year: int, month: int, day: int, hour: int, minute: int, second: int)

  /** Why `strptime` raises `ValueError`: the text does not match the format (this includes
      trailing unconverted text), or the fields do not form a date `datetime` accepts. */
  datatype DateFault = NoMatch | OutOfRange

  predicate IsLeapYear(y: int)
  {
    y % 4 == 0 && (y % 100 != 0 || y % 400 == 0)
  }

  function DaysInMonth(y: int, m: int): int
    requires 1 <= m <= 12
  {
    if m == 2 then (if IsLeapYear(y) then 29 else 28)
    else if m == 4 || m == 6 || m == 9 || m == 11 then 30
    else 31
  }

  /** The values of a `datetime` (MINYEAR 1, MAXYEAR 9999, no leap seconds). */
  predicate Valid(d: DateTime)
  {
    && 1 <= d.year <= 9999
    && 1 <= d.month <= 12
    && 1 <= d.day <= DaysInMonth(d.year, d.month)
    && 0 <= d.hour <= 23
    && 0 <= d.minute <= 59
    && 0 <= d.second <= 59
  }

  /** The values fit the ranges of the pattern's groups, which are wider than `Valid`: `%d`
      admits 31 in every month, `%S` the leap seconds 60 and 61, `%Y` the year 0. */
  predicate InPattern(d: DateTime)
  {
    0 <= d.year <= 9999 && 1 <= d.month <= 12 && 1 <= d.day <= 31 &&
    0 <= d.hour <= 23 && 0 <= d.minute <= 59 && 0 <= d.second <= 61
  }

  // ---------------------------------------------------------------------------------------
  // Digits

  predicate IsDigit(c: char)
  {
    '0' <= c <= '9'
  }

  predicate AllDigits(s: string)
  {
    forall i :: 0 <= i < |s| ==> IsDigit(s[i])
  }

  /** The number a string of decimal digits denotes, most significant digit first. */
  function DigitsValue(s: string): nat
    requires AllDigits(s)
  {
    if s == [] then 0 else 10 * DigitsValue(s[..|s| - 1]) + (s[|s| - 1] as int - '0' as int)
  }

  function Digit(n: int): char
    requires 0 <= n <= 9
  {
    ('0' as int + n) as char
  }

  /** `%02d` */
  function Pad2(n: int): string
    requires 0 <= n <= 99
  {
    [Digit(n / 10), Digit(n % 10)]
  }

  /** `%04d` */
  function Pad4(n: int): string
    requires 0 <= n <= 9999
  {
    [Digit(n / 1000), Digit(n / 100 % 10), Digit(n / 10 % 10), Digit(n % 10)]
  }

  lemma DigitOf(n: int)
    requires 0 <= n <= 9
    ensures IsDigit(Digit(n)) && Digit(n) as int - '0' as int == n
  {
  }

  /** Appending a digit multiplies the value by ten and adds the digit. */
  lemma DigitsValueAppend(s: string, c: char)
    requires AllDigits(s) && IsDigit(c)
    ensures AllDigits(s + [c]) && DigitsValue(s + [c]) == 10 * DigitsValue(s) + (c as int - '0' as int)
  {
    assert (s + [c])[..|s|] == s;
  }

  lemma Pad2Value(n: int)
    requires 0 <= n <= 99
    ensures AllDigits(Pad2(n)) && DigitsValue(Pad2(n)) == n
  {
    DigitOf(n / 10);
    DigitOf(n % 10);
    DigitsValueAppend([], Digit(n / 10));
    assert [] + [Digit(n / 10)] == [Digit(n / 10)];
    DigitsValueAppend([Digit(n / 10)], Digit(n % 10));
    assert [Digit(n / 10)] + [Digit(n % 10)] == Pad2(n);
  }

  lemma Pad4Value(n: int)
    requires 0 <= n <= 9999
    ensures AllDigits(Pad4(n)) && DigitsValue(Pad4(n)) == n
  {
    var p := Pad4(n);
    DigitOf(n / 1000);
    DigitOf(n / 100 % 10);
    DigitOf(n / 10 % 10);
    DigitOf(n % 10);
    assert AllDigits(p);
    DigitsValue4(p);
    DecimalDigits(n);
  }

  lemma DecimalDigits(n: int)
    requires 0 <= n <= 9999
    ensures n == 1000 * (n / 1000) + 100 * (n / 100 % 10) + 10 * (n / 10 % 10) + n % 10
  {
    assert 10 * (n / 1000) + n / 100 % 10 == n / 100;
    assert 10 * (n / 100) + n / 10 % 10 == n / 10;
    assert 10 * (n / 10) + n % 10 == n;
  }

  lemma DivSplit10(q: int, r: int)
    requires 0 <= r < 10
    ensures (10 * q + r) / 10 == q && (10 * q + r) % 10 == r
  {
  }

  lemma DivSplit100(q: int, r: int)
    requires 0 <= r < 100
    ensures (100 * q + r) / 100 == q && (100 * q + r) % 100 == r
  {
  }

  lemma DivSplit1000(q: int, r: int)
    requires 0 <= r < 1000
    ensures (1000 * q + r) / 1000 == q && (1000 * q + r) % 1000 == r
  {
  }

  /** A two-digit string is the padding of its own value. */
  lemma Pad2OfDigits(f: string)
    requires |f| == 2 && AllDigits(f)
    ensures DigitsValue(f) <= 99 && Pad2(DigitsValue(f)) == f
  {
    var x, y := f[0] as int - '0' as int, f[1] as int - '0' as int;
    DigitsValueAppend([], f[0]);
    assert [] + [f[0]] == [f[0]];
    DigitsValueAppend([f[0]], f[1]);
    assert [f[0]] + [f[1]] == f;
    assert DigitsValue(f) == 10 * x + y;
    assert (10 * x + y) / 10 == x && (10 * x + y) % 10 == y;
  }

  /** The value of four digits. */
  lemma DigitsValue4(f: string)
    requires |f| == 4 && AllDigits(f)
    ensures DigitsValue(f) == 1000 * (f[0] as int - '0' as int) + 100 * (f[1] as int - '0' as int)
                              + 10 * (f[2] as int - '0' as int) + (f[3] as int - '0' as int)
  {
    DigitsValueAppend([], f[0]);
    assert [] + [f[0]] == [f[0]];
    DigitsValueAppend([f[0]], f[1]);
    assert [f[0]] + [f[1]] == [f[0], f[1]];
    DigitsValueAppend([f[0], f[1]], f[2]);
    assert [f[0], f[1]] + [f[2]] == [f[0], f[1], f[2]];
    DigitsValueAppend([f[0], f[1], f[2]], f[3]);
    assert [f[0], f[1], f[2]] + [f[3]] == f;
  }

  /** The padding of a number given by its four decimal digits. */
  lemma Pad4OfValue(w: int, x: int, y: int, z: int)
    requires 0 <= w <= 9 && 0 <= x <= 9 && 0 <= y <= 9 && 0 <= z <= 9
    ensures 1000 * w + 100 * x + 10 * y + z <= 9999
    ensures Pad4(1000 * w + 100 * x + 10 * y + z) == [Digit(w), Digit(x), Digit(y), Digit(z)]
  {
    var n := 1000 * w + 100 * x + 10 * y + z;
    DivSplit1000(w, 100 * x + 10 * y + z);
    assert n / 1000 == w;
    DivSplit100(10 * w + x, 10 * y + z);
    DivSplit10(w, x);
    assert n / 100 % 10 == x;
    DivSplit10(10 * (10 * w + x) + y, z);
    DivSplit10(10 * w + x, y);
    assert n / 10 % 10 == y;
    assert n % 10 == z;
  }

  /** A four-digit string is the padding of its own value. */
  lemma Pad4OfDigits(f: string)
    requires |f| == 4 && AllDigits(f)
    ensures DigitsValue(f) <= 9999 && Pad4(DigitsValue(f)) == f
  {
    var w, x, y, z := f[0] as int - '0' as int, f[1] as int - '0' as int, f[2] as int - '0' as int, f[3] as int - '0' as int;
    DigitsValue4(f);
    Pad4OfValue(w, x, y, z);
    assert IsDigit(f[0]) && IsDigit(f[1]) && IsDigit(f[2]) && IsDigit(f[3]);
    assert Digit(w) == f[0] && Digit(x) == f[1] && Digit(y) == f[2] && Digit(z) == f[3];
    assert [f[0], f[1], f[2], f[3]] == f;
  }

  // ---------------------------------------------------------------------------------------
  // Splitting at a separator

  /** The position of the first `c` in `s`, or `|s|` when there is none. */
  function IndexOf(s: string, c: char): (i: nat)
    ensures i <= |s|
    ensures i < |s| ==> s[i] == c
    ensures forall k :: 0 <= k < i ==> s[k] != c
  {
    if s == [] then 0 else if s[0] == c then 0 else 1 + IndexOf(s[1..], c)
  }

  /** The text before the first `c` and the text after it; `None` when `s` holds no `c`. */
  function Split(s: string, c: char): (r: Option<(string, string)>)
    ensures r.None? <==> c !in s
    ensures r.Some? ==> c !in r.value.0 && s == r.value.0 + [c] + r.value.1
  {
    var i := IndexOf(s, c);
    if i < |s| then
      assert s == s[..i] + [c] + s[i + 1..];
      Some((s[..i], s[i + 1..]))
    else
      None
  }

  /** Splitting a text whose first separator is the one after `a` gives back `a` and `b`. */
  lemma SplitAt(a: string, c: char, b: string)
    requires c !in a
    ensures Split(a + [c] + b, c) == Some((a, b))
  {
    var s := a + [c] + b;
    var i := IndexOf(s, c);
    assert s[|a|] == c;
    assert i == |a|;
    assert s[..i] == a;
    assert s[i + 1..] == b;
  }

  // ---------------------------------------------------------------------------------------
  // The directives' groups

  /** One or two digits and their value. */
  function ShortNumber(f: string): Option<int>
  {
    if 1 <= |f| <= 2 && AllDigits(f) then Some(DigitsValue(f)) else None
  }

  function Within(v: Option<int>, lo: int, hi: int): Option<int>
  {
    if v.Some? && lo <= v.value <= hi then v else None
  }

  function YearField(f: string): Option<int>
  {
    if |f| == 4 && AllDigits(f) then Some(DigitsValue(f)) else None
  }

  function MonthField(f: string): Option<int>
  {
    Within(ShortNumber(f), 1, 12)
  }

  function DayField(f: string): Option<int>
  {
    if |f| == 2 && f[0] == ' ' && '1' <= f[1] <= '9' then Some(f[1] as int - '0' as int)
    else Within(ShortNumber(f), 1, 31)
  }

  function HourField(f: string): Option<int>
  {
    Within(ShortNumber(f), 0, 23)
  }

  function MinuteField(f: string): Option<int>
  {
    Within(ShortNumber(f), 0, 59)
  }

  function SecondField(f: string): Option<int>
  {
    Within(ShortNumber(f), 0, 61)
  }

  /** The texts of the six fields of a date string. */
  datatype Fields = Fields(year: string, month: string, day: string, hour: string, minute: string, second: string)

  /** The fields joined by the format's separators. */
  function Join(t: Fields, sep: char): string
  {
    t.year + ['-'] + (t.month + ['-'] + (t.day + ['-'] + (t.hour + [sep] + (t.minute + [sep] + t.second))))
  }

  /** Cuts `s` at its first three '-' and then at the next two `sep`. */
  function SplitFields(s: string, sep: char): (r: Option<Fields>)
    ensures r.Some? ==> s == Join(r.value, sep)
    ensures r.Some? ==> '-' !in r.value.year && '-' !in r.value.month && '-' !in r.value.day
    ensures r.Some? ==> sep !in r.value.hour && sep !in r.value.minute
  {
    var year :- Split(s, '-');
    var month :- Split(year.1, '-');
    var day :- Split(month.1, '-');
    var hour :- Split(day.1, sep);
    var minute :- Split(hour.1, sep);
    Some(Fields(year.0, month.0, day.0, hour.0, minute.0, minute.1))
  }

  /** Cutting joined fields that hold no separator gives the fields back. */
  lemma SplitJoin(t: Fields, sep: char)
    requires '-' !in t.year && '-' !in t.month && '-' !in t.day
    requires sep !in t.hour && sep !in t.minute
    ensures SplitFields(Join(t, sep), sep) == Some(t)
  {
    var tMin := t.minute + [sep] + t.second;
    var tHour := t.hour + [sep] + tMin;
    var tDay := t.day + ['-'] + tHour;
    var tMonth := t.month + ['-'] + tDay;
    SplitAt(t.year, '-', tMonth);
    SplitAt(t.month, '-', tDay);
    SplitAt(t.day, '-', tHour);
    SplitAt(t.hour, sep, tMin);
    SplitAt(t.minute, sep, t.second);
  }

  /** The values of the six groups, or `None` when one of them does not match its text. */
  function Convert(t: Fields): Option<DateTime>
  {
    var y :- YearField(t.year);
    var mo :- MonthField(t.month);
    var d :- DayField(t.day);
    var h :- HourField(t.hour);
    var mi :- MinuteField(t.minute);
    var se :- SecondField(t.second);
    Some(DateTime(y, mo, d, h, mi, se))
  }

  /** The regular-expression stage of `strptime(s, f)`: the field values, or `None` when `s`
      does not match the whole format. */
  function Match(s: string, f: DateFormat): Option<DateTime>
  {
    var t :- SplitFields(s, TimeSeparator(f));
    Convert(t)
  }

  /** `datetime.datetime.strptime(s, f)` */
  function Parse(s: string, f: DateFormat): Result<DateTime, DateFault>
  {
    match Match(s, f)
    case None => Failure(NoMatch)
    case Some(d) => if Valid(d) then Success(d) else Failure(OutOfRange)
  }

  /** The zero-padded fields of `d`. */
  function Padded(d: DateTime): Fields
    requires InPattern(d)
  {
    Fields(Pad4(d.year), Pad2(d.month), Pad2(d.day), Pad2(d.hour), Pad2(d.minute), Pad2(d.second))
  }

  /** The fixed-width text of `d` in format `f`. */
  function Render(d: DateTime, f: DateFormat): string
    requires Valid(d)
  {
    Join(Padded(d), TimeSeparator(f))
  }

  /** `datetime.isoformat()` of a value with no microseconds: "YYYY-MM-DDTHH:MM:SS". */
  function IsoFormat(d: DateTime): string
    requires Valid(d)
  {
    Pad4(d.year) + "-" + Pad2(d.month) + "-" + Pad2(d.day) + "T" +
      Pad2(d.hour) + ":" + Pad2(d.minute) + ":" + Pad2(d.second)
  }

  // ---------------------------------------------------------------------------------------
  // Properties

  /** Only dates `datetime` accepts come out of `Parse`. */
  lemma ParseValid(s: string, f: DateFormat)
    requires Parse(s, f).Success?
    ensures Valid(Parse(s, f).value)
  {
  }

  lemma PaddedValues(d: DateTime)
    requires InPattern(d)
    ensures var t := Padded(d);
      && AllDigits(t.year) && DigitsValue(t.year) == d.year
      && AllDigits(t.month) && DigitsValue(t.month) == d.month
      && AllDigits(t.day) && DigitsValue(t.day) == d.day
      && AllDigits(t.hour) && DigitsValue(t.hour) == d.hour
      && AllDigits(t.minute) && DigitsValue(t.minute) == d.minute
      && AllDigits(t.second) && DigitsValue(t.second) == d.second
  {
    Pad4Value(d.year);
    Pad2Value(d.month);
    Pad2Value(d.day);
    Pad2Value(d.hour);
    Pad2Value(d.minute);
    Pad2Value(d.second);
  }

  /** Padded fields hold no separator. */
  lemma PaddedHasNoSeparator(d: DateTime, sep: char)
    requires InPattern(d) && !IsDigit(sep) && !IsDigit('-')
    ensures var t := Padded(d);
      '-' !in t.year && '-' !in t.month && '-' !in t.day && sep !in t.hour && sep !in t.minute
  {
    PaddedValues(d);
  }

  /** Formatting a date in `f` and parsing it back with `f` gives the same date. */
  lemma ParseRender(d: DateTime, f: DateFormat)
    requires Valid(d)
    ensures Parse(Render(d, f), f) == Success(d)
  {
    PaddedHasNoSeparator(d, TimeSeparator(f));
    SplitJoin(Padded(d), TimeSeparator(f));
    ConvertPadded(d);
  }

  lemma ConvertPadded(d: DateTime)
    requires InPattern(d)
    ensures Convert(Padded(d)) == Some(d)
  {
    PaddedValues(d);
  }

  /** A date that parses is parsed the same from its fixed-width form: parsing normalises
      the one-digit fields that `strptime` also accepts. */
  lemma ParseCanonical(s: string, f: DateFormat)
    requires Parse(s, f).Success?
    ensures Parse(Render(Parse(s, f).value, f), f) == Parse(s, f)
  {
    ParseRender(Parse(s, f).value, f);
  }

  /** Fields of full width convert to a date whose padding they are. */
  lemma ConvertFullWidth(t: Fields, d: DateTime)
    requires Convert(t) == Some(d) && Valid(d)
    requires |t.month| == 2 && |t.day| == 2 && |t.hour| == 2 && |t.minute| == 2 && |t.second| == 2
    requires t.day[0] != ' '
    ensures t == Padded(d)
  {
    Pad4OfDigits(t.year);
    Pad2OfDigits(t.month);
    Pad2OfDigits(t.day);
    Pad2OfDigits(t.hour);
    Pad2OfDigits(t.minute);
    Pad2OfDigits(t.second);
  }

  /** Each field converts from one or two characters, the year from four. */
  lemma ConvertWidths(t: Fields)
    requires Convert(t).Some?
    ensures |t.year| == 4 && 1 <= |t.month| <= 2 && 1 <= |t.day| <= 2
    ensures 1 <= |t.hour| <= 2 && 1 <= |t.minute| <= 2 && 1 <= |t.second| <= 2
  {
  }

  /** On fixed-width input (19 characters, no space) parsing loses nothing: the input is
      exactly the rendering of the parsed date. */
  lemma RenderParse(s: string, f: DateFormat)
    requires Parse(s, f).Success?
    requires |s| == 19 && ' ' !in s
    ensures s == Render(Parse(s, f).value, f)
  {
    var sep := TimeSeparator(f);
    var t := SplitFields(s, sep).value;
    var d := Parse(s, f).value;
    assert Convert(t) == Some(d);
    ConvertWidths(t);
    assert |Join(t, sep)| == |t.year| + |t.month| + |t.day| + |t.hour| + |t.minute| + |t.second| + 5;
    assert t.day[0] in s;
    ConvertFullWidth(t, d);
  }

  /** A string without the format's time separator never parses: a ':'-separated time
      is refused by the publication format and a ';'-separated one by the modification format. */
  lemma WrongSeparator(s: string, f: DateFormat)
    requires TimeSeparator(f) !in s
    ensures Parse(s, f) == Failure(NoMatch)
  {
    var r := SplitFields(s, TimeSeparator(f));
  }

  /** The separators of the two formats differ, so neither format's fixed-width text parses
      in the other format. */
  lemma FormatsDiffer(d: DateTime)
    requires Valid(d)
    ensures Parse(Render(d, ModificationFormat), PublicationFormat) == Failure(NoMatch)
    ensures Parse(Render(d, PublicationFormat), ModificationFormat) == Failure(NoMatch)
  {
    SeparatorNotRendered(d, ModificationFormat, ';');
    SeparatorNotRendered(d, PublicationFormat, ':');
    WrongSeparator(Render(d, ModificationFormat), PublicationFormat);
    WrongSeparator(Render(d, PublicationFormat), ModificationFormat);
  }

  /** A character that is not a digit, '-' or the format's separator is absent from the padded text. */
  lemma SeparatorNotRendered(d: DateTime, f: DateFormat, c: char)
    requires InPattern(d) && !IsDigit(c) && c != '-' && c != TimeSeparator(f)
    ensures c !in Join(Padded(d), TimeSeparator(f))
  {
    PaddedValues(d);
    var t := Padded(d);
    assert c !in t.year && c !in t.month && c !in t.day && c !in t.hour && c !in t.minute && c !in t.second;
  }

  /** The ISO text holds the date's fields, zero-padded, at fixed positions. */
  lemma IsoFields(d: DateTime)
    requires Valid(d)
    ensures var r := IsoFormat(d);
      && |r| == 19
      && r[4] == '-' && r[7] == '-' && r[10] == 'T' && r[13] == ':' && r[16] == ':'
      && AllDigits(r[..4]) && DigitsValue(r[..4]) == d.year
      && AllDigits(r[5..7]) && DigitsValue(r[5..7]) == d.month
      && AllDigits(r[8..10]) && DigitsValue(r[8..10]) == d.day
      && AllDigits(r[11..13]) && DigitsValue(r[11..13]) == d.hour
      && AllDigits(r[14..16]) && DigitsValue(r[14..16]) == d.minute
      && AllDigits(r[17..19]) && DigitsValue(r[17..19]) == d.second
  {
    var r := IsoFormat(d);
    assert r[..4] == Pad4(d.year);
    assert r[5..7] == Pad2(d.month);
    assert r[8..10] == Pad2(d.day);
    assert r[11..13] == Pad2(d.hour);
    assert r[14..16] == Pad2(d.minute);
    assert r[17..19] == Pad2(d.second);
    PaddedValues(d);
  }

  /** The ISO text determines the date: distinct dates are written differently. */
  lemma IsoInjective(d1: DateTime, d2: DateTime)
    requires Valid(d1) && Valid(d2) && IsoFormat(d1) == IsoFormat(d2)
    ensures d1 == d2
  {
    IsoFields(d1);
    IsoFields(d2);
  }

  // ---------------------------------------------------------------------------------------
  // Examples

  /** The fixed-width publication text of a date. */
  lemma RenderExample()
    ensures Render(DateTime(2024, 1, 2, 3, 4, 5), PublicationFormat) == "2024-01-02-03;04;05"
  {
    var d := DateTime(2024, 1, 2, 3, 4, 5);
    assert Pad4(2024) == "2024";
    assert Pad2(1) == "01";
    assert Pad2(2) == "02";
    assert Pad2(3) == "03";
    assert Pad2(4) == "04";
    assert Pad2(5) == "05";
    assert Padded(d) == Fields("2024", "01", "02", "03", "04", "05");
  }

  /** The publication date of a fetched record. */
  lemma PublicationExample()
    ensures Parse("2024-01-02-03;04;05", PublicationFormat) == Success(DateTime(2024, 1, 2, 3, 4, 5))
  {
    RenderExample();
    ParseRender(DateTime(2024, 1, 2, 3, 4, 5), PublicationFormat);
  }

  /** The text `isoformat` writes for it. */
  lemma IsoExample()
    ensures IsoFormat(DateTime(2024, 1, 2, 3, 4, 5)) == "2024-01-02T03:04:05"
  {
    assert Pad4(2024) == "2024";
    assert Pad2(1) == "01";
    assert Pad2(2) == "02";
    assert Pad2(3) == "03";
    assert Pad2(4) == "04";
    assert Pad2(5) == "05";
  }

  /** The same date written with the modification format's ':' is not a publication date. */
  lemma WrongSeparatorExample()
    ensures Parse("2024-01-02-03:04:05", PublicationFormat) == Failure(NoMatch)
  {
    assert ';' !in "2024-01-02-03:04:05";
    WrongSeparator("2024-01-02-03:04:05", PublicationFormat);
  }

  lemma OneDigit(c: char)
    requires IsDigit(c)
    ensures ShortNumber([c]) == Some(c as int - '0' as int)
  {
    assert [c][..0] == [] && [c][0] == c;
    assert AllDigits([c]);
    assert DigitsValue([c]) == 10 * DigitsValue([]) + (c as int - '0' as int);
  }

  /** `Parse` once the fields and their values are known. */
  lemma ParseOfFields(s: string, f: DateFormat, t: Fields, d: DateTime)
    requires SplitFields(s, TimeSeparator(f)) == Some(t) && Convert(t) == Some(d)
    ensures Parse(s, f) == if Valid(d) then Success(d) else Failure(OutOfRange)
  {
  }

  /** The fields of `d` with one digit each for month, day, hour, minute and second. */
  function Unpadded(d: DateTime): Fields
    requires Valid(d) && d.month <= 9 && d.day <= 9 && d.hour <= 9 && d.minute <= 9 && d.second <= 9
  {
    Fields(Pad4(d.year), [Digit(d.month)], [Digit(d.day)], [Digit(d.hour)], [Digit(d.minute)], [Digit(d.second)])
  }

  lemma UnpaddedConverts(d: DateTime)
    requires Valid(d) && d.month <= 9 && d.day <= 9 && d.hour <= 9 && d.minute <= 9 && d.second <= 9
    ensures var t := Unpadded(d);
      && Convert(t) == Some(d)
      && AllDigits(t.year) && AllDigits(t.month) && AllDigits(t.day) && AllDigits(t.hour) && AllDigits(t.minute)
  {
    Pad4Value(d.year);
    DigitOf(d.month);
    DigitOf(d.day);
    DigitOf(d.hour);
    DigitOf(d.minute);
    DigitOf(d.second);
    OneDigit(Digit(d.month));
    OneDigit(Digit(d.day));
    OneDigit(Digit(d.hour));
    OneDigit(Digit(d.minute));
    OneDigit(Digit(d.second));
  }

  /** `strptime` also accepts month, day, hour, minute and second written with one digit. */
  lemma UnpaddedAccepted(d: DateTime, f: DateFormat)
    requires Valid(d) && d.month <= 9 && d.day <= 9 && d.hour <= 9 && d.minute <= 9 && d.second <= 9
    ensures Parse(Join(Unpadded(d), TimeSeparator(f)), f) == Success(d)
  {
    var t := Unpadded(d);
    UnpaddedConverts(d);
    assert '-' !in t.year && '-' !in t.month && '-' !in t.day;
    assert TimeSeparator(f) !in t.hour && TimeSeparator(f) !in t.minute;
    SplitJoin(t, TimeSeparator(f));
    ParseOfFields(Join(t, TimeSeparator(f)), f, t, d);
  }

  /** Whatever the pattern matches is then checked by `datetime`: the zero-padded text of
      values in the pattern's ranges parses to exactly those values, or fails as out of range
      when they are no date. */
  lemma PatternThenRanges(d: DateTime, f: DateFormat)
    requires InPattern(d)
    ensures Parse(Join(Padded(d), TimeSeparator(f)), f) == if Valid(d) then Success(d) else Failure(OutOfRange)
  {
    PaddedHasNoSeparator(d, TimeSeparator(f));
    SplitJoin(Padded(d), TimeSeparator(f));
    ConvertPadded(d);
  }

  /** February 30 matches the pattern but is refused in every year. */
  lemma February30Refused(y: int, f: DateFormat)
    requires 0 <= y <= 9999
    ensures Parse(Join(Padded(DateTime(y, 2, 30, 0, 0, 0)), TimeSeparator(f)), f) == Failure(OutOfRange)
  {
    PatternThenRanges(DateTime(y, 2, 30, 0, 0, 0), f);
  }

  /** February 29 is accepted exactly in leap years. */
  lemma February29Leap(y: int, f: DateFormat)
    requires 1 <= y <= 9999
    ensures Parse(Join(Padded(DateTime(y, 2, 29, 0, 0, 0)), TimeSeparator(f)), f).Success? <==> IsLeapYear(y)
  {
    PatternThenRanges(DateTime(y, 2, 29, 0, 0, 0), f);
  }

  /** The leap seconds 60 and 61 match `%S` but are refused. */
  lemma LeapSecondRefused(d: DateTime, f: DateFormat)
    requires InPattern(d) && d.second >= 60
    ensures Parse(Join(Padded(d), TimeSeparator(f)), f) == Failure(OutOfRange)
  {
    PatternThenRanges(d, f);
  }
}
