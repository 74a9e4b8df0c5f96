/**
 * `tools/date_converter.py`: dates written `MM/DD/YYYY` become `YYYY-MM-DD`;
 * anything `strptime(s, "%m/%d/%Y")` rejects is left as it is. The parser
 * and the two renderings here are also what `ride_importer.py` uses.
 */
module DateConverter {
  import opened Results
  import opened Text
  import opened Rides

  datatype Date = Date(year: int, month: int, day: int)

  /** Gregorian leap years: every fourth year, except centuries not divisible by 400. */
  predicate IsLeapYear(y: int) {
    y % 4 == 0 && (y % 100 != 0 || y % 400 == 0)
  }

  function DaysInMonth(y: int, m: int): (n: int)
    requires 1 <= m <= 12
    ensures 28 <= n <= 31
  {
    if m == 2 then (if IsLeapYear(y) then 29 else 28)
    else if m == 4 || m == 6 || m == 9 || m == 11 then 30
    else 31
  }

  /** A date `datetime.date` accepts: years 1 to 9999, real months, real days of that month. */
  predicate ValidDate(d: Date) {
    && 1 <= d.year <= 9999
    && 1 <= d.month <= 12
    && 1 <= d.day <= DaysInMonth(d.year, d.month)
  }

  /** The position of the first `c` in `s`, or `|s|` when there is none. */
  function Find(s: string, c: char): nat {
    if s == [] || s[0] == c then 0 else 1 + Find(s[1..], c)
  }

  lemma {:induction false} FindShape(s: string, c: char)
    ensures Find(s, c) <= |s|
    ensures Find(s, c) < |s| ==> s[Find(s, c)] == c
    ensures forall k :: 0 <= k < Find(s, c) ==> s[k] != c
  {
    if s != [] && s[0] != c {
      FindShape(s[1..], c);
    }
  }

  lemma {:induction false} FindAbsent(s: string, c: char)
    requires c !in s
    ensures Find(s, c) == |s|
  {
    if s != [] {
      assert s[0] in s;
      assert forall x :: x in s[1..] ==> x in s;
      FindAbsent(s[1..], c);
    }
  }

  lemma {:induction false} FindAfterPrefix(x: string, t: string, c: char)
    requires c !in x
    ensures Find(x + [c] + t, c) == |x|
  {
    if x != [] {
      assert x[0] in x;
      assert (x + [c] + t)[1..] == x[1..] + [c] + t;
      assert forall y :: y in x[1..] ==> y in x;
      FindAfterPrefix(x[1..], t, c);
    }
  }

  predicate AllDigits(t: string) {
    forall i :: 0 <= i < |t| ==> IsDigit(t[i])
  }

  /** The value of one or two decimal digits. */
  function SmallNumber(t: string): int
    requires 1 <= |t| <= 2 && AllDigits(t)
  {
    if |t| == 1 then DigitValue(t[0]) else 10 * DigitValue(t[0]) + DigitValue(t[1])
  }

  /**
   * `%m`, whose pattern is `1[0-2]|0[1-9]|[1-9]`: one or two digits naming a
   * month, with or without a leading zero.
   */
  function MonthField(t: string): Option<int> {
    if 1 <= |t| <= 2 && AllDigits(t) && 1 <= SmallNumber(t) <= 12 then Some(SmallNumber(t)) else None
  }

  /**
   * `%d`, whose pattern is `3[01]|[12]\d|0[1-9]|[1-9]| [1-9]`: one or two
   * digits from 1 to 31, or a space followed by a non-zero digit.
   */
  function DayField(t: string): Option<int> {
    if |t| == 2 && t[0] == ' ' && '1' <= t[1] <= '9' then Some(DigitValue(t[1]))
    else if 1 <= |t| <= 2 && AllDigits(t) && 1 <= SmallNumber(t) <= 31 then Some(SmallNumber(t))
    else None
  }

  /** `%Y`, whose pattern is `\d\d\d\d`: exactly four digits. */
  function YearField(t: string): Option<int> {
    if |t| == 4 && AllDigits(t) then
      Some(1000 * DigitValue(t[0]) + 100 * DigitValue(t[1]) + 10 * DigitValue(t[2]) + DigitValue(t[3]))
    else None
  }

  /** The date a month text, a day text and a year text stand for, if any. */
  function DateOfFields(mt: string, dt: string, yt: string): Option<Date> {
    match (MonthField(mt), DayField(dt), YearField(yt))
    case (Some(m), Some(d), Some(y)) => if ValidDate(Date(y, m, d)) then Some(Date(y, m, d)) else None
    case _ => None
  }

  /**
   * `datetime.strptime(s, "%m/%d/%Y")`: the whole of `s` must be a month, a
   * slash, a day, a slash and a year, and the three must name a real date.
   * Neither field pattern can hold a slash, so the first two slashes of `s`
   * fix the fields. `None` stands for the `ValueError`.
   */
  function ParseSlashDate(s: string): (r: Option<Date>)
    ensures r.Some? ==> ValidDate(r.value)
  {
    var i := Find(s, '/');
    if i >= |s| then None
    else
      var rest := s[i + 1..];
      var j := Find(rest, '/');
      if j >= |rest| then None
      else DateOfFields(s[..i], rest[..j], rest[j + 1..])
  }

  /** A string made of three slash-free fields is parsed field by field. */
  lemma ParseSlashDateOfFields(mt: string, dt: string, yt: string)
    requires '/' !in mt && '/' !in dt
    ensures ParseSlashDate(mt + "/" + dt + "/" + yt) == DateOfFields(mt, dt, yt)
  {
    var s := mt + "/" + dt + "/" + yt;
    assert s == mt + ['/'] + (dt + "/" + yt);
    FindAfterPrefix(mt, dt + "/" + yt, '/');
    var rest := s[|mt| + 1..];
    assert rest == dt + ['/'] + yt;
    FindAfterPrefix(dt, yt, '/');
    assert s[..|mt|] == mt;
    assert rest[..|dt|] == dt && rest[|dt| + 1..] == yt;
  }

  /** `strptime` rejects a date followed by a newline: `%Y` cannot take the `\n`. */
  lemma NewlineEndedDateRejected(s: string)
    ensures ParseSlashDate(s + "\n") == None
  {
    var x := s + "\n";
    var i := Find(x, '/');
    FindShape(x, '/');
    if i < |x| {
      var rest := x[i + 1..];
      var j := Find(rest, '/');
      FindShape(rest, '/');
      if j < |rest| {
        var yt := rest[j + 1..];
        if |yt| == 4 {
          assert yt[3] == x[|x| - 1] == '\n';
        }
      }
    }
  }

  /** `strptime` accepts nothing that does not start with a digit: neither `%m` nor a slash can come first. */
  lemma DateStartsWithDigit(s: string)
    requires |s| > 0 && !IsDigit(s[0])
    ensures ParseSlashDate(s) == None
  {
    var i := Find(s, '/');
    FindShape(s, '/');
    if 0 < i < |s| {
      assert s[..i][0] == s[0];
    }
  }

  /** Two digits, zero-padded: `%m` and `%d` of `strftime`. */
  function Pad2(n: int): string
    requires 0 <= n < 100
  {
    [DigitChar(n / 10), DigitChar(n % 10)]
  }

  /** Four digits, zero-padded: `%Y` of `strftime`. */
  function Pad4(n: int): string
    requires 0 <= n < 10000
  {
    [DigitChar(n / 1000), DigitChar(n / 100 % 10), DigitChar(n / 10 % 10), DigitChar(n % 10)]
  }

  /** `%m` and `%d` output is two digits that read back as the number. */
  lemma Pad2Reads(n: int)
    requires 0 <= n < 100
    ensures |Pad2(n)| == 2 && AllDigits(Pad2(n)) && SmallNumber(Pad2(n)) == n
  {
  }

  /** `%Y` output is four digits that `%Y` reads back as the year. */
  lemma Pad4Reads(n: int)
    requires 0 <= n < 10000
    ensures |Pad4(n)| == 4 && AllDigits(Pad4(n)) && YearField(Pad4(n)) == Some(n)
  {
    var q1, e := n / 10, n % 10;
    var q2, c := q1 / 10, q1 % 10;
    var a, b := q2 / 10, q2 % 10;
    assert n / 1000 == a && n / 100 % 10 == b && n / 10 % 10 == c;
    assert n == 1000 * a + 100 * b + 10 * c + e;
  }

  /** `strftime("%Y-%m-%d")`. */
  function FormatIso(d: Date): string
    requires ValidDate(d)
  {
    Pad4(d.year) + "-" + Pad2(d.month) + "-" + Pad2(d.day)
  }

  /** `strftime("%m/%d/%Y")`. */
  function FormatSlash(d: Date): string
    requires ValidDate(d)
  {
    Pad2(d.month) + "/" + Pad2(d.day) + "/" + Pad4(d.year)
  }

  /** `convert_date`: the ISO form of a `MM/DD/YYYY` date, otherwise the input unchanged. */
  function ConvertDate(s: string): string {
    match ParseSlashDate(s)
    case Some(d) => FormatIso(d)
    case None => s
  }

  /**
   * Every real date survives being written `%m/%d/%Y` and read back: the
   * zero-padded form is one `strptime` accepts, with the same fields.
   */
  lemma ParseFormatSlash(d: Date)
    requires ValidDate(d)
    ensures ParseSlashDate(FormatSlash(d)) == Some(d)
  {
    var m, dd, y := Pad2(d.month), Pad2(d.day), Pad4(d.year);
    Pad2Reads(d.month);
    Pad2Reads(d.day);
    Pad4Reads(d.year);
    assert '/' !in m;
    assert '/' !in dd;
    ParseSlashDateOfFields(m, dd, y);
    assert MonthField(m) == Some(d.month);
  }

  /** A date `strptime` accepts is converted to its ISO form. */
  lemma ConvertParsed(s: string)
    requires ParseSlashDate(s).Some?
    ensures ConvertDate(s) == FormatIso(ParseSlashDate(s).value)
    ensures '/' in s && '/' !in ConvertDate(s)
  {
    var i := Find(s, '/');
    FindShape(s, '/');
    assert s[i] in s;
    IsoHasNoSlash(ParseSlashDate(s).value);
  }

  /** A string comes back unchanged exactly when `strptime` rejects it. */
  lemma ConvertUnchangedIff(s: string)
    ensures ConvertDate(s) == s <==> ParseSlashDate(s).None?
  {
    if ParseSlashDate(s).Some? {
      ConvertParsed(s);
    }
  }

  lemma IsoHasNoSlash(d: Date)
    requires ValidDate(d)
    ensures '/' !in FormatIso(d)
  {
    var r := FormatIso(d);
    assert forall k :: 0 <= k < |r| ==> r[k] != '/';
  }

  /**
   * The ISO form holds the same year, month and day, zero-padded: four digits,
   * a dash, two digits, a dash, two digits.
   */
  lemma IsoFields(d: Date)
    requires ValidDate(d)
    ensures |FormatIso(d)| == 10 && FormatIso(d)[4] == '-' && FormatIso(d)[7] == '-'
    ensures YearField(FormatIso(d)[..4]) == Some(d.year)
    ensures AllDigits(FormatIso(d)[5..7]) && SmallNumber(FormatIso(d)[5..7]) == d.month
    ensures AllDigits(FormatIso(d)[8..]) && SmallNumber(FormatIso(d)[8..]) == d.day
  {
    var r := FormatIso(d);
    Pad2Reads(d.month);
    Pad2Reads(d.day);
    Pad4Reads(d.year);
    assert r[..4] == Pad4(d.year);
    assert r[5..7] == Pad2(d.month);
    assert r[8..] == Pad2(d.day);
  }

  /** Rerunning the tool is harmless: a converted date has no slash, so it is left alone. */
  lemma ConvertIdempotent(s: string)
    ensures ConvertDate(ConvertDate(s)) == ConvertDate(s)
  {
    match ParseSlashDate(s)
    case None =>
    case Some(d) =>
      var r := FormatIso(d);
      IsoHasNoSlash(d);
      FindAbsent(r, '/');
  }

  /** February 29th is a date exactly in leap years; the other month lengths are fixed. */
  lemma LeapDay(y: int)
    requires 1 <= y <= 9999
    ensures ValidDate(Date(y, 2, 29)) <==> IsLeapYear(y)
    ensures !ValidDate(Date(y, 2, 30)) && !ValidDate(Date(y, 4, 31)) && ValidDate(Date(y, 12, 31))
    ensures !ValidDate(Date(y, 13, 1)) && !ValidDate(Date(y, 1, 0))
  {
  }

  lemma CenturyYears()
    ensures IsLeapYear(2000) && IsLeapYear(2024) && !IsLeapYear(1900) && !IsLeapYear(2023)
  {
  }

  /** A zero-padded date is converted field for field. */
  lemma ConvertExamplePadded()
    ensures ConvertDate("03/01/2024") == "2024-03-01"
  {
    var d := Date(2024, 3, 1);
    assert FormatIso(d) == "2024-03-01";
    assert FormatSlash(d) == "03/01/2024";
    ParseFormatSlash(d);
  }

  lemma ShortFieldsParse()
    ensures ParseSlashDate("1/5/2024") == Some(Date(2024, 1, 5))
  {
    assert DateOfFields("1", "5", "2024") == Some(Date(2024, 1, 5)) by {
      assert MonthField("1") == Some(1);
      assert DayField("5") == Some(5);
      assert YearField("2024") == Some(2024);
    }
    assert "1" + "/" + "5" + "/" + "2024" == "1/5/2024";
    ParseSlashDateOfFields("1", "5", "2024");
  }

  /** `%m` and `%d` also take one digit; the output is zero-padded. */
  lemma ConvertExampleShort()
    ensures ConvertDate("1/5/2024") == "2024-01-05"
  {
    assert FormatIso(Date(2024, 1, 5)) == "2024-01-05";
    ShortFieldsParse();
  }

  lemma SpacedDayParses()
    ensures ParseSlashDate("03/ 5/2024") == Some(Date(2024, 3, 5))
  {
    assert DateOfFields("03", " 5", "2024") == Some(Date(2024, 3, 5)) by {
      assert MonthField("03") == Some(3);
      assert DayField(" 5") == Some(5);
      assert YearField("2024") == Some(2024);
    }
    assert "03" + "/" + " 5" + "/" + "2024" == "03/ 5/2024";
    ParseSlashDateOfFields("03", " 5", "2024");
  }

  /** `%d` accepts a space before a single digit. */
  lemma ConvertExampleSpacedDay()
    ensures ConvertDate("03/ 5/2024") == "2024-03-05"
  {
    assert FormatIso(Date(2024, 3, 5)) == "2024-03-05";
    SpacedDayParses();
  }

  /** February 29th converts in a leap year. */
  lemma ConvertExampleLeapDay()
    ensures ConvertDate("02/29/2024") == "2024-02-29"
  {
    var d := Date(2024, 2, 29);
    assert FormatIso(d) == "2024-02-29";
    assert FormatSlash(d) == "02/29/2024";
    ParseFormatSlash(d);
  }

  /** February 29th of a common year is no date, so it is left alone. */
  lemma ConvertExampleNoLeapDay()
    ensures ConvertDate("02/29/2023") == "02/29/2023"
  {
    assert DateOfFields("02", "29", "2023") == None by {
      assert YearField("2023") == Some(2023);
      assert !ValidDate(Date(2023, 2, 29));
    }
    assert "02" + "/" + "29" + "/" + "2023" == "02/29/2023";
    ParseSlashDateOfFields("02", "29", "2023");
  }

  /** Month 13 is no month, so the string is left alone. */
  lemma ConvertExampleMonth13()
    ensures ConvertDate("13/01/2024") == "13/01/2024"
  {
    assert DateOfFields("13", "01", "2024") == None by {
      assert MonthField("13") == None;
    }
    assert "13" + "/" + "01" + "/" + "2024" == "13/01/2024";
    ParseSlashDateOfFields("13", "01", "2024");
  }

  /** A date already in ISO form has no slash and is left alone. */
  lemma ConvertExampleIso()
    ensures ConvertDate("2024-03-01") == "2024-03-01"
  {
    assert FormatIso(Date(2024, 3, 1)) == "2024-03-01";
    IsoHasNoSlash(Date(2024, 3, 1));
    FindAbsent("2024-03-01", '/');
  }

  /** The rides with every `date` passed through `convert_date`, nothing else touched. */
  function ConvertedRides(rides: seq<Ride>): (r: seq<Ride>)
    ensures |r| == |rides|
  {
    seq(|rides|, i requires 0 <= i < |rides| => rides[i].(date := ConvertDate(rides[i].date)))
  }

  /** Lines 32-33: the loop over the loaded rides, rewriting `ride['date']` in place. */
  method ConvertRideDates(rides: array<Ride>)
    modifies rides
    ensures rides[..] == ConvertedRides(old(rides[..]))
  {
    ghost var before := rides[..];
    for i := 0 to rides.Length
      invariant rides[..i] == ConvertedRides(before)[..i]
      invariant rides[i..] == before[i..]
    {
      assert rides[i] == before[i];
      rides[i] := rides[i].(date := ConvertDate(rides[i].date));
      assert rides[..i + 1] == ConvertedRides(before)[..i + 1];
    }
    assert rides[..] == rides[..rides.Length];
  }

  /** Converting an already converted file changes nothing. */
  lemma ConvertedRidesIdempotent(rides: seq<Ride>)
    ensures ConvertedRides(ConvertedRides(rides)) == ConvertedRides(rides)
  {
    var once := ConvertedRides(rides);
    forall i | 0 <= i < |rides|
      ensures ConvertedRides(once)[i] == once[i]
    {
      ConvertIdempotent(rides[i].date);
    }
  }
}
