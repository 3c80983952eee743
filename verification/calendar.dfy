/** Calendar arithmetic shared by the server (PHP `DateTime`, `strtotime`) and the browser clients
    (JavaScript `Date` at local midnight): proleptic Gregorian dates, a day count, weekdays,
    the two textual date forms, and the month navigation and day-selection rules of the calendar view. */
module Calendar {
  import opened Wrappers
  import opened Text

  /** A calendar date; `month` is 1-based (January = 1). */
  datatype Date = Date(year: int, month: int, day: int)

  predicate IsLeapYear(y: int) {
    y % 4 == 0 && (y % 100 != 0 || y % 400 == 0)
  }

  function DaysInMonth(y: int, m: int): (n: int)
    requires 1 <= m <= 12
    ensures 28 <= n <= 31
  {
    if m == 2 then (if IsLeapYear(y) then 29 else 28)
    else if m == 4 || m == 6 || m == 9 || m == 11 then 30
    else 31
  }

  predicate ValidDate(d: Date) {
    1 <= d.month <= 12 && 1 <= d.day <= DaysInMonth(d.year, d.month)
  }

  // ---------------------------------------------------------------------------
  // Day count and weekday
  // ---------------------------------------------------------------------------

  /** Days from 1970-01-01 to the start of the March-based year `y` (March of `y` to February of `y + 1`),
      following the era / year-of-era decomposition of the usual days-from-civil algorithm. */
  function DaysBeforeShiftedYear(y: int): int {
    var era := y / 400;
    var yoe := y - era * 400;
    era * 146097 + yoe * 365 + yoe / 4 - yoe / 100 - 719468
  }

  /** Day number of a date, counted from 1970-01-01 (day 0); the value `strtotime` and
      `Date.prototype.getTime` encode at local midnight, in days. */
  function DaysFromCivil(d: Date): int {
    var y := if d.month <= 2 then d.year - 1 else d.year;
    var mp := if d.month > 2 then d.month - 3 else d.month + 9;
    DaysBeforeShiftedYear(y) + (153 * mp + 2) / 5 + d.day - 1
  }

  /** `Date.prototype.getDay()`: 0 = Sunday, ..., 6 = Saturday (1970-01-01 was a Thursday). */
  function JsWeekday(d: Date): (w: int)
    ensures 0 <= w < 7
  {
    (DaysFromCivil(d) + 4) % 7
  }

  /** PHP `format('N')`: ISO-8601 weekday, 1 = Monday, ..., 7 = Sunday. */
  function IsoWeekday(d: Date): (w: int)
    ensures 1 <= w <= 7
    ensures w % 7 == JsWeekday(d)
  {
    var w := JsWeekday(d);
    if w == 0 then 7 else w
  }

  /** Both sides' Friday test: `getDay() === 5` in the clients, `format('N') == 5` on the server. */
  predicate IsFriday(d: Date) {
    JsWeekday(d) == 5
  }

  lemma FridayAgreement(d: Date)
    ensures IsFriday(d) <==> IsoWeekday(d) == 5
  {
  }

  function NextDay(d: Date): Date
    requires ValidDate(d)
  {
    if d.day < DaysInMonth(d.year, d.month) then Date(d.year, d.month, d.day + 1)
    else if d.month < 12 then Date(d.year, d.month + 1, 1)
    else Date(d.year + 1, 1, 1)
  }

  lemma YearOfEraStep(yoe: int)
    requires 0 <= yoe < 399
    ensures (yoe + 1) * 365 + (yoe + 1) / 4 - (yoe + 1) / 100
         == yoe * 365 + yoe / 4 - yoe / 100 + (if (yoe + 1) % 4 == 0 && (yoe + 1) % 100 != 0 then 366 else 365)
  {
  }

  lemma ModOfEraOffset(era: int, x: int)
    ensures (era * 400 + x) % 4 == x % 4
    ensures (era * 400 + x) % 100 == x % 100
    ensures (era * 400 + x) % 400 == x % 400
    ensures (era * 400 + x) / 400 == era + x / 400
  {
    var n := era * 400 + x;
    assert x == 4 * (x / 4) + x % 4;
    assert n == 4 * (era * 100 + x / 4) + x % 4;
    assert x == 100 * (x / 100) + x % 100;
    assert n == 100 * (era * 4 + x / 100) + x % 100;
    assert x == 400 * (x / 400) + x % 400;
    assert n == 400 * (era + x / 400) + x % 400;
    DivModUnique(n, 4, era * 100 + x / 4, x % 4);
    DivModUnique(n, 100, era * 4 + x / 100, x % 100);
    DivModUnique(n, 400, era + x / 400, x % 400);
  }

  lemma DivModUnique(n: int, d: int, q: int, r: int)
    requires d == 4 || d == 100 || d == 400
    requires 0 <= r < d && n == d * q + r
    ensures n / d == q && n % d == r
  {
    if d == 4 {
      assert n == 4 * q + r;
    } else if d == 100 {
      assert n == 100 * q + r;
    } else {
      assert n == 400 * q + r;
    }
  }

  /** A March-based year has 366 days exactly when the February at its end is a leap February. */
  lemma ShiftedYearLength(y: int)
    ensures DaysBeforeShiftedYear(y + 1) == DaysBeforeShiftedYear(y) + (if IsLeapYear(y + 1) then 366 else 365)
  {
    var era := y / 400;
    var yoe := y - era * 400;
    assert 0 <= yoe < 400;
    ModOfEraOffset(era, yoe + 1);
    assert y + 1 == era * 400 + (yoe + 1);
    if yoe < 399 {
      YearOfEraStep(yoe);
      assert (y + 1) / 400 == era;
    } else {
      assert (y + 1) / 400 == era + 1;
      assert (y + 1) % 400 == 0;
    }
  }

  /** Consecutive dates have consecutive day numbers: the day count has no gaps or repeats
      across month ends, year ends and leap days. */
  lemma NextDayCount(d: Date)
    requires ValidDate(d)
    ensures ValidDate(NextDay(d))
    ensures DaysFromCivil(NextDay(d)) == DaysFromCivil(d) + 1
  {
    if d.day < DaysInMonth(d.year, d.month) {
      assert NextDay(d) == Date(d.year, d.month, d.day + 1);
    } else if d.month == 2 {
      assert NextDay(d) == Date(d.year, 3, 1);
      FebruaryEnd(d);
    } else {
      MonthEnd(d);
    }
  }

  lemma FebruaryEnd(d: Date)
    requires ValidDate(d) && d.month == 2 && d.day == DaysInMonth(d.year, 2)
    ensures DaysFromCivil(Date(d.year, 3, 1)) == DaysFromCivil(d) + 1
  {
    ShiftedYearLength(d.year - 1);
    assert (153 * 11 + 2) / 5 == 337;
  }

  lemma MonthEnd(d: Date)
    requires ValidDate(d) && d.month != 2 && d.day == DaysInMonth(d.year, d.month)
    ensures ValidDate(NextDay(d))
    ensures DaysFromCivil(NextDay(d)) == DaysFromCivil(d) + 1
  {
    MonthOffsetStep(d.year, d.month);
    if d.month == 12 {
      assert NextDay(d) == Date(d.year + 1, 1, 1);
    } else {
      assert NextDay(d) == Date(d.year, d.month + 1, 1);
    }
  }

  /** In the March-based count, month `m` other than February starts `DaysInMonth` days before
      the month after it. */
  lemma MonthOffsetStep(y: int, m: int)
    requires 1 <= m <= 12 && m != 2
    ensures var mp := if m > 2 then m - 3 else m + 9;
      (153 * (mp + 1) + 2) / 5 == (153 * mp + 2) / 5 + DaysInMonth(y, m)
  {
    if m == 1 {
      assert (153 * 11 + 2) / 5 == 337 && (153 * 10 + 2) / 5 == 306;
    } else if m == 3 {
      assert (153 * 1 + 2) / 5 == 31 && (153 * 0 + 2) / 5 == 0;
    } else if m == 4 {
      assert (153 * 2 + 2) / 5 == 61 && (153 * 1 + 2) / 5 == 31;
    } else if m == 5 {
      assert (153 * 3 + 2) / 5 == 92 && (153 * 2 + 2) / 5 == 61;
    } else if m == 6 {
      assert (153 * 4 + 2) / 5 == 122 && (153 * 3 + 2) / 5 == 92;
    } else if m == 7 {
      assert (153 * 5 + 2) / 5 == 153 && (153 * 4 + 2) / 5 == 122;
    } else if m == 8 {
      assert (153 * 6 + 2) / 5 == 184 && (153 * 5 + 2) / 5 == 153;
    } else if m == 9 {
      assert (153 * 7 + 2) / 5 == 214 && (153 * 6 + 2) / 5 == 184;
    } else if m == 10 {
      assert (153 * 8 + 2) / 5 == 245 && (153 * 7 + 2) / 5 == 214;
    } else if m == 11 {
      assert (153 * 9 + 2) / 5 == 275 && (153 * 8 + 2) / 5 == 245;
    } else {
      assert (153 * 10 + 2) / 5 == 306 && (153 * 9 + 2) / 5 == 275;
    }
  }

  /** Weekdays advance cyclically from one day to the next. */
  lemma WeekdayOfNextDay(d: Date)
    requires ValidDate(d)
    ensures JsWeekday(NextDay(d)) == (JsWeekday(d) + 1) % 7
  {
    NextDayCount(d);
    var n := DaysFromCivil(d);
    ModAddInvariant(n + 4, 1);
  }

  /** Within a month, moving `k` days forward adds `k` to the day number, so a Friday is
      followed by a Friday one week later. */
  lemma SameMonthShift(d: Date, k: int)
    requires ValidDate(d) && ValidDate(Date(d.year, d.month, d.day + k))
    ensures DaysFromCivil(Date(d.year, d.month, d.day + k)) == DaysFromCivil(d) + k
    ensures JsWeekday(Date(d.year, d.month, d.day + k)) == (JsWeekday(d) + k) % 7
  {
    var n := DaysFromCivil(d);
    assert DaysFromCivil(Date(d.year, d.month, d.day + k)) == n + k;
    ModAddInvariant(n + 4, k);
  }

  lemma ModAddInvariant(a: int, k: int)
    ensures (a + k) % 7 == (a % 7 + k) % 7
  {
    var q := a / 7;
    assert a == 7 * q + a % 7;
    assert a + k == 7 * q + (a % 7 + k);
  }

  /** Anchor: day 0 is 1970-01-01, a Thursday; 2025-01-10 is a Friday. */
  lemma Anchors()
    ensures DaysFromCivil(Date(1970, 1, 1)) == 0 && JsWeekday(Date(1970, 1, 1)) == 4
    ensures IsFriday(Date(2025, 1, 10)) && !IsFriday(Date(2025, 1, 11))
  {
    assert DaysBeforeShiftedYear(1969) == -306;
    assert DaysBeforeShiftedYear(2024) == 19783;
    assert DaysFromCivil(Date(2025, 1, 10)) == 20098;
  }

  // ---------------------------------------------------------------------------
  // Chronological order
  // ---------------------------------------------------------------------------

  /** Calendar order of (year, month, day). */
  predicate Earlier(a: Date, b: Date) {
    a.year < b.year || (a.year == b.year && (a.month < b.month || (a.month == b.month && a.day < b.day)))
  }

  /** The past-date test of both sides: `strtotime(date) < strtotime(today)` on the server and
      `date < today-at-midnight` in the calendar compare midnight timestamps, i.e. day numbers. */
  predicate IsPast(d: Date, today: Date) {
    DaysFromCivil(d) < DaysFromCivil(today)
  }

  lemma {:induction false} MonthStartsAdvance(y: int, m1: int, m2: int)
    requires 1 <= m1 < m2 <= 12
    ensures DaysFromCivil(Date(y, m2, 1)) >= DaysFromCivil(Date(y, m1, 1)) + DaysInMonth(y, m1)
    decreases m2 - m1
  {
    NextMonthStart(y, m1);
    if m1 + 1 < m2 {
      MonthStartsAdvance(y, m1 + 1, m2);
    }
  }

  /** The first of the next month is `DaysInMonth` days after the first of this one. */
  lemma NextMonthStart(y: int, m: int)
    requires 1 <= m < 12
    ensures DaysFromCivil(Date(y, m + 1, 1)) == DaysFromCivil(Date(y, m, 1)) + DaysInMonth(y, m)
  {
    var last := Date(y, m, DaysInMonth(y, m));
    if m == 2 {
      FebruaryEnd(last);
    } else {
      MonthEnd(last);
    }
  }

  lemma {:induction false} YearStartsAdvance(y1: int, y2: int)
    requires y1 < y2
    ensures DaysFromCivil(Date(y2, 1, 1)) > DaysFromCivil(Date(y1, 12, 31))
    decreases y2 - y1
  {
    NextDayCount(Date(y1, 12, 31));
    if y1 + 1 < y2 {
      YearStartsAdvance(y1 + 1, y2);
      MonthStartsAdvance(y1 + 1, 1, 12);
    }
  }

  lemma NotAfterYearEnd(d: Date)
    requires ValidDate(d)
    ensures DaysFromCivil(d) <= DaysFromCivil(Date(d.year, 12, 31))
  {
    if d.month < 12 {
      MonthStartsAdvance(d.year, d.month, 12);
    }
  }

  lemma NotBeforeYearStart(d: Date)
    requires ValidDate(d)
    ensures DaysFromCivil(d) >= DaysFromCivil(Date(d.year, 1, 1))
  {
    if d.month > 1 {
      MonthStartsAdvance(d.year, 1, d.month);
    }
  }

  lemma EarlierHasSmallerCount(a: Date, b: Date)
    requires ValidDate(a) && ValidDate(b) && Earlier(a, b)
    ensures DaysFromCivil(a) < DaysFromCivil(b)
  {
    if a.year < b.year {
      EarlierYear(a, b);
    } else if a.month < b.month {
      EarlierMonth(a, b);
    }
  }

  lemma EarlierYear(a: Date, b: Date)
    requires ValidDate(a) && ValidDate(b) && a.year < b.year
    ensures DaysFromCivil(a) < DaysFromCivil(b)
  {
    NotAfterYearEnd(a);
    YearStartsAdvance(a.year, b.year);
    NotBeforeYearStart(b);
  }

  lemma EarlierMonth(a: Date, b: Date)
    requires ValidDate(a) && ValidDate(b) && a.year == b.year && a.month < b.month
    ensures DaysFromCivil(a) < DaysFromCivil(b)
  {
    MonthStartsAdvance(a.year, a.month, b.month);
    assert DaysFromCivil(a) < DaysFromCivil(Date(a.year, a.month, 1)) + DaysInMonth(a.year, a.month);
    assert DaysFromCivil(Date(b.year, b.month, 1)) <= DaysFromCivil(b);
  }

  /** For real dates, comparing day numbers is comparing calendar order, so the past-date
      test rejects exactly the dates strictly before today and admits today itself. */
  lemma PastIffEarlier(d: Date, today: Date)
    requires ValidDate(d) && ValidDate(today)
    ensures IsPast(d, today) <==> Earlier(d, today)
    ensures d == today ==> !IsPast(d, today)
  {
    if Earlier(d, today) {
      EarlierHasSmallerCount(d, today);
    } else if d != today {
      EarlierHasSmallerCount(today, d);
    }
  }

  // ---------------------------------------------------------------------------
  // Server date strings: PHP `DateTime::createFromFormat('Y-m-d')` plus `format('Y-m-d')`
  // ---------------------------------------------------------------------------

  /** `format('Y-m-d')` for a four-digit year. */
  function IsoDateString(d: Date): (s: string)
    requires ValidDate(d) && 0 <= d.year <= 9999
    ensures |s| == 10
  {
    FixedDigits(d.year, 4) + "-" + FixedDigits(d.month, 2) + "-" + FixedDigits(d.day, 2)
  }

  /** The date a `YYYY-MM-DD` string names, when it names one. */
  function ParseIsoDate(s: string): (r: Option<Date>)
    ensures r.Some? ==> ValidDate(r.value) && r.value.year >= 0
  {
    if |s| == 10 && s[4] == '-' && s[7] == '-' && AllDigits(s[..4]) && AllDigits(s[5..7]) && AllDigits(s[8..]) then
      var d := Date(ParseDigits(s[..4]), ParseDigits(s[5..7]), ParseDigits(s[8..]));
      if ValidDate(d) then Some(d) else None
    else None
  }

  lemma Pow10Values()
    ensures Pow10(2) == 100 && Pow10(3) == 1000 && Pow10(4) == 10000
  {
    assert Pow10(1) == 10;
  }

  /** Formatting then parsing a date gives it back. */
  lemma IsoRoundTrip(d: Date)
    requires ValidDate(d) && 0 <= d.year <= 9999
    ensures ParseIsoDate(IsoDateString(d)) == Some(d)
  {
    var s := IsoDateString(d);
    Pow10Values();
    assert s[..4] == FixedDigits(d.year, 4);
    assert s[5..7] == FixedDigits(d.month, 2);
    assert s[8..] == FixedDigits(d.day, 2);
    ParseFixedDigits(d.year, 4);
    ParseFixedDigits(d.month, 2);
    ParseFixedDigits(d.day, 2);
  }

  /** A string that parses is the canonical rendering of the date it names: `2025-2-5`,
      `2025-02-30` and other non-canonical forms are rejected. */
  lemma IsoCanonical(s: string)
    requires ParseIsoDate(s).Some?
    ensures var d := ParseIsoDate(s).value;
      ValidDate(d) && 0 <= d.year <= 9999 && IsoDateString(d) == s
  {
    Pow10Values();
    FixedDigitsOfParse(s[..4]);
    FixedDigitsOfParse(s[5..7]);
    FixedDigitsOfParse(s[8..]);
    assert s == s[..4] + "-" + s[5..7] + "-" + s[8..];
  }

  /** `validateDate` accepts exactly the canonical renderings of real dates with four-digit years. */
  lemma ParseIsoDateIff(s: string)
    ensures ParseIsoDate(s).Some? <==> exists d :: ValidDate(d) && 0 <= d.year <= 9999 && IsoDateString(d) == s
  {
    if ParseIsoDate(s).Some? {
      IsoCanonical(s);
    }
    if d :| ValidDate(d) && 0 <= d.year <= 9999 && IsoDateString(d) == s {
      IsoRoundTrip(d);
    }
  }

  lemma IsoExamples()
    ensures ParseIsoDate("2025-01-10") == Some(Date(2025, 1, 10))
    ensures ParseIsoDate("2025-02-30") == None
    ensures ParseIsoDate("2025-2-5") == None
  {
    ExampleParse();
    NoThirtiethOfFebruary();
  }

  lemma ExampleParse()
    ensures ParseIsoDate("2025-01-10") == Some(Date(2025, 1, 10))
  {
    var s := "2025-01-10";
    assert s[..4] == "2025" && s[5..7] == "01" && s[8..] == "10";
    assert ParseDigits("2025") == 2025 by {
      assert "2025"[..3] == "202" && "202"[..2] == "20" && "20"[..1] == "2";
    }
    assert ParseDigits("01") == 1 by {
      assert "01"[..1] == "0";
    }
    assert ParseDigits("10") == 10 by {
      assert "10"[..1] == "1";
    }
  }

  lemma NoThirtiethOfFebruary()
    ensures ParseIsoDate("2025-02-30") == None
  {
    var s := "2025-02-30";
    assert s[5..7] == "02" && s[8..] == "30";
    assert ParseDigits("02") == 2 by {
      assert "02"[..1] == "0";
    }
    assert ParseDigits("30") == 30 by {
      assert "30"[..1] == "3";
    }
  }

  // ---------------------------------------------------------------------------
  // Client date strings: `dateToStr` and `strToDate`
  // ---------------------------------------------------------------------------

  /** `dateToStr`: `${getFullYear()}-${pad2(getMonth() + 1)}-${pad2(getDate())}`; the year is not padded. */
  function JsDateToStr(d: Date): string
    requires ValidDate(d)
  {
    IntToStr(d.year) + "-" + PadStart(NatToStr(d.month), 2, '0') + "-" + PadStart(NatToStr(d.day), 2, '0')
  }

  /** JavaScript `Number(s)` restricted to integers written in decimal: surrounding white space is
      ignored, the empty string is 0, anything else that is not an optionally signed digit string is NaN (None). */
  function JsNumber(s: string): Option<int> {
    var t := JsTrim(s);
    if |t| == 0 then Some(0)
    else if (t[0] == '-' || t[0] == '+') && |t| > 1 && AllDigits(t[1..]) then
      var magnitude: int := ParseDigits(t[1..]);
      Some(if t[0] == '-' then -magnitude else magnitude)
    else if AllDigits(t) then Some(ParseDigits(t))
    else None
  }

  /** `new Date(year, monthIndex, day)` for arguments that name a real date; years 0..99 are
      taken as 1900..1999, as the `Date` constructor does. */
  function JsMakeDate(year: int, monthIndex: int, day: int): Option<Date> {
    var d := Date(if 0 <= year <= 99 then 1900 + year else year, monthIndex + 1, day);
    if ValidDate(d) then Some(d) else None
  }

  /** `strToDate`: split on '-', convert the first three pieces with `Number`, build the date. */
  function JsStrToDate(s: string): Option<Date> {
    var parts := Split(s, '-');
    if |parts| < 3 then None
    else
      match (JsNumber(parts[0]), JsNumber(parts[1]), JsNumber(parts[2]))
      case (Some(y), Some(m), Some(d)) => JsMakeDate(y, m - 1, d)
      case _ => None
  }

  lemma DigitsHaveNoDash(s: string)
    requires AllDigits(s)
    ensures '-' !in s
  {
  }

  lemma JsNumberOfDigits(n: nat, k: nat)
    requires 1 <= k && n < Pow10(k)
    ensures JsNumber(FixedDigits(n, k)) == Some(n)
  {
    var s := FixedDigits(n, k);
    TrimNoop(s, JsSpace);
    ParseFixedDigits(n, k);
  }

  /** For four-digit years the client's date string is the server's canonical form. */
  lemma JsDateIsIso(d: Date)
    requires ValidDate(d) && 1000 <= d.year <= 9999
    ensures JsDateToStr(d) == IsoDateString(d)
  {
    Pow10Values();
    NatToStrExactWidth(d.year, 4);
    PaddedNatToStr(d.month, 2);
    PaddedNatToStr(d.day, 2);
  }

  lemma SplitIsoDate(d: Date)
    requires ValidDate(d) && 0 <= d.year <= 9999
    ensures Split(IsoDateString(d), '-') == [FixedDigits(d.year, 4), FixedDigits(d.month, 2), FixedDigits(d.day, 2)]
  {
    var y := FixedDigits(d.year, 4);
    var m := FixedDigits(d.month, 2);
    var dd := FixedDigits(d.day, 2);
    DigitsHaveNoDash(y);
    DigitsHaveNoDash(m);
    DigitsHaveNoDash(dd);
    assert IsoDateString(d) == y + ['-'] + (m + ['-'] + dd);
    SplitAfterPiece(y, '-', m + ['-'] + dd);
    SplitAfterPiece(m, '-', dd);
    SplitWithoutSeparator(dd, '-');
  }

  lemma StrToDateOfIso(d: Date)
    requires ValidDate(d) && 1000 <= d.year <= 9999
    ensures JsStrToDate(IsoDateString(d)) == Some(d)
  {
    Pow10Values();
    SplitIsoDate(d);
    JsNumberOfDigits(d.year, 4);
    JsNumberOfDigits(d.month, 2);
    JsNumberOfDigits(d.day, 2);
    StrToDateOfParts(IsoDateString(d), FixedDigits(d.year, 4), FixedDigits(d.month, 2), FixedDigits(d.day, 2),
                     d.year, d.month, d.day);
    MakeDateOfValid(d);
  }

  /** `strToDate` of a string with three numeric `-`-separated pieces builds the date from those numbers. */
  lemma StrToDateOfParts(s: string, ys: string, ms: string, ds: string, y: int, m: int, day: int)
    requires Split(s, '-') == [ys, ms, ds]
    requires JsNumber(ys) == Some(y) && JsNumber(ms) == Some(m) && JsNumber(ds) == Some(day)
    ensures JsStrToDate(s) == JsMakeDate(y, m - 1, day)
  {
  }

  lemma MakeDateOfValid(d: Date)
    requires ValidDate(d) && (d.year < 0 || d.year > 99)
    ensures JsMakeDate(d.year, d.month - 1, d.day) == Some(d)
  {
  }

  /** `strToDate(dateToStr(d))` gives back the same year, month and day for four-digit years. */
  lemma JsDateRoundTrip(d: Date)
    requires ValidDate(d) && 1000 <= d.year <= 9999
    ensures |JsDateToStr(d)| == 10
    ensures JsStrToDate(JsDateToStr(d)) == Some(d)
  {
    JsDateIsIso(d);
    StrToDateOfIso(d);
  }

  // ---------------------------------------------------------------------------
  // Calendar view: month navigation and selectable days
  // ---------------------------------------------------------------------------

  /** `changeMonth(delta)`: add `delta` to the 0-based month, wrapping once into the next or previous year. */
  function ChangeMonth(month: int, year: int, delta: int): (r: (int, int)) {
    var m := month + delta;
    if m > 11 then (0, year + 1)
    else if m < 0 then (11, year - 1)
    else (m, year)
  }

  /** One step forward or back keeps the month in 0..11 and moves the absolute month count by exactly one. */
  lemma ChangeMonthStep(month: int, year: int, delta: int)
    requires 0 <= month <= 11 && (delta == 1 || delta == -1)
    ensures var (m, y) := ChangeMonth(month, year, delta);
      0 <= m <= 11 && 12 * y + m == 12 * year + month + delta
  {
  }

  /** Stepping forward then back returns to the same month. */
  lemma ChangeMonthUndo(month: int, year: int)
    requires 0 <= month <= 11
    ensures var (m, y) := ChangeMonth(month, year, 1); ChangeMonth(m, y, -1) == (month, year)
  {
  }

  /** Empty cells before day 1 in a Monday-first grid: `getDay() - 1`, with Sunday mapped to 6. */
  function StartOffset(first: Date): (o: int)
    ensures 0 <= o <= 6
    ensures o == IsoWeekday(first) - 1
  {
    var o := JsWeekday(first) - 1;
    if o == -1 then 6 else o
  }

  /** A day cell is clickable when it is a Friday and not before today. */
  predicate Selectable(d: Date, today: Date) {
    IsFriday(d) && !IsPast(d, today)
  }

  /** The clickable cells of month `monthIndex` (0-based) of `year`, one flag per day 1..last. */
  function MonthCells(year: int, monthIndex: int, today: Date): (cells: seq<bool>)
    requires 0 <= monthIndex <= 11
    ensures |cells| == DaysInMonth(year, monthIndex + 1)
  {
    seq(DaysInMonth(year, monthIndex + 1), i => Selectable(Date(year, monthIndex + 1, i + 1), today))
  }

  /** A cell is clickable iff its date is a Friday on or after today. */
  lemma MonthCellsMeaning(year: int, monthIndex: int, today: Date, i: int)
    requires 0 <= monthIndex <= 11 && ValidDate(today)
    requires 0 <= i < DaysInMonth(year, monthIndex + 1)
    ensures var d := Date(year, monthIndex + 1, i + 1);
      MonthCells(year, monthIndex, today)[i] <==> IsoWeekday(d) == 5 && !Earlier(d, today)
  {
    var d := Date(year, monthIndex + 1, i + 1);
    assert MonthCells(year, monthIndex, today)[i] == Selectable(d, today);
    PastIffEarlier(d, today);
  }

  /** Clickable Fridays recur weekly within the month. */
  lemma MonthCellsWeekly(year: int, monthIndex: int, today: Date, i: int)
    requires 0 <= monthIndex <= 11
    requires 0 <= i && i + 7 < DaysInMonth(year, monthIndex + 1)
    requires MonthCells(year, monthIndex, today)[i]
    ensures MonthCells(year, monthIndex, today)[i + 7]
  {
    var d := Date(year, monthIndex + 1, i + 1);
    var e := Date(year, monthIndex + 1, i + 8);
    assert MonthCells(year, monthIndex, today)[i] == Selectable(d, today);
    assert MonthCells(year, monthIndex, today)[i + 7] == Selectable(e, today);
    SameMonthShift(d, 7);
  }
}
