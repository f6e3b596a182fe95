/**
 * Proleptic Gregorian calendar arithmetic and the date texts the roster
 * reads and writes: month abbreviations as `%b` accepts them, the
 * `%Y-%m-%d` form (the extended calendar-date form of ISO 8601:2004,
 * section 4.1.2.2) as `strptime` accepts it and `strftime` writes it, and
 * the day of the week as `calendar.weekday` computes it.
 */
module Dates {
  import opened Wrappers
  import Text

  datatype Date = Date(year: int, month: int, day: int)

  /** The years a Python `date` can hold (MINYEAR and MAXYEAR). */
  const MIN_YEAR := 1
  const MAX_YEAR := 9999

  predicate IsLeapYear(y: int)
  {
    y % 4 == 0 && (y % 100 != 0 || y % 400 == 0)
  }

  function DaysInMonth(y: int, m: int): (n: int)
    requires 1 <= m <= 12
    ensures 28 <= n <= 31
  {
    if m == 2 then (if IsLeapYear(y) then 29 else 28)
    else if m == 4 || m == 6 || m == 9 || m == 11 then 30
    else 31
  }

  /** The dates a Python `date` accepts. */
  predicate IsValidDate(d: Date)
  {
    MIN_YEAR <= d.year <= MAX_YEAR && 1 <= d.month <= 12 && 1 <= d.day <= DaysInMonth(d.year, d.month)
  }

  /** Chronological order: Python compares `datetime` values field by field. */
  predicate DateLe(a: Date, b: Date)
  {
    a.year < b.year || (a.year == b.year && (a.month < b.month || (a.month == b.month && a.day <= b.day)))
  }

  // ---------------------------------------------------------------------
  // Month names, as `%b` reads them in the C locale.

  const MONTH_ABBREVIATIONS: seq<string> :=
    ["Jan", "Feb", "Mar", "Apr", "May", "Jun", "Jul", "Aug", "Sep", "Oct", "Nov", "Dec"]

  /** The keys `%b` matches against: the abbreviations in lower case. */
  const MONTH_KEYS: seq<string> :=
    ["jan", "feb", "mar", "apr", "may", "jun", "jul", "aug", "sep", "oct", "nov", "dec"]

  function LowerAscii(c: char): char
  {
    if 'A' <= c <= 'Z' then (c as int + 32) as char else c
  }

  function Lower(s: string): (t: string)
    ensures |t| == |s|
  {
    seq(|s|, i requires 0 <= i < |s| => LowerAscii(s[i]))
  }

  /** The characters Python's `\s` matches in a str pattern (those `str.isspace` accepts). */
  predicate IsSpace(c: char)
  {
    var n := c as int;
    (9 <= n <= 13) || (28 <= n <= 32) || n == 0x85 || n == 0xA0 || n == 0x1680
    || (0x2000 <= n <= 0x200A) || n == 0x2028 || n == 0x2029 || n == 0x202F
    || n == 0x205F || n == 0x3000
  }

  /** `s` without its trailing whitespace. */
  function TrimEnd(s: string): (t: string)
    ensures |t| <= |s| && t == s[..|t|]
    ensures forall i :: |t| <= i < |s| ==> IsSpace(s[i])
    ensures t == [] || !IsSpace(t[|t| - 1])
  {
    if s != [] && IsSpace(s[|s| - 1]) then TrimEnd(s[..|s| - 1]) else s
  }

  function FindMonthKey(key: string, m: nat): (r: Option<int>)
    requires 1 <= m <= 13
    decreases 13 - m
    ensures r.Some? ==> m <= r.value <= 12 && MONTH_KEYS[r.value - 1] == key
    ensures r.None? ==> forall i :: m - 1 <= i < 12 ==> MONTH_KEYS[i] != key
  {
    if m == 13 then None
    else if MONTH_KEYS[m - 1] == key then Some(m)
    else FindMonthKey(key, m + 1)
  }

  /**
   * The month `%b` reads from `name` when `name` is followed by a space and
   * more fields, as in the import's `"<name> <day> 2024"`: an abbreviation
   * in any ASCII case, then optional whitespace that the `\s+` after `%b`
   * absorbs.
   */
  function MonthFromAbbreviation(name: string): (r: Option<int>)
    ensures r.Some? ==> 1 <= r.value <= 12 && Lower(TrimEnd(name)) == MONTH_KEYS[r.value - 1]
    ensures r.None? ==> forall i :: 0 <= i < 12 ==> Lower(TrimEnd(name)) != MONTH_KEYS[i]
  {
    FindMonthKey(Lower(TrimEnd(name)), 1)
  }

  lemma AbbreviationsAreRecognised(m: int)
    requires 1 <= m <= 12
    ensures MonthFromAbbreviation(MONTH_ABBREVIATIONS[m - 1]) == Some(m)
    ensures MonthFromAbbreviation(MONTH_KEYS[m - 1]) == Some(m)
  {
    AbbreviationIsKey(m);
    KeyIsKey(m);
    KeyFound(MONTH_ABBREVIATIONS[m - 1], m);
    KeyFound(MONTH_KEYS[m - 1], m);
  }

  lemma AbbreviationIsKey(m: int)
    requires 1 <= m <= 12
    ensures Lower(TrimEnd(MONTH_ABBREVIATIONS[m - 1])) == MONTH_KEYS[m - 1]
  {
    var name := MONTH_ABBREVIATIONS[m - 1];
    assert TrimEnd(name) == name;
    assert Lower(name) == MONTH_KEYS[m - 1];
  }

  lemma KeyIsKey(m: int)
    requires 1 <= m <= 12
    ensures Lower(TrimEnd(MONTH_KEYS[m - 1])) == MONTH_KEYS[m - 1]
  {
    LowerWordIsKey(MONTH_KEYS[m - 1]);
  }

  /** A word of lower-case ASCII letters is its own key. */
  lemma LowerWordIsKey(w: string)
    requires w != [] && forall i :: 0 <= i < |w| ==> 'a' <= w[i] <= 'z'
    ensures Lower(TrimEnd(w)) == w
  {
    assert TrimEnd(w) == w;
    assert Lower(w) == w;
  }

  /** A name whose key is the m-th is month m, since no two keys are equal. */
  lemma KeyFound(name: string, m: int)
    requires 1 <= m <= 12 && Lower(TrimEnd(name)) == MONTH_KEYS[m - 1]
    ensures MonthFromAbbreviation(name) == Some(m)
  {
    KeysAreDistinct();
  }

  lemma KeysAreDistinct()
    ensures forall i, j :: 0 <= i < j < 12 ==> MONTH_KEYS[i] != MONTH_KEYS[j]
  {
    forall i, j | 0 <= i < j < 12
      ensures MONTH_KEYS[i] != MONTH_KEYS[j]
    {
      var a, b := MONTH_KEYS[i], MONTH_KEYS[j];
      assert a[0] != b[0] || a[1] != b[1] || a[2] != b[2];
    }
  }

  // ---------------------------------------------------------------------
  // The `%Y-%m-%d` text.

  /** `date.strftime("%Y-%m-%d")`: zero-padded year, month and day. */
  function FormatIsoDate(d: Date): (s: string)
    requires IsValidDate(d)
    ensures |s| == 10 && s[4] == '-' && s[7] == '-'
    ensures Text.AllDigits(s[..4]) && Text.AllDigits(s[5..7]) && Text.AllDigits(s[8..])
  {
    Text.FourDigits(d.year) + "-" + Text.TwoDigits(d.month) + "-" + Text.TwoDigits(d.day)
  }

  /** A month field that `%m`, `1[0-2]|0[1-9]|[1-9]`, matches in full. */
  function MonthField(f: string): (r: Option<int>)
    ensures r.Some? ==> 1 <= r.value <= 12
  {
    if |f| == 1 && '1' <= f[0] <= '9' then Some(Text.DigitValue(f[0]))
    else if |f| == 2 && f[0] == '0' && '1' <= f[1] <= '9' then Some(Text.DigitValue(f[1]))
    else if |f| == 2 && f[0] == '1' && '0' <= f[1] <= '2' then Some(10 + Text.DigitValue(f[1]))
    else None
  }

  /** A day field that `%d`, `3[01]|[12]\d|0[1-9]|[1-9]| [1-9]`, matches in full. */
  function DayField(f: string): (r: Option<int>)
    ensures r.Some? ==> 1 <= r.value <= 31
  {
    if |f| == 1 && '1' <= f[0] <= '9' then Some(Text.DigitValue(f[0]))
    else if |f| == 2 && (f[0] == '0' || f[0] == ' ') && '1' <= f[1] <= '9' then Some(Text.DigitValue(f[1]))
    else if |f| == 2 && (f[0] == '1' || f[0] == '2') && Text.IsDigit(f[1])
    then Some(10 * Text.DigitValue(f[0]) + Text.DigitValue(f[1]))
    else if |f| == 2 && f[0] == '3' && (f[1] == '0' || f[1] == '1') then Some(30 + Text.DigitValue(f[1]))
    else None
  }

  /**
   * `datetime.strptime(s, "%Y-%m-%d")`: four digits, a dash, a month field,
   * a dash and a day field that runs to the end; then the date must exist
   * (year at least 1, day within its month). None where Python raises
   * ValueError.
   */
  function ParseIsoDate(s: string): (r: Option<Date>)
    ensures r.Some? ==> IsValidDate(r.value)
  {
    if |s| < 8 || s[4] != '-' || !Text.AllDigits(s[..4]) then None
    else
      var rest := s[5..];
      var k := if rest[1] == '-' then 1 else 2;
      if |rest| < k + 2 || rest[k] != '-' then None
      else
        match (MonthField(rest[..k]), DayField(rest[k + 1..]))
        case (Some(m), Some(d)) =>
          var y := Text.Number(s[..4]);
          if MIN_YEAR <= y && d <= DaysInMonth(y, m) then Some(Date(y, m, d)) else None
        case _ => None
  }

  /**
   * Which date a text names: the four-digit year, then a one- or two-character
   * month field closed by a dash, then the day field to the end, and the date
   * must exist.
   */
  lemma ParseIsoDateReadsFields(s: string, d: Date)
    ensures ParseIsoDate(s) == Some(d) <==>
              IsValidDate(d) && |s| >= 8 && s[4] == '-' && Text.AllDigits(s[..4]) && Text.Number(s[..4]) == d.year
              && ((s[6] == '-' && MonthField(s[5..6]) == Some(d.month) && DayField(s[7..]) == Some(d.day))
                  || (s[7] == '-' && MonthField(s[5..7]) == Some(d.month) && DayField(s[8..]) == Some(d.day)))
  {
    if |s| >= 8 && Text.AllDigits(s[..4]) {
      assert Text.Pow10(4) == 10000;
      var rest := s[5..];
      assert rest[..1] == s[5..6] && rest[..2] == s[5..7] && rest[2..] == s[7..];
      if |s| >= 9 {
        assert rest[3..] == s[8..];
      }
    }
  }

  /** Writing a date and reading it back gives the same date. */
  lemma FormatThenParse(d: Date)
    requires IsValidDate(d)
    ensures ParseIsoDate(FormatIsoDate(d)) == Some(d)
  {
    var s := FormatIsoDate(d);
    var year, month, day := Text.FourDigits(d.year), Text.TwoDigits(d.month), Text.TwoDigits(d.day);
    assert s == year + "-" + month + "-" + day;
    assert s[..4] == year;
    var rest := s[5..];
    assert rest == month + "-" + day;
    assert rest[..2] == month && rest[2] == '-' && rest[3..] == day;
    TwoDigitFields(d.month);
    TwoDigitFields(d.day);
    Text.NumberOfFourDigits(d.year);
  }

  /** `%m` and `%d` read back the two zero-padded digits `strftime` writes. */
  lemma TwoDigitFields(n: int)
    requires 1 <= n <= 31
    ensures DayField(Text.TwoDigits(n)) == Some(n)
    ensures n <= 12 ==> MonthField(Text.TwoDigits(n)) == Some(n)
    ensures Text.TwoDigits(n)[1] != '-'
  {
    assert n == 10 * (n / 10) + n % 10;
  }

  /**
   * On the texts `strftime("%Y-%m-%d")` writes, Python's str order is the
   * chronological order of the dates: a text sorts before another exactly
   * when its date is earlier.
   */
  lemma IsoTextOrder(a: Date, b: Date)
    requires IsValidDate(a) && IsValidDate(b)
    ensures Text.Less(FormatIsoDate(a), FormatIsoDate(b)) <==> DateLe(a, b) && a != b
    ensures FormatIsoDate(a) == FormatIsoDate(b) <==> a == b
  {
    var ya, ma, da := Text.FourDigits(a.year), Text.TwoDigits(a.month), Text.TwoDigits(a.day);
    var yb, mb, db := Text.FourDigits(b.year), Text.TwoDigits(b.month), Text.TwoDigits(b.day);
    assert FormatIsoDate(a) == ya + ("-" + (ma + ("-" + da)));
    assert FormatIsoDate(b) == yb + ("-" + (mb + ("-" + db)));
    Text.LessAppend(ya, "-" + (ma + ("-" + da)), yb, "-" + (mb + ("-" + db)));
    Text.LessAppend("-", ma + ("-" + da), "-", mb + ("-" + db));
    Text.LessAppend(ma, "-" + da, mb, "-" + db);
    Text.LessAppend("-", da, "-", db);
    Text.LessIrreflexive("-");
    Text.FourDigitsLess(a.year, b.year);
    Text.TwoDigitsLess(a.month, b.month);
    Text.TwoDigitsLess(a.day, b.day);
    if FormatIsoDate(a) == FormatIsoDate(b) {
      var s, t := FormatIsoDate(a), FormatIsoDate(b);
      assert s[..4] == ya && t[..4] == yb;
      assert s[5..7] == ma && t[5..7] == mb;
      assert s[8..] == da && t[8..] == db;
    }
  }

  // ---------------------------------------------------------------------
  // Day numbers and the day of the week, as Python's `date.toordinal`,
  // `date.weekday` and `calendar.weekday` compute them.

  /** Days in the years before `y`; 0001-01-01 is day 1. */
  function DaysBeforeYear(y: int): int
    requires y >= 1
  {
    var p := y - 1;
    p * 365 + p / 4 - p / 100 + p / 400
  }

  const DAYS_BEFORE_MONTH: seq<int> := [0, 31, 59, 90, 120, 151, 181, 212, 243, 273, 304, 334]

  function DaysBeforeMonth(y: int, m: int): int
    requires 1 <= m <= 12
  {
    DAYS_BEFORE_MONTH[m - 1] + (if m > 2 && IsLeapYear(y) then 1 else 0)
  }

  /** `date(y, m, d).toordinal()`. */
  function Ordinal(d: Date): int
    requires d.year >= 1 && 1 <= d.month <= 12
  {
    DaysBeforeYear(d.year) + DaysBeforeMonth(d.year, d.month) + d.day
  }

  /**
   * `calendar.weekday(y, m, d)`, Monday = 0: a year outside 1..9999 is first
   * moved into the 400-year cycle starting at 2000.
   */
  function Weekday(y: int, m: int, d: int): (w: int)
    requires 1 <= m <= 12
    ensures 0 <= w < 7
  {
    var y' := if MIN_YEAR <= y <= MAX_YEAR then y else 2000 + y % 400;
    (Ordinal(Date(y', m, d)) + 6) % 7
  }

  /** The calendar day after `d`. */
  function NextDay(d: Date): (e: Date)
    requires IsValidDate(d)
    ensures d.year < MAX_YEAR ==> IsValidDate(e)
  {
    if d.day < DaysInMonth(d.year, d.month) then Date(d.year, d.month, d.day + 1)
    else if d.month < 12 then Date(d.year, d.month + 1, 1)
    else Date(d.year + 1, 1, 1)
  }

  /** A year has 365 days, 366 when it is a leap year. */
  lemma {:induction false} DaysInYear(y: int)
    requires y >= 1
    ensures DaysBeforeYear(y + 1) - DaysBeforeYear(y) == if IsLeapYear(y) then 366 else 365
  {
    DivStep4(y);
    DivStep100(y);
    DivStep400(y);
    CenturiesAreLeapCandidates(y);
    assert DaysBeforeYear(y + 1) - DaysBeforeYear(y)
        == 365 + (y / 4 - (y - 1) / 4) - (y / 100 - (y - 1) / 100) + (y / 400 - (y - 1) / 400);
  }

  lemma DivStep4(y: int)
    ensures y / 4 - (y - 1) / 4 == if y % 4 == 0 then 1 else 0
  {
  }

  lemma DivStep100(y: int)
    ensures y / 100 - (y - 1) / 100 == if y % 100 == 0 then 1 else 0
  {
  }

  lemma DivStep400(y: int)
    ensures y / 400 - (y - 1) / 400 == if y % 400 == 0 then 1 else 0
  {
  }

  lemma CenturiesAreLeapCandidates(y: int)
    ensures y % 100 == 0 ==> y % 4 == 0
    ensures y % 400 == 0 ==> y % 100 == 0
  {
    if y % 100 == 0 {
      var k := y / 100;
      assert y == 4 * (25 * k);
      FourTimes(25 * k);
    }
    if y % 400 == 0 {
      var k := y / 400;
      assert y == 100 * (4 * k);
      HundredTimes(4 * k);
    }
  }

  lemma FourTimes(m: int)
    ensures (4 * m) % 4 == 0
  {
  }

  lemma HundredTimes(m: int)
    ensures (100 * m) % 100 == 0
  {
  }

  /** Consecutive dates have consecutive day numbers. */
  lemma {:induction false} OrdinalOfNextDay(d: Date)
    requires IsValidDate(d) && d.year < MAX_YEAR
    ensures Ordinal(NextDay(d)) == Ordinal(d) + 1
  {
    if d.day == DaysInMonth(d.year, d.month) && d.month == 12 {
      DaysInYear(d.year);
    }
  }

  /** The day of the week advances by one from each date to the next. */
  lemma WeekdayOfNextDay(d: Date)
    requires IsValidDate(d) && d.year < MAX_YEAR
    ensures var e := NextDay(d); Weekday(e.year, e.month, e.day) == (Weekday(d.year, d.month, d.day) + 1) % 7
  {
    var e := NextDay(d);
    OrdinalOfNextDay(d);
    WeekdayFromOrdinal(d);
    WeekdayFromOrdinal(e);
    ModSevenShift(Ordinal(d) + 6, 1);
  }

  lemma WeekdayFromOrdinal(d: Date)
    requires MIN_YEAR <= d.year <= MAX_YEAR && 1 <= d.month <= 12
    ensures Weekday(d.year, d.month, d.day) == (Ordinal(d) + 6) % 7
  {
  }

  /** Adding `b` days moves the day of the week by `b`, modulo 7. */
  lemma ModSevenShift(a: int, b: int)
    ensures (a + b) % 7 == (a % 7 + b) % 7
  {
    var q := a / 7;
    assert a + b == (a % 7 + b) + 7 * q;
    SevenMultiplesDrop(a % 7 + b, q);
  }

  lemma SevenMultiplesDrop(x: int, q: int)
    ensures (x + 7 * q) % 7 == x % 7
  {
  }

  /** 1 July 2024 was a Monday. */
  lemma FirstOfJuly2024IsMonday()
    ensures Weekday(2024, 7, 1) == 0
  {
  }
}
