/**
 * `display_calendar_shifts`: the records of one month, grouped by day as
 * "employee:shift" tokens, laid out in Monday-first weeks the way
 * `calendar.monthcalendar` builds them, one text line per week with a
 * 5-character excerpt of each day's tokens.
 */
module CalendarDisplay {
  import opened Wrappers
  import opened Text
  import opened Dates
  import opened Shifts

  // ---------------------------------------------------------------------
  // The records of the month.

  /** The test of the month filter: both the month and the year of the record's date match. */
  function InMonth(month: int, year: int): Date -> bool
  {
    (d: Date) => d.month == month && d.year == year
  }

  /** The day of a record whose date parses. */
  function DayOf(x: Shift): int
    requires ParseIsoDate(x.date).Some?
  {
    ParseIsoDate(x.date).value.day
  }

  /** The text each record contributes to its day: `f"{employee_id}:{shift}"`. */
  function Token(x: Shift): string
  {
    x.employeeId + ":" + x.shift
  }

  /** The tokens of the records on day `d`, in the order of the records. */
  function TokensOn(s: seq<Shift>, d: int): seq<string>
    requires AllDated(s)
  {
    if s == [] then []
    else
      var n := |s| - 1;
      TokensOn(s[..n], d) + (if DayOf(s[n]) == d then [Token(s[n])] else [])
  }

  /** One more record adds its token to its own day and to no other. */
  lemma TokensOnStep(s: seq<Shift>, i: int, d: int)
    requires AllDated(s) && 0 <= i < |s|
    ensures TokensOn(s[..i + 1], d) == TokensOn(s[..i], d) + (if DayOf(s[i]) == d then [Token(s[i])] else [])
  {
    assert s[..i + 1][..i] == s[..i];
  }

  /** A date that parses has a day of the month between 1 and 31. */
  lemma DayInRange(x: Shift)
    requires ParseIsoDate(x.date).Some?
    ensures 1 <= DayOf(x) <= 31
  {
  }

  /** Only days 1 to 31 can hold tokens. */
  lemma {:induction false} TokensOnlyOnDays(s: seq<Shift>, d: int)
    requires AllDated(s) && TokensOn(s, d) != []
    ensures 1 <= d <= 31
  {
    var n := |s| - 1;
    if DayOf(s[n]) == d {
      DayInRange(s[n]);
    } else {
      TokensOnlyOnDays(s[..n], d);
    }
  }

  /** Each record of day `d` puts its token on that day. */
  lemma {:induction false} TokenOfRecord(s: seq<Shift>, d: int, i: int)
    requires AllDated(s) && 0 <= i < |s| && DayOf(s[i]) == d
    ensures Token(s[i]) in TokensOn(s, d)
  {
    var n := |s| - 1;
    assert AllDated(s[..n]);
    if i < n {
      assert s[..n][i] == s[i];
      TokenOfRecord(s[..n], d, i);
    }
  }

  /** Each token of day `d` comes from a record of that day. */
  lemma {:induction false} RecordOfToken(s: seq<Shift>, d: int, t: string)
    requires AllDated(s) && t in TokensOn(s, d)
    ensures exists i :: 0 <= i < |s| && DayOf(s[i]) == d && Token(s[i]) == t
  {
    var n := |s| - 1;
    if t in TokensOn(s[..n], d) {
      RecordOfToken(s[..n], d, t);
      var i :| 0 <= i < n && DayOf(s[..n][i]) == d && Token(s[..n][i]) == t;
      assert s[..n][i] == s[i];
    } else {
      assert DayOf(s[n]) == d && Token(s[n]) == t;
    }
  }

  /** A token is on day `d` exactly when some record of that day produced it. */
  lemma TokensOnMembers(s: seq<Shift>, d: int, t: string)
    requires AllDated(s)
    ensures t in TokensOn(s, d) <==> exists i :: 0 <= i < |s| && DayOf(s[i]) == d && Token(s[i]) == t
  {
    if t in TokensOn(s, d) {
      RecordOfToken(s, d, t);
    }
    if exists i :: 0 <= i < |s| && DayOf(s[i]) == d && Token(s[i]) == t {
      var i :| 0 <= i < |s| && DayOf(s[i]) == d && Token(s[i]) == t;
      TokenOfRecord(s, d, i);
    }
  }

  /** The tokens of two runs of records, one after the other. */
  lemma {:induction false} TokensOnAppend(a: seq<Shift>, b: seq<Shift>, d: int)
    requires AllDated(a) && AllDated(b)
    ensures AllDated(a + b) && TokensOn(a + b, d) == TokensOn(a, d) + TokensOn(b, d)
  {
    AllDatedAppend(a, b);
    if b == [] {
      assert a + b == a;
    } else {
      var n, ab := |b| - 1, a + b;
      var last := if DayOf(b[n]) == d then [Token(b[n])] else [];
      AllDatedPrefix(b, n);
      TokensOnAppend(a, b[..n], d);
      DropLastOfAppend(a, b);
      assert TokensOn(ab, d) == TokensOn(a + b[..n], d) + last;
      assert TokensOn(b, d) == TokensOn(b[..n], d) + last;
    }
  }

  lemma DropLastOfAppend(a: seq<Shift>, b: seq<Shift>)
    requires b != []
    ensures (a + b)[..|a + b| - 1] == a + b[..|b| - 1] && (a + b)[|a + b| - 1] == b[|b| - 1]
  {
  }

  lemma AllDatedPrefix(s: seq<Shift>, n: nat)
    requires AllDated(s) && n <= |s|
    ensures AllDated(s[..n])
  {
    assert forall i :: 0 <= i < n ==> s[..n][i] == s[i];
  }

  lemma AllDatedAppend(a: seq<Shift>, b: seq<Shift>)
    requires AllDated(a) && AllDated(b)
    ensures AllDated(a + b)
  {
    forall i | 0 <= i < |a + b|
      ensures ParseIsoDate((a + b)[i].date).Some?
    {
      if i >= |a| {
        assert (a + b)[i] == b[i - |a|];
      }
    }
  }

  /**
   * Straight from the input: the tokens of the records of `s` dated on day
   * `d` of the month, in the order the records come.
   */
  function InputTokensOn(s: seq<Shift>, month: int, year: int, d: int): seq<string>
  {
    if s == [] then []
    else
      (if Kept(s[0], InMonth(month, year)) && ParseIsoDate(s[0].date).value.day == d then [Token(s[0])] else [])
      + InputTokensOn(s[1..], month, year, d)
  }

  /**
   * The month filter keeps input order: the tokens the view groups under day
   * `d` are those of the input's records on that day of the month, in input
   * order.
   */
  lemma {:induction false} MonthTokensInInputOrder(s: seq<Shift>, month: int, year: int, d: int)
    requires AllDated(s)
    ensures SelectByDate(s, InMonth(month, year)).Ok?
    ensures var ms := SelectByDate(s, InMonth(month, year)).value;
            AllDated(ms) && TokensOn(ms, d) == InputTokensOn(s, month, year, d)
  {
    if s != [] {
      var t := s[1..];
      assert AllDated(t) by {
        assert forall i :: 0 <= i < |t| ==> t[i] == s[i + 1];
      }
      MonthTokensInInputOrder(t, month, year, d);
      var keep := InMonth(month, year);
      var rest := SelectByDate(t, keep).value;
      var head := if Kept(s[0], keep) then [s[0]] else [];
      var ms := SelectByDate(s, keep).value;
      assert ms == head + rest;
      HeadTokens(s[0], keep, d);
      TokensOnAppend(head, rest, d);
      assert TokensOn(ms, d) == TokensOn(head, d) + TokensOn(rest, d);
      assert InputTokensOn(s, month, year, d) == TokensOn(head, d) + InputTokensOn(t, month, year, d);
    }
  }

  /** The one record the filter looks at first contributes its token when it is kept and on day `d`. */
  lemma HeadTokens(x: Shift, keep: Date -> bool, d: int)
    requires ParseIsoDate(x.date).Some?
    ensures var head := if Kept(x, keep) then [x] else [];
            AllDated(head)
            && TokensOn(head, d) == if Kept(x, keep) && ParseIsoDate(x.date).value.day == d then [Token(x)] else []
  {
    assert [x][..0] == [];
  }

  /** The view's day map lists under each day the input's tokens for that day, in input order. */
  lemma ByDayInInputOrder(s: seq<Shift>, month: int, year: int, d: int)
    requires AllDated(s)
    ensures SelectByDate(s, InMonth(month, year)).Ok?
    ensures var ms := SelectByDate(s, InMonth(month, year)).value;
            AllDated(ms) && (d in ByDay(ms) ==> ByDay(ms)[d] == InputTokensOn(s, month, year, d))
  {
    MonthTokensInInputOrder(s, month, year, d);
  }

  /** The number of tokens on days 1 to `d`. */
  function TokenTotal(s: seq<Shift>, d: int): nat
    requires AllDated(s)
  {
    if d <= 0 then 0 else TokenTotal(s, d - 1) + |TokensOn(s, d)|
  }

  lemma {:induction false} TokenTotalStep(s: seq<Shift>, d: int)
    requires AllDated(s) && s != []
    ensures var n := |s| - 1;
            TokenTotal(s, d) == TokenTotal(s[..n], d) + (if 1 <= DayOf(s[n]) <= d then 1 else 0)
  {
    assert AllDated(s[..|s| - 1]);
    if d > 0 {
      TokenTotalStep(s, d - 1);
    }
  }

  /** Every record of the month is shown under exactly one day: the tokens of days 1 to 31 number as many as the records. */
  lemma {:induction false} TokensCoverRecords(s: seq<Shift>)
    requires AllDated(s)
    ensures TokenTotal(s, 31) == |s|
  {
    if s == [] {
      TokenTotalEmpty(s, 31);
    } else {
      var n := |s| - 1;
      TokensCoverRecords(s[..n]);
      TokenTotalStep(s, 31);
      DayInRange(s[n]);
    }
  }

  lemma {:induction false} TokenTotalEmpty(s: seq<Shift>, d: int)
    requires s == []
    ensures TokenTotal(s, d) == 0
  {
    if d > 0 {
      TokenTotalEmpty(s, d - 1);
    }
  }

  /** `shifts_by_date` as a value: each day that has a record, mapped to its tokens. */
  function ByDay(s: seq<Shift>): map<int, seq<string>>
    requires AllDated(s)
  {
    map d | 1 <= d <= 31 && TokensOn(s, d) != [] :: TokensOn(s, d)
  }

  /** `m` maps exactly the days that have tokens in `s` to those tokens. */
  ghost predicate GroupsOf(m: map<int, seq<string>>, s: seq<Shift>)
    requires AllDated(s)
  {
    (forall d :: d in m <==> TokensOn(s, d) != [])
    && forall d :: d in m ==> m[d] == TokensOn(s, d)
  }

  /** One step of the grouping loop keeps the map equal to the grouping of the records seen. */
  lemma GroupStep(m: map<int, seq<string>>, s: seq<Shift>, i: int)
    requires AllDated(s) && 0 <= i < |s| && GroupsOf(m, s[..i])
    ensures var day := DayOf(s[i]);
            var m1 := if day !in m then m[day := []] else m;
            GroupsOf(m1[day := m1[day] + [Token(s[i])]], s[..i + 1])
  {
    var day := DayOf(s[i]);
    var m1 := if day !in m then m[day := []] else m;
    var m2 := m1[day := m1[day] + [Token(s[i])]];
    assert AllDated(s[..i]) && AllDated(s[..i + 1]);
    forall d
      ensures (d in m2 <==> TokensOn(s[..i + 1], d) != []) && (d in m2 ==> m2[d] == TokensOn(s[..i + 1], d))
    {
      TokensOnStep(s, i, d);
      assert d in m <==> TokensOn(s[..i], d) != [];
      assert d in m ==> m[d] == TokensOn(s[..i], d);
      if d != day {
        assert (d in m2 <==> d in m) && (d in m2 ==> m2[d] == m[d]);
      }
    }
  }

  /**
   * The grouping loop: for each record, create the day's list when the day
   * is new, then append the record's token.
   */
  method GroupByDay(monthShifts: seq<Shift>) returns (shiftsByDate: map<int, seq<string>>)
    requires AllDated(monthShifts)
    ensures forall d :: d in shiftsByDate <==> TokensOn(monthShifts, d) != []
    ensures forall d :: d in shiftsByDate ==> shiftsByDate[d] == TokensOn(monthShifts, d)
    ensures shiftsByDate == ByDay(monthShifts)
  {
    shiftsByDate := map[];
    for i := 0 to |monthShifts|
      invariant GroupsOf(shiftsByDate, monthShifts[..i])
    {
      var shift := monthShifts[i];
      var date := ParseIsoDate(shift.date).value.day;
      GroupStep(shiftsByDate, monthShifts, i);
      if date !in shiftsByDate {
        shiftsByDate := shiftsByDate[date := []];
      }
      shiftsByDate := shiftsByDate[date := shiftsByDate[date] + [Token(shift)]];
    }
    assert monthShifts[..|monthShifts|] == monthShifts;
    forall d | d in shiftsByDate
      ensures 1 <= d <= 31
    {
      TokensOnlyOnDays(monthShifts, d);
    }
  }

  // ---------------------------------------------------------------------
  // The weeks of the month.

  function Zeros(k: nat): (z: seq<int>)
    ensures |z| == k && forall i :: 0 <= i < k ==> z[i] == 0
  {
    seq(k, _ => 0)
  }

  /**
   * `calendar.Calendar(0).itermonthdays(year, month)`: a 0 for each day of
   * the first week before the 1st, the days 1 to n, then 0s up to the end
   * of the last week.
   */
  function MonthDays(year: int, month: int): (days: seq<int>)
    requires 1 <= month <= 12
  {
    var lead := Weekday(year, month, 1);
    var n := DaysInMonth(year, month);
    Zeros(lead) + seq(n, i => i + 1) + Zeros((0 - lead - n) % 7)
  }

  /** `[days[i:i + 7] for i in range(0, len(days), 7)]`. */
  function Weeks(days: seq<int>): (weeks: seq<seq<int>>)
    requires |days| % 7 == 0
    ensures |weeks| * 7 == |days|
    ensures forall w :: 0 <= w < |weeks| ==> |weeks[w]| == 7
    ensures forall w, c :: 0 <= w < |weeks| && 0 <= c < 7 ==> weeks[w][c] == days[7 * w + c]
  {
    if days == [] then []
    else
      var rest := Weeks(days[7..]);
      assert forall w, c :: 0 <= w < |rest| && 0 <= c < 7 ==> rest[w][c] == days[7 * (w + 1) + c];
      [days[..7]] + rest
  }

  /** `calendar.monthcalendar(year, month)`; a month outside 1..12 raises IllegalMonthError. */
  function MonthCalendar(year: int, month: int): Result<seq<seq<int>>, Error>
  {
    if 1 <= month <= 12 then
      var days := MonthDays(year, month);
      assert |days| % 7 == 0;
      Ok(Weeks(days))
    else Err(IllegalMonth(month))
  }

  /** The day at position `p` of the month's cells: 0 outside the month. */
  function DayAtCell(year: int, month: int, p: int): int
    requires 1 <= month <= 12
  {
    var lead := Weekday(year, month, 1);
    if lead <= p < lead + DaysInMonth(year, month) then p - lead + 1 else 0
  }

  /** Later days of a month fall on later days of the week, one by one, modulo 7. */
  lemma WeekdayOfDay(year: int, month: int, d: int)
    requires 1 <= month <= 12
    ensures Weekday(year, month, d) == (Weekday(year, month, 1) + d - 1) % 7
  {
    var y' := if MIN_YEAR <= year <= MAX_YEAR then year else 2000 + year % 400;
    var before := DaysBeforeYear(y') + DaysBeforeMonth(y', month);
    assert Ordinal(Date(y', month, d)) == before + d;
    assert Ordinal(Date(y', month, 1)) == before + 1;
    ModSevenShift(before + 7, d - 1);
  }

  /** The flat list of cells: whole weeks, each cell the day DayAtCell names. */
  lemma MonthDaysCells(year: int, month: int)
    requires 1 <= month <= 12
    ensures var lead, n := Weekday(year, month, 1), DaysInMonth(year, month);
            |MonthDays(year, month)| == lead + n + (0 - lead - n) % 7
            && |MonthDays(year, month)| % 7 == 0
            && forall p :: 0 <= p < |MonthDays(year, month)| ==> MonthDays(year, month)[p] == DayAtCell(year, month, p)
  {
  }

  /** The weeks of `monthcalendar` hold the cells of MonthDays, seven at a time. */
  lemma MonthCalendarCells(year: int, month: int)
    requires 1 <= month <= 12
    ensures MonthCalendar(year, month).Ok?
    ensures var weeks := MonthCalendar(year, month).value;
            var lead, n := Weekday(year, month, 1), DaysInMonth(year, month);
            7 * |weeks| == lead + n + (0 - lead - n) % 7
            && (forall w :: 0 <= w < |weeks| ==> |weeks[w]| == 7)
            && (forall w, c :: 0 <= w < |weeks| && 0 <= c < 7 ==> weeks[w][c] == DayAtCell(year, month, 7 * w + c))
  {
    MonthDaysCells(year, month);
  }

  /**
   * The layout `monthcalendar` promises: 4 to 6 weeks of 7 cells, the
   * month's days in order after the weekday of the 1st, 0 elsewhere, so
   * every day sits in the column of its own weekday, Monday first, and
   * neither the first nor the last week is all 0s.
   */
  lemma MonthCalendarLayout(year: int, month: int)
    requires 1 <= month <= 12
    ensures MonthCalendar(year, month).Ok?
    ensures var weeks := MonthCalendar(year, month).value;
            4 <= |weeks| <= 6
            && (forall w :: 0 <= w < |weeks| ==> |weeks[w]| == 7)
            && (forall w, c :: 0 <= w < |weeks| && 0 <= c < 7 ==> weeks[w][c] == DayAtCell(year, month, 7 * w + c))
            && (forall w, c :: 0 <= w < |weeks| && 0 <= c < 7 && weeks[w][c] != 0 ==> c == Weekday(year, month, weeks[w][c]))
            && weeks[0][Weekday(year, month, 1)] == 1
            && weeks[|weeks| - 1][Weekday(year, month, DaysInMonth(year, month))] == DaysInMonth(year, month)
  {
    MonthCalendarCells(year, month);
    var weeks := MonthCalendar(year, month).value;
    forall w, c | 0 <= w < |weeks| && 0 <= c < 7 && weeks[w][c] != 0
      ensures c == Weekday(year, month, weeks[w][c])
    {
      ColumnOfDay(year, month, w, c);
    }
    LastDayPlacement(year, month, |weeks|);
  }

  /** A day in cell `c` of week `w` falls on weekday `c`. */
  lemma ColumnOfDay(year: int, month: int, w: int, c: int)
    requires 1 <= month <= 12 && 0 <= w && 0 <= c < 7 && DayAtCell(year, month, 7 * w + c) != 0
    ensures Weekday(year, month, DayAtCell(year, month, 7 * w + c)) == c
  {
    var lead, p := Weekday(year, month, 1), 7 * w + c;
    var d := p - lead + 1;
    assert DayAtCell(year, month, p) == d;
    WeekdayOfDay(year, month, d);
    ColumnArithmetic(lead, w, c);
  }

  lemma ColumnArithmetic(lead: int, w: int, c: int)
    requires 0 <= c < 7
    ensures (lead + (7 * w + c - lead + 1) - 1) % 7 == c
  {
    assert lead + (7 * w + c - lead + 1) - 1 == 7 * w + c;
    ModSevenShift(7 * w, c);
  }

  /** With `weeks` weeks of cells, the last day of the month sits in the last week, in its weekday's column. */
  lemma LastDayPlacement(year: int, month: int, weeks: int)
    requires 1 <= month <= 12
    requires var lead, n := Weekday(year, month, 1), DaysInMonth(year, month);
             7 * weeks == lead + n + (0 - lead - n) % 7
    ensures 4 <= weeks <= 6
    ensures var lead, n := Weekday(year, month, 1), DaysInMonth(year, month);
            7 * (weeks - 1) + Weekday(year, month, n) == lead + n - 1
  {
    var lead, n := Weekday(year, month, 1), DaysInMonth(year, month);
    WeekdayOfDay(year, month, n);
    var last := lead + n - 1;
    assert last == 7 * (weeks - 1) + (6 - (0 - lead - n) % 7);
    assert last % 7 == 6 - (0 - lead - n) % 7;
  }

  // ---------------------------------------------------------------------
  // The text of a week.

  /**
   * `"\n".join(shifts_by_date.get(day, [" "]))[:5]`: at most five
   * characters, a single space for a day without records, otherwise the
   * start of the day's tokens joined by newlines.
   */
  function CellText(day: int, shiftsByDate: map<int, seq<string>>): (t: string)
    ensures |t| <= 5
    ensures day !in shiftsByDate ==> t == " "
    ensures day in shiftsByDate && shiftsByDate[day] != [] ==>
              var first := shiftsByDate[day][0];
              (|first| >= 5 ==> t == first[..5])
              && (|first| < 5 ==> |first| <= |t| && t[..|first|] == first)
              && (|shiftsByDate[day]| == 1 && |first| <= 5 ==> t == first)
  {
    var tokens := if day in shiftsByDate then shiftsByDate[day] else [" "];
    var t := Take(Join("\n", tokens), 5);
    if tokens == [] then t
    else
      JoinStartsWithFirst("\n", tokens);
      t
  }

  /**
   * A day with records shows the first five characters of its tokens joined
   * by newlines (all of them when the joined text is shorter); with two or
   * more tokens, the first is followed by a newline and the second.
   */
  lemma CellTextOfTokens(day: int, shiftsByDate: map<int, seq<string>>)
    requires day in shiftsByDate
    ensures var t, joined := CellText(day, shiftsByDate), Join("\n", shiftsByDate[day]);
            |t| == (if |joined| < 5 then |joined| else 5) && t == joined[..|t|]
    ensures |shiftsByDate[day]| >= 2 ==>
              var t, two := CellText(day, shiftsByDate), shiftsByDate[day][0] + "\n" + shiftsByDate[day][1];
              (|two| >= 5 ==> t == two[..5]) && (|two| < 5 ==> |two| <= |t| && t[..|two|] == two)
  {
    if |shiftsByDate[day]| >= 2 {
      JoinStartsWithFirstTwo("\n", shiftsByDate[day]);
    }
  }

  /** Two employees on one day: the cell shows the first token, a newline, then the second. */
  lemma CellTextSharedDay()
    ensures CellText(1, map[1 := ["AB", "CD"]]) == "AB\nCD"
  {
    var tokens := ["AB", "CD"];
    assert Join("\n", tokens) == "AB" + "\n" + Join("\n", tokens[1..]);
    assert tokens[1..] == ["CD"];
  }

  /** `"     "` for a 0, else `f"{day:2} {shifts:5} "`. */
  function Segment(day: int, shiftsByDate: map<int, seq<string>>): (seg: string)
  {
    if day == 0 then "     "
    else PadLeft(IntText(day), 2) + " " + PadRight(CellText(day, shiftsByDate), 5) + " "
  }

  /** The day number, right-aligned in two columns, then the excerpt of its tokens. */
  lemma SegmentOfDay(day: int, shiftsByDate: map<int, seq<string>>)
    requires 1 <= day <= 99
    ensures var seg := Segment(day, shiftsByDate);
            |seg| == 9 && seg[..2] == PadLeft(Decimal(day), 2) && Number(Decimal(day)) == day
            && seg[2] == ' ' && seg[8] == ' '
            && seg[3..3 + |CellText(day, shiftsByDate)|] == CellText(day, shiftsByDate)
            && seg[3..8] == PadRight(CellText(day, shiftsByDate), 5)
            && forall i :: 3 + |CellText(day, shiftsByDate)| <= i < 8 ==> seg[i] == ' '
  {
    NumberOfDecimal(day);
    var text := CellText(day, shiftsByDate);
    var head := PadLeft(Decimal(day), 2);
    var cell := PadRight(text, 5);
    assert |head| == 2 && |cell| == 5 && cell[..|text|] == text;
    SegmentLayout(head, cell, |text|);
  }

  lemma SegmentLayout(head: string, cell: string, k: nat)
    requires |head| == 2 && |cell| == 5 && k <= 5
    ensures var seg := head + " " + cell + " ";
            |seg| == 9 && seg[..2] == head && seg[2] == ' ' && seg[8] == ' ' && seg[3..3 + k] == cell[..k]
            && seg[3..8] == cell && forall i :: 3 + k <= i < 8 ==> seg[i] == cell[i - 3]
  {
    var seg := head + " " + cell + " ";
    assert seg[..2] == head;
    assert seg[3..8] == cell;
    assert seg[3..3 + k] == cell[..k];
  }

  /** The line of one week: the segments of its days, left to right. */
  function WeekLine(week: seq<int>, shiftsByDate: map<int, seq<string>>): string
  {
    if week == [] then ""
    else
      var n := |week| - 1;
      WeekLine(week[..n], shiftsByDate) + Segment(week[n], shiftsByDate)
  }

  /** The number of cells of a week that hold a day of the month. */
  function DaysIn(week: seq<int>): nat
  {
    if week == [] then 0 else DaysIn(week[..|week| - 1]) + (if week[|week| - 1] != 0 then 1 else 0)
  }

  /**
   * A cell outside the month takes 5 characters and a day 9, so a line is
   * 5 per blank plus 9 per day (the weekday header above gives each column
   * 5).
   */
  lemma {:induction false} WeekLineLength(week: seq<int>, shiftsByDate: map<int, seq<string>>)
    requires forall c :: 0 <= c < |week| ==> 0 <= week[c] <= 99
    ensures |WeekLine(week, shiftsByDate)| == 5 * (|week| - DaysIn(week)) + 9 * DaysIn(week)
  {
    if week != [] {
      var n := |week| - 1;
      var front, day := week[..n], week[n];
      assert forall c :: 0 <= c < |front| ==> front[c] == week[c];
      WeekLineLength(front, shiftsByDate);
      var seg := Segment(day, shiftsByDate);
      assert WeekLine(week, shiftsByDate) == WeekLine(front, shiftsByDate) + seg;
      assert DaysIn(week) == DaysIn(front) + (if day != 0 then 1 else 0);
      if day != 0 {
        SegmentOfDay(day, shiftsByDate);
      }
      assert |seg| == if day == 0 then 5 else 9;
    }
  }

  /** The lines of all weeks. */
  function WeekLines(weeks: seq<seq<int>>, shiftsByDate: map<int, seq<string>>): (lines: seq<string>)
    ensures |lines| == |weeks|
  {
    seq(|weeks|, w requires 0 <= w < |weeks| => WeekLine(weeks[w], shiftsByDate))
  }

  /** The week loop: one line per week of `cal`. */
  method RenderWeeks(cal: seq<seq<int>>, shiftsByDate: map<int, seq<string>>) returns (lines: seq<string>)
    ensures lines == WeekLines(cal, shiftsByDate)
  {
    lines := [];
    for w := 0 to |cal|
      invariant lines == WeekLines(cal[..w], shiftsByDate)
    {
      var weekDisplay := RenderWeek(cal[w], shiftsByDate);
      WeekLinesSnoc(cal, w, shiftsByDate);
      lines := lines + [weekDisplay];
    }
    assert cal[..|cal|] == cal;
  }

  /** The lines of one more week are those before it and then its own. */
  lemma WeekLinesSnoc(cal: seq<seq<int>>, w: int, shiftsByDate: map<int, seq<string>>)
    requires 0 <= w < |cal|
    ensures WeekLines(cal[..w + 1], shiftsByDate) == WeekLines(cal[..w], shiftsByDate) + [WeekLine(cal[w], shiftsByDate)]
  {
    var front, longer := cal[..w], cal[..w + 1];
    var before, after := WeekLines(front, shiftsByDate), WeekLines(longer, shiftsByDate);
    forall k | 0 <= k < w
      ensures after[k] == before[k]
    {
      assert longer[k] == front[k];
    }
    assert longer[w] == cal[w];
    assert after == before + [after[w]];
  }

  /** The day loop inside the week loop: the line built one day's segment at a time. */
  method RenderWeek(week: seq<int>, shiftsByDate: map<int, seq<string>>) returns (weekDisplay: string)
    ensures weekDisplay == WeekLine(week, shiftsByDate)
  {
    weekDisplay := "";
    for c := 0 to |week|
      invariant weekDisplay == WeekLine(week[..c], shiftsByDate)
    {
      var day := week[c];
      assert week[..c + 1][..c] == week[..c];
      assert WeekLine(week[..c + 1], shiftsByDate) == WeekLine(week[..c], shiftsByDate) + Segment(day, shiftsByDate);
      if day == 0 {
        weekDisplay := weekDisplay + "     ";
      } else {
        var shifts := Take(Join("\n", if day in shiftsByDate then shiftsByDate[day] else [" "]), 5);
        assert shifts == CellText(day, shiftsByDate);
        weekDisplay := weekDisplay + (PadLeft(IntText(day), 2) + " " + PadRight(shifts, 5) + " ");
      }
    }
    assert week[..|week|] == week;
  }

  // ---------------------------------------------------------------------
  // The whole view.

  /** `calendar.month_name` in the C locale. */
  const MONTH_NAMES: seq<string> :=
    ["January", "February", "March", "April", "May", "June",
     "July", "August", "September", "October", "November", "December"]

  const WEEKDAY_HEADER := "Mon  Tue  Wed  Thu  Fri  Sat  Sun"

  /** `f"\n{month_name} {year}".center(30)`. */
  function Title(month: int, year: int): string
    requires 1 <= month <= 12
  {
    Center("\n" + MONTH_NAMES[month - 1] + " " + IntText(year), 30)
  }

  /**
   * What `display_calendar_shifts` prints, line by line: the records of the
   * month are selected first (a date text that does not parse raises
   * there), then grouped, then the month's weeks are built (an illegal
   * month raises there), then the title, the weekday header and one line
   * per week follow.
   */
  function DisplaySpec(shiftData: seq<Shift>, month: int, year: int): Result<seq<string>, Error>
  {
    match SelectByDate(shiftData, InMonth(month, year))
    case Err(e) => Err(e)
    case Ok(monthShifts) =>
      MonthShiftsDated(shiftData, month, year);
      match MonthCalendar(year, month)
      case Err(e) => Err(e)
      case Ok(weeks) =>
        Ok([Title(month, year), WEEKDAY_HEADER] + WeekLines(weeks, ByDay(monthShifts)))
  }

  /** The selected records all have dates in the month asked for. */
  lemma MonthShiftsDated(shiftData: seq<Shift>, month: int, year: int)
    requires SelectByDate(shiftData, InMonth(month, year)).Ok?
    ensures var ms := SelectByDate(shiftData, InMonth(month, year)).value;
            AllDated(ms)
            && forall i :: 0 <= i < |ms| ==> ParseIsoDate(ms[i].date).value.month == month
                                             && ParseIsoDate(ms[i].date).value.year == year
  {
    var ms := SelectByDate(shiftData, InMonth(month, year)).value;
    SelectMembers(shiftData, InMonth(month, year));
    forall i | 0 <= i < |ms|
      ensures Kept(ms[i], InMonth(month, year))
    {
      assert ms[i] in ms;
    }
  }

  /**
   * `display_calendar_shifts(month, year)` with the records it would fetch
   * given as `shiftData`: the printed lines, or the error it raises.
   */
  method DisplayCalendarShifts(shiftData: seq<Shift>, month: int, year: int) returns (r: Result<seq<string>, Error>)
    ensures r == DisplaySpec(shiftData, month, year)
  {
    var selected := SelectByDate(shiftData, InMonth(month, year));
    if selected.Err? {
      return Err(selected.error);
    }
    var monthShifts := selected.value;
    MonthShiftsDated(shiftData, month, year);
    var shiftsByDate := GroupByDay(monthShifts);
    var cal := MonthCalendar(year, month);
    if cal.Err? {
      return Err(cal.error);
    }
    var weekLines := RenderWeeks(cal.value, shiftsByDate);
    return Ok([Title(month, year), WEEKDAY_HEADER] + weekLines);
  }

  // ---------------------------------------------------------------------
  // What the view promises.

  /**
   * The view fails exactly when a date text does not parse or the month is
   * not 1 to 12; the first date text that does not parse is reported before
   * an illegal month.
   */
  lemma DisplayFails(shiftData: seq<Shift>, month: int, year: int)
    ensures DisplaySpec(shiftData, month, year).Err? <==> !AllDated(shiftData) || !(1 <= month <= 12)
    ensures !AllDated(shiftData) ==>
              exists i :: 0 <= i < |shiftData| && AllDated(shiftData[..i]) && ParseIsoDate(shiftData[i].date).None?
                          && DisplaySpec(shiftData, month, year) == Err(BadDateText(shiftData[i].date))
    ensures AllDated(shiftData) && !(1 <= month <= 12) ==> DisplaySpec(shiftData, month, year) == Err(IllegalMonth(month))
  {
    if !AllDated(shiftData) {
      SelectFirstError(shiftData, InMonth(month, year));
    }
  }

  /**
   * A successful view has the title, the weekday header and one line per
   * week, each line being the WeekLine of its week, and every record of the
   * month is counted under one day. What a day's segment shows is stated by
   * SegmentOfDay, CellTextOfTokens and ByDayInInputOrder.
   */
  lemma DisplayShowsMonth(shiftData: seq<Shift>, month: int, year: int)
    requires AllDated(shiftData) && 1 <= month <= 12
    ensures DisplaySpec(shiftData, month, year).Ok?
    ensures var lines := DisplaySpec(shiftData, month, year).value;
            var weeks := MonthCalendar(year, month).value;
            var ms := SelectByDate(shiftData, InMonth(month, year)).value;
            AllDated(ms)
            && |lines| == 2 + |weeks| && 6 <= |lines| <= 8
            && lines[0] == Title(month, year) && lines[1] == WEEKDAY_HEADER
            && (forall w :: 0 <= w < |weeks| ==> lines[2 + w] == WeekLine(weeks[w], ByDay(ms)))
            && TokenTotal(ms, 31) == |ms|
  {
    DisplayFails(shiftData, month, year);
    MonthShiftsDated(shiftData, month, year);
    MonthCalendarLayout(year, month);
    TokensCoverRecords(SelectByDate(shiftData, InMonth(month, year)).value);
  }

  /** July 2024 starts on a Monday and spans five weeks; the last holds the 29th to the 31st and four blanks. */
  lemma July2024Weeks()
    ensures MonthCalendar(2024, 7).Ok?
    ensures var weeks := MonthCalendar(2024, 7).value;
            |weeks| == 5 && weeks[0] == [1, 2, 3, 4, 5, 6, 7] && weeks[4] == [29, 30, 31, 0, 0, 0, 0]
  {
    FirstOfJuly2024IsMonday();
    MonthCalendarCells(2024, 7);
    var weeks := MonthCalendar(2024, 7).value;
    assert |weeks| == 5;
    assert weeks[0] == [1, 2, 3, 4, 5, 6, 7];
    assert weeks[4] == [29, 30, 31, 0, 0, 0, 0];
  }
}
