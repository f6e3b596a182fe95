/**
 * The normalised shift record that every part of the roster passes around,
 * the failures the roster code raises, and the date-based selection that the
 * export and the month view both perform with a list comprehension.
 */
module Shifts {
  import opened Wrappers
  import opened Dates

  /** A dict with the keys "employee_id", "date" (a `%Y-%m-%d` text) and "shift". */
  datatype Shift = Shift(employeeId: string, date: string, shift: string)

  /** What the Python code raises instead of returning. */
  datatype Error =
    | MissingMonthRow                            // `next(reader)` on an empty grid: StopIteration
    | EmptyMonthRow                              // `month_year[0]` on a blank first row: IndexError
    | MissingWeekdayRow                          // the second `next(reader)`: StopIteration
    | InvalidDate(monthName: string, day: int)   // `strptime("<name> <day> 2024", "%b %d %Y")`: ValueError
    | BadDateText(text: string)                  // `strptime(text, "%Y-%m-%d")`: ValueError
    | IllegalMonth(month: int)                   // `calendar.monthcalendar`: IllegalMonthError

  /** Every record's date text is one `strptime(_, "%Y-%m-%d")` accepts. */
  predicate AllDated(s: seq<Shift>)
  {
    forall i :: 0 <= i < |s| ==> ParseIsoDate(s[i].date).Some?
  }

  /** The record's date text parses and `keep` accepts the date. */
  predicate Kept(x: Shift, keep: Date -> bool)
  {
    ParseIsoDate(x.date).Some? && keep(ParseIsoDate(x.date).value)
  }

  /**
   * `[x for x in s if keep(strptime(x["date"], "%Y-%m-%d"))]`: the records
   * whose date `keep` accepts, in their order; the comprehension stops at
   * the first date text that does not parse.
   */
  function SelectByDate(s: seq<Shift>, keep: Date -> bool): (r: Result<seq<Shift>, Error>)
    ensures r.Err? <==> !AllDated(s)
    ensures r.Ok? ==> forall x :: multiset(r.value)[x] == if Kept(x, keep) then multiset(s)[x] else 0
  {
    if s == [] then Ok([])
    else match ParseIsoDate(s[0].date)
      case None => Err(BadDateText(s[0].date))
      case Some(d) =>
        assert s == [s[0]] + s[1..];
        match SelectByDate(s[1..], keep)
        case Err(e) => Err(e)
        case Ok(rest) => Ok((if keep(d) then [s[0]] else []) + rest)
  }

  /** A selection that fails reports the first date text that does not parse. */
  lemma {:induction false} SelectFirstError(s: seq<Shift>, keep: Date -> bool)
    requires SelectByDate(s, keep).Err?
    ensures exists i :: 0 <= i < |s| && AllDated(s[..i]) && ParseIsoDate(s[i].date).None?
                        && SelectByDate(s, keep).error == BadDateText(s[i].date)
  {
    if ParseIsoDate(s[0].date).None? {
      assert s[..0] == [];
    } else {
      var t := s[1..];
      SelectFirstError(t, keep);
      var i :| 0 <= i < |t| && AllDated(t[..i]) && ParseIsoDate(t[i].date).None?
               && SelectByDate(t, keep).error == BadDateText(t[i].date);
      assert s[..i + 1] == [s[0]] + t[..i];
      AllDatedCons(s[0], t[..i]);
      assert s[i + 1] == t[i];
    }
  }

  lemma AllDatedCons(x: Shift, t: seq<Shift>)
    requires ParseIsoDate(x.date).Some? && AllDated(t)
    ensures AllDated([x] + t)
  {
    assert forall i :: 0 < i <= |t| ==> ([x] + t)[i] == t[i - 1];
  }

  /** A record is selected exactly when it is in the input and its date passes the test. */
  lemma SelectMembers(s: seq<Shift>, keep: Date -> bool)
    requires SelectByDate(s, keep).Ok?
    ensures forall x :: x in SelectByDate(s, keep).value <==> x in s && Kept(x, keep)
  {
    var r := SelectByDate(s, keep).value;
    forall x
      ensures x in r <==> x in s && Kept(x, keep)
    {
      assert x in r <==> multiset(r)[x] > 0;
      assert x in s <==> multiset(s)[x] > 0;
    }
  }
}
