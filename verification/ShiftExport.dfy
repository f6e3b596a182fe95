/**
 * `export_shifts_to_csv`: keep the records dated within an inclusive range,
 * sort them by (employee id, date text) with Python's stable `list.sort`,
 * and lay them out as CSV rows under a fixed header.
 */
module ShiftExport {
  import opened Wrappers
  import opened Dates
  import opened Shifts
  import Text

  // ---------------------------------------------------------------------
  // The sort key and its order.

  /** The key `(x["employee_id"], x["date"])` the export sorts by. */
  datatype SortKey = SortKey(employeeId: string, date: string)

  function KeyOf(x: Shift): SortKey
  {
    SortKey(x.employeeId, x.date)
  }

  /** Python's `<` on the key tuples: the employee ids first, then the date texts. */
  predicate KeyLess(a: SortKey, b: SortKey)
  {
    Text.Less(a.employeeId, b.employeeId) || (a.employeeId == b.employeeId && Text.Less(a.date, b.date))
  }

  lemma KeyLessIrreflexive(a: SortKey)
    ensures !KeyLess(a, a)
  {
    Text.LessIrreflexive(a.employeeId);
    Text.LessIrreflexive(a.date);
  }

  lemma KeyLessTransitive(a: SortKey, b: SortKey, c: SortKey)
    requires KeyLess(a, b) && KeyLess(b, c)
    ensures KeyLess(a, c)
  {
    if Text.Less(a.employeeId, b.employeeId) && Text.Less(b.employeeId, c.employeeId) {
      Text.LessTransitive(a.employeeId, b.employeeId, c.employeeId);
    } else if a.employeeId == b.employeeId == c.employeeId {
      Text.LessTransitive(a.date, b.date, c.date);
    }
  }

  lemma KeyLessTrichotomous(a: SortKey, b: SortKey)
    ensures KeyLess(a, b) || a == b || KeyLess(b, a)
  {
    Text.LessTrichotomous(a.employeeId, b.employeeId);
    Text.LessTrichotomous(a.date, b.date);
  }

  /** "Not after" is transitive, so pairwise order follows from local order. */
  lemma NotLessTransitive(a: SortKey, b: SortKey, c: SortKey)
    requires !KeyLess(b, a) && !KeyLess(c, b)
    ensures !KeyLess(c, a)
  {
    KeyLessTrichotomous(a, b);
    KeyLessTrichotomous(b, c);
    if KeyLess(c, a) {
      if KeyLess(a, b) && KeyLess(b, c) {
        KeyLessTransitive(a, b, c);
        KeyLessTransitive(a, c, a);
        KeyLessIrreflexive(a);
      } else if KeyLess(a, b) {
        KeyLessTransitive(a, b, a);
        KeyLessIrreflexive(a);
      } else if KeyLess(b, c) {
        KeyLessTransitive(b, c, b);
        KeyLessIrreflexive(b);
      } else {
        KeyLessIrreflexive(a);
      }
    }
  }

  /** Ascending order: no record has a key smaller than an earlier one's. */
  predicate SortedByKey(s: seq<Shift>)
  {
    forall i, j :: 0 <= i < j < |s| ==> !KeyLess(KeyOf(s[j]), KeyOf(s[i]))
  }

  /** The records of `s` whose key is `k`, in their order in `s`. */
  function WithKey(s: seq<Shift>, k: SortKey): seq<Shift>
  {
    if s == [] then [] else (if KeyOf(s[0]) == k then [s[0]] else []) + WithKey(s[1..], k)
  }

  lemma {:induction false} WithKeyMembers(s: seq<Shift>, k: SortKey, x: Shift)
    requires x in WithKey(s, k)
    ensures x in s && KeyOf(x) == k
  {
    if s != [] && !(KeyOf(s[0]) == k && x == s[0]) {
      WithKeyMembers(s[1..], k, x);
    }
  }

  // ---------------------------------------------------------------------
  // A stable sort: insertion sort, each record placed after every record
  // with a smaller key and before the ones with an equal or larger key that
  // followed it in the input.

  function Insert(x: Shift, s: seq<Shift>): (r: seq<Shift>)
    ensures multiset(r) == multiset(s) + multiset{x}
  {
    if s == [] then [x]
    else if KeyLess(KeyOf(s[0]), KeyOf(x)) then (assert s == [s[0]] + s[1..]; [s[0]] + Insert(x, s[1..]))
    else [x] + s
  }

  /** `sorted(s, key=lambda x: (x["employee_id"], x["date"]))`. */
  function SortByKey(s: seq<Shift>): (r: seq<Shift>)
    ensures multiset(r) == multiset(s)
  {
    if s == [] then [] else (assert s == [s[0]] + s[1..]; Insert(s[0], SortByKey(s[1..])))
  }

  lemma {:induction false} InsertSorted(x: Shift, s: seq<Shift>)
    requires SortedByKey(s)
    ensures SortedByKey(Insert(x, s))
  {
    if s == [] {
    } else if KeyLess(KeyOf(s[0]), KeyOf(x)) {
      InsertSorted(x, s[1..]);
      InsertSortedAfterHead(x, s);
    } else {
      InsertSortedInFront(x, s);
    }
  }

  /** Inserting past the head keeps the order, given the insertion into the tail keeps it. */
  lemma InsertSortedAfterHead(x: Shift, s: seq<Shift>)
    requires s != [] && KeyLess(KeyOf(s[0]), KeyOf(x))
    requires SortedByKey(s) && SortedByKey(Insert(x, s[1..]))
    ensures SortedByKey(Insert(x, s))
  {
    var t := Insert(x, s[1..]);
    InsertedNotBelowHead(x, s);
    var r := [s[0]] + t;
    assert Insert(x, s) == r;
    forall i, j | 0 <= i < j < |r|
      ensures !KeyLess(KeyOf(r[j]), KeyOf(r[i]))
    {
      if i > 0 {
        assert r[i] == t[i - 1] && r[j] == t[j - 1];
      } else {
        assert r[0] == s[0] && r[j] == t[j - 1];
        assert !KeyLess(KeyOf(t[j - 1]), KeyOf(s[0]));
      }
    }
  }

  /** Nothing inserted into the tail has a key below the head's, when `x`'s key is above it. */
  lemma InsertedNotBelowHead(x: Shift, s: seq<Shift>)
    requires s != [] && KeyLess(KeyOf(s[0]), KeyOf(x)) && SortedByKey(s)
    ensures forall j :: 0 <= j < |Insert(x, s[1..])| ==> !KeyLess(KeyOf(Insert(x, s[1..])[j]), KeyOf(s[0]))
  {
    var t := Insert(x, s[1..]);
    forall j | 0 <= j < |t|
      ensures !KeyLess(KeyOf(t[j]), KeyOf(s[0]))
    {
      assert t[j] in multiset(t);
      if t[j] == x {
        if KeyLess(KeyOf(x), KeyOf(s[0])) {
          KeyLessTransitive(KeyOf(x), KeyOf(s[0]), KeyOf(x));
          KeyLessIrreflexive(KeyOf(x));
        }
      } else {
        assert t[j] in multiset(s[1..]);
        var i :| 0 <= i < |s[1..]| && s[1..][i] == t[j];
        assert s[i + 1] == t[j];
      }
    }
  }

  /** A record whose key is not above the head's goes in front, and the order holds. */
  lemma InsertSortedInFront(x: Shift, s: seq<Shift>)
    requires s != [] && !KeyLess(KeyOf(s[0]), KeyOf(x)) && SortedByKey(s)
    ensures SortedByKey(Insert(x, s))
  {
    var r := [x] + s;
    assert Insert(x, s) == r;
    forall i, j | 0 <= i < j < |r|
      ensures !KeyLess(KeyOf(r[j]), KeyOf(r[i]))
    {
      if i == 0 {
        if j > 1 {
          NotLessTransitive(KeyOf(x), KeyOf(s[0]), KeyOf(s[j - 1]));
        }
      } else {
        assert r[i] == s[i - 1] && r[j] == s[j - 1];
      }
    }
  }

  /** Records with the key `k` keep their input order through an insertion. */
  lemma WithKeyCons(y: Shift, t: seq<Shift>, k: SortKey)
    ensures WithKey([y] + t, k) == (if KeyOf(y) == k then [y] else []) + WithKey(t, k)
  {
    assert ([y] + t)[1..] == t;
  }

  lemma {:induction false} InsertWithKey(x: Shift, s: seq<Shift>, k: SortKey)
    ensures WithKey(Insert(x, s), k) == (if KeyOf(x) == k then [x] else []) + WithKey(s, k)
  {
    if s == [] {
      WithKeyCons(x, [], k);
    } else if KeyLess(KeyOf(s[0]), KeyOf(x)) {
      InsertWithKey(x, s[1..], k);
      InsertAfterHead(x, s, k);
    } else {
      WithKeyCons(x, s, k);
    }
  }

  lemma InsertAfterHead(x: Shift, s: seq<Shift>, k: SortKey)
    requires s != [] && KeyLess(KeyOf(s[0]), KeyOf(x))
    requires WithKey(Insert(x, s[1..]), k) == (if KeyOf(x) == k then [x] else []) + WithKey(s[1..], k)
    ensures WithKey(Insert(x, s), k) == (if KeyOf(x) == k then [x] else []) + WithKey(s, k)
  {
    var t := Insert(x, s[1..]);
    assert Insert(x, s) == [s[0]] + t;
    WithKeyCons(s[0], t, k);
    WithKeyCons(s[0], s[1..], k);
    assert s == [s[0]] + s[1..];
    var rest := WithKey(s[1..], k);
    if KeyOf(x) == k {
      KeyLessIrreflexive(k);
      assert KeyOf(s[0]) != k;
      assert WithKey(t, k) == [x] + rest;
      assert WithKey(s, k) == rest;
    } else if KeyOf(s[0]) == k {
      assert WithKey(t, k) == rest;
      assert WithKey(Insert(x, s), k) == [s[0]] + rest;
    } else {
      assert WithKey(t, k) == rest;
    }
  }

  /** The sort yields ascending order. */
  lemma {:induction false} SortByKeySorted(s: seq<Shift>)
    ensures SortedByKey(SortByKey(s))
  {
    if s != [] {
      SortByKeySorted(s[1..]);
      InsertSorted(s[0], SortByKey(s[1..]));
    }
  }

  /** The sort is stable: records with equal keys keep their input order. */
  lemma {:induction false} SortByKeyStable(s: seq<Shift>, k: SortKey)
    ensures WithKey(SortByKey(s), k) == WithKey(s, k)
  {
    if s != [] {
      SortByKeyStable(s[1..], k);
      InsertWithKey(s[0], SortByKey(s[1..]), k);
    }
  }

  /**
   * Ascending order and the order within each key determine a sequence:
   * every stable sort (Python's Timsort among them) gives what SortByKey
   * gives.
   */
  lemma {:induction false} SortedStableUnique(a: seq<Shift>, b: seq<Shift>)
    requires SortedByKey(a) && SortedByKey(b)
    requires forall k :: WithKey(a, k) == WithKey(b, k)
    ensures a == b
  {
    if a != [] {
      assert WithKey(a, KeyOf(a[0]))[0] == a[0];
    }
    if b != [] {
      assert WithKey(b, KeyOf(b[0]))[0] == b[0];
    }
    if a != [] && b != [] {
      var ka, kb := KeyOf(a[0]), KeyOf(b[0]);
      assert WithKey(a, ka)[0] == a[0];
      assert WithKey(b, kb)[0] == b[0];
      WithKeyMembers(b, ka, WithKey(b, ka)[0]);
      WithKeyMembers(a, kb, WithKey(a, kb)[0]);
      KeyLessIrreflexive(ka);
      KeyLessIrreflexive(kb);
      KeyLessTrichotomous(ka, kb);
      assert ka == kb;
      assert a[0] == b[0];
      forall k
        ensures WithKey(a[1..], k) == WithKey(b[1..], k)
      {
        var head := if KeyOf(a[0]) == k then [a[0]] else [];
        assert WithKey(a, k) == head + WithKey(a[1..], k);
        assert WithKey(b, k) == head + WithKey(b[1..], k);
        assert WithKey(a[1..], k) == WithKey(a, k)[|head|..];
        assert WithKey(b[1..], k) == WithKey(b, k)[|head|..];
      }
      SortedStableUnique(a[1..], b[1..]);
      assert a == [a[0]] + a[1..] && b == [b[0]] + b[1..];
    }
  }

  // ---------------------------------------------------------------------
  // The range filter and the export.

  /** `start_date <= date <= end_date`, both ends included. */
  predicate InRange(start: Date, end: Date, d: Date)
  {
    DateLe(start, d) && DateLe(d, end)
  }

  function RangeFilter(start: Date, end: Date): Date -> bool
  {
    d => InRange(start, end, d)
  }

  /**
   * The records the export writes, in the order it writes them: both bounds
   * and every record's date are parsed, the records in range are kept, and
   * then sorted by key.
   */
  function ExportRecords(shiftData: seq<Shift>, startDate: string, endDate: string): (r: Result<seq<Shift>, Error>)
    ensures r.Err? <==> ParseIsoDate(startDate).None? || ParseIsoDate(endDate).None? || !AllDated(shiftData)
  {
    match ParseIsoDate(startDate)
    case None => Err(BadDateText(startDate))
    case Some(start) =>
      match ParseIsoDate(endDate)
      case None => Err(BadDateText(endDate))
      case Some(end) =>
        match SelectByDate(shiftData, RangeFilter(start, end))
        case Err(e) => Err(e)
        case Ok(kept) => Ok(SortByKey(kept))
  }

  /** The selection keeps the records of each key in input order, or drops them all. */
  lemma {:induction false} SelectWithKey(s: seq<Shift>, keep: Date -> bool, k: SortKey)
    requires SelectByDate(s, keep).Ok?
    ensures WithKey(SelectByDate(s, keep).value, k)
         == if ParseIsoDate(k.date).Some? && keep(ParseIsoDate(k.date).value) then WithKey(s, k) else []
  {
    if s != [] {
      SelectWithKey(s[1..], keep, k);
      var kept := SelectByDate(s, keep).value;
      var rest := SelectByDate(s[1..], keep).value;
      if keep(ParseIsoDate(s[0].date).value) {
        assert kept == [s[0]] + rest;
        assert kept[1..] == rest;
      } else {
        assert kept == rest;
      }
    }
  }

  /** The date of a record the export keeps, when the bounds parse. */
  predicate InRangeText(startDate: string, endDate: string, text: string)
  {
    ParseIsoDate(startDate).Some? && ParseIsoDate(endDate).Some? && ParseIsoDate(text).Some?
    && InRange(ParseIsoDate(startDate).value, ParseIsoDate(endDate).value, ParseIsoDate(text).value)
  }

  /**
   * The export keeps a record exactly when its date lies within the bounds,
   * both included, and keeps it as often as it occurs.
   */
  lemma ExportKeepsExactlyTheRange(shiftData: seq<Shift>, startDate: string, endDate: string)
    requires ExportRecords(shiftData, startDate, endDate).Ok?
    ensures var out := ExportRecords(shiftData, startDate, endDate).value;
            forall x :: multiset(out)[x] == if InRangeText(startDate, endDate, x.date) then multiset(shiftData)[x] else 0
  {
  }

  /**
   * The export's records are the stable ascending sort of the records in
   * range: ordered by key, and within one key in input order.
   */
  lemma ExportIsStableSortOfRange(shiftData: seq<Shift>, startDate: string, endDate: string)
    requires ExportRecords(shiftData, startDate, endDate).Ok?
    ensures SortedByKey(ExportRecords(shiftData, startDate, endDate).value)
    ensures forall k :: WithKey(ExportRecords(shiftData, startDate, endDate).value, k)
                        == if InRangeText(startDate, endDate, k.date) then WithKey(shiftData, k) else []
  {
    var start, end := ParseIsoDate(startDate).value, ParseIsoDate(endDate).value;
    var kept := SelectByDate(shiftData, RangeFilter(start, end)).value;
    SortByKeySorted(kept);
    forall k
      ensures WithKey(SortByKey(kept), k) == if InRangeText(startDate, endDate, k.date) then WithKey(shiftData, k) else []
    {
      SortByKeyStable(kept, k);
      SelectWithKey(shiftData, RangeFilter(start, end), k);
    }
  }

  /** A date text in the zero-padded form the import writes. */
  predicate PaddedDate(x: Shift)
  {
    ParseIsoDate(x.date).Some? && FormatIsoDate(ParseIsoDate(x.date).value) == x.date
  }

  /** `x` may precede `y`: its employee id is not larger, and for the same employee its date is not later. */
  predicate InEmployeeDateOrder(x: Shift, y: Shift)
  {
    !Text.Less(y.employeeId, x.employeeId)
    && (x.employeeId == y.employeeId ==>
          ParseIsoDate(x.date).Some? && ParseIsoDate(y.date).Some?
          && DateLe(ParseIsoDate(x.date).value, ParseIsoDate(y.date).value))
  }

  /**
   * When every date text is zero-padded, as the import writes them, the
   * export lists employees in ascending id order and each employee's
   * records from the earliest date to the latest.
   */
  lemma ExportInDateOrder(shiftData: seq<Shift>, startDate: string, endDate: string)
    requires ExportRecords(shiftData, startDate, endDate).Ok?
    requires forall i :: 0 <= i < |shiftData| ==> PaddedDate(shiftData[i])
    ensures var out := ExportRecords(shiftData, startDate, endDate).value;
            forall i, j :: 0 <= i < j < |out| ==>
              InEmployeeDateOrder(out[i], out[j])
  {
    var out := ExportRecords(shiftData, startDate, endDate).value;
    ExportIsStableSortOfRange(shiftData, startDate, endDate);
    ExportKeepsExactlyTheRange(shiftData, startDate, endDate);
    forall k | 0 <= k < |out|
      ensures PaddedDate(out[k])
    {
      assert multiset(out)[out[k]] > 0;
      assert out[k] in shiftData;
    }
    SortedInDateOrder(out);
  }

  lemma SortedInDateOrder(out: seq<Shift>)
    requires SortedByKey(out) && forall k :: 0 <= k < |out| ==> PaddedDate(out[k])
    ensures forall i, j :: 0 <= i < j < |out| ==>
              InEmployeeDateOrder(out[i], out[j])
  {
    forall i, j | 0 <= i < j < |out|
      ensures InEmployeeDateOrder(out[i], out[j])
    {
      InDateOrder(out[i], out[j]);
    }
  }

  /** Two records in key order, with zero-padded dates, are in employee order and then in date order. */
  lemma InDateOrder(x: Shift, y: Shift)
    requires PaddedDate(x) && PaddedDate(y) && !KeyLess(KeyOf(y), KeyOf(x))
    ensures InEmployeeDateOrder(x, y)
  {
    IsoTextOrder(ParseIsoDate(y.date).value, ParseIsoDate(x.date).value);
  }

  /**
   * The sort compares date texts, not dates: two dates `strptime` accepts
   * without zero padding sort July 10th before July 9th.
   */
  lemma UnpaddedDatesSortByText()
    ensures ParseIsoDate("2024-7-10") == Some(Date(2024, 7, 10))
    ensures ParseIsoDate("2024-7-9") == Some(Date(2024, 7, 9))
    ensures KeyLess(SortKey("E1", "2024-7-10"), SortKey("E1", "2024-7-9"))
  {
    UnpaddedDateParses("2024-7-10", 10);
    UnpaddedDateParses("2024-7-9", 9);
    var late, early := "2024-7-10", "2024-7-9";
    Text.LessIrreflexive("E1");
    assert late[..7] == early[..7];
    Text.LessAppend(late[..7], late[7..], early[..7], early[7..]);
    assert late == late[..7] + late[7..] && early == early[..7] + early[7..];
    Text.LessIrreflexive(late[..7]);
  }

  lemma UnpaddedDateParses(s: string, day: int)
    requires (s == "2024-7-10" && day == 10) || (s == "2024-7-9" && day == 9)
    ensures ParseIsoDate(s) == Some(Date(2024, 7, day))
  {
    Text.NumberOfFourDigits(2024);
    assert Text.FourDigits(2024) == "2024";
    assert s[..4] == "2024";
    assert s[5..][..1] == "7";
    if day == 10 {
      assert s[5..][2..] == "10";
    } else {
      assert s[5..][2..] == "9";
    }
  }

  const EXPORT_HEADER: seq<string> := ["Employee ID", "Date", "Shift"]

  /**
   * `export_shifts_to_csv(shift_data, start_date, end_date, _)`: the rows the
   * CSV writer receives, the header first and then one row per exported
   * record.
   */
  method ExportShiftsToCsv(shiftData: seq<Shift>, startDate: string, endDate: string)
    returns (r: Result<seq<seq<string>>, Error>)
    ensures ExportRecords(shiftData, startDate, endDate).Err? ==> r == Err(ExportRecords(shiftData, startDate, endDate).error)
    ensures ExportRecords(shiftData, startDate, endDate).Ok? ==>
              var out := ExportRecords(shiftData, startDate, endDate).value;
              r.Ok? && |r.value| == |out| + 1 && r.value[0] == EXPORT_HEADER
              && forall i :: 0 <= i < |out| ==> r.value[i + 1] == [out[i].employeeId, out[i].date, out[i].shift]
  {
    var start := ParseIsoDate(startDate);
    if start.None? {
      return Err(BadDateText(startDate));
    }
    var end := ParseIsoDate(endDate);
    if end.None? {
      return Err(BadDateText(endDate));
    }
    var filtered := SelectByDate(shiftData, RangeFilter(start.value, end.value));
    if filtered.Err? {
      assert ExportRecords(shiftData, startDate, endDate) == Err(filtered.error);
      return Err(filtered.error);
    }
    var sorted := SortByKey(filtered.value);
    assert ExportRecords(shiftData, startDate, endDate) == Ok(sorted);
    var rows := WriteRows(sorted);
    return Ok(rows);
  }

  /** The writer loop: the header row, then `[employee_id, date, shift]` per record. */
  method WriteRows(records: seq<Shift>) returns (rows: seq<seq<string>>)
    ensures |rows| == |records| + 1 && rows[0] == EXPORT_HEADER
    ensures forall i :: 0 <= i < |records| ==> rows[i + 1] == [records[i].employeeId, records[i].date, records[i].shift]
  {
    rows := [EXPORT_HEADER];
    for i := 0 to |records|
      invariant |rows| == i + 1 && rows[0] == EXPORT_HEADER
      invariant forall j :: 0 <= j < i ==> rows[j + 1] == [records[j].employeeId, records[j].date, records[j].shift]
    {
      rows := rows + [[records[i].employeeId, records[i].date, records[i].shift]];
    }
  }

  /**
   * Exporting 1 to 2 July 2024 from `[(E002, 5 July, O), (E001, 1 July, AL)]`
   * keeps only the E001 record.
   */
  lemma ExportJulyExample()
    ensures ExportRecords([Shift("E002", "2024-07-05", "O"), Shift("E001", "2024-07-01", "AL")], "2024-07-01", "2024-07-02")
            == Ok([Shift("E001", "2024-07-01", "AL")])
  {
    JulyTexts();
    var s := [Shift("E002", "2024-07-05", "O"), Shift("E001", "2024-07-01", "AL")];
    var keep := RangeFilter(Date(2024, 7, 1), Date(2024, 7, 2));
    assert s[1..][1..] == [];
    assert SelectByDate(s[1..][1..], keep) == Ok([]);
    assert s[1..][0] == s[1] && ParseIsoDate(s[1].date) == Some(Date(2024, 7, 1));
    assert keep(Date(2024, 7, 1)) && !keep(Date(2024, 7, 5));
    assert [s[1]] + [] == [s[1]];
    assert SelectByDate(s[1..], keep) == Ok([s[1]]);
    assert ParseIsoDate(s[0].date) == Some(Date(2024, 7, 5));
    assert [] + [s[1]] == [s[1]];
    assert SelectByDate(s, keep) == Ok([s[1]]);
    assert SortByKey([s[1]]) == [s[1]];
  }

  lemma JulyTexts()
    ensures ParseIsoDate("2024-07-01") == Some(Date(2024, 7, 1))
    ensures ParseIsoDate("2024-07-02") == Some(Date(2024, 7, 2))
    ensures ParseIsoDate("2024-07-05") == Some(Date(2024, 7, 5))
  {
    FormatThenParse(Date(2024, 7, 1));
    FormatThenParse(Date(2024, 7, 2));
    FormatThenParse(Date(2024, 7, 5));
    assert FormatIsoDate(Date(2024, 7, 1)) == "2024-07-01";
    assert FormatIsoDate(Date(2024, 7, 2)) == "2024-07-02";
    assert FormatIsoDate(Date(2024, 7, 5)) == "2024-07-05";
  }
}
