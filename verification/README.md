# Roster shift import, export and month view

A Dafny model of the data-transformation core of a small nurse roster tool
(`data.py`). The model covers three functions:

- `import_calendar_from_csv` reads a wide shift grid. The first row holds the month
  abbreviation and the second the weekdays. Each later row holds an employee id and
  one cell per day of the month. The function emits one `{employee_id, date, shift}`
  record per filled cell. Each date is written in `%Y-%m-%d` form in the year 2024.
- `export_shifts_to_csv` keeps the records whose date lies within an inclusive range.
  It sorts them by `(employee_id, date)` with Python's stable `list.sort` and hands the
  CSV writer a header row plus one row per record.
- `display_calendar_shifts` selects one month's records and groups them by day as
  `employee:shift` tokens. It builds the Monday-first weeks of `calendar.monthcalendar`
  and prints a centred title, a weekday header and one line per week. Each day's cell
  shows its number and the first five characters of its tokens.

The modules are:

- `Wrappers`: `Option` and `Result`.
- `Text`: Python's str order, `join`, slicing, padding, `center` and decimal digits.
- `Dates`: the proleptic Gregorian calendar, `%b` month names, `%Y-%m-%d` parsing and
  formatting, and weekdays.
- `Shifts`: the record, the exceptions, and the date-based list comprehension.
- `CalendarImport`, `ShiftExport` and `CalendarDisplay`: the three functions.

Each loop of the source is a method proved equal to a specification function:

- `ImportSpec` for the import. Its nested loops are proved equal to a fold over
  rows of folds over cells (`RowsFold`, `RowFold`), which in turn equals collecting
  the grid's cells in order. The rows below the two headers form the body; the
  lemmas index cells by body row r, which is row r + 2 of the file.
- `ExportRecords` for the export.
- `DisplaySpec` for the month view.

The lemmas state what those functions promise.

A Python exception is an `Err` of the `Shifts.Error` datatype. The first exception the
code would raise is the one reported.

## Model

| member | source | states |
|---|---|---|
| CalendarImport.ImportCalendarFromCsv | data.py:113-144 | The nested row and cell loops return exactly ImportSpec. The errors are a missing first row, an empty first row or a missing weekday row. Otherwise the result is the records of the filled cells, or the failure at the first bad date. |
| CalendarImport.ImportRow | data.py:127-142 | Processes one row. An empty row adds nothing. Otherwise each filled cell after the employee id is collected in order, and processing stops at the first date that does not parse. |
| CalendarImport.ImportDateAccepts | data.py:134-136 | A cell's date exists exactly when `%b` reads a month from the name and the day fits that month in 2024; February has 29 days. The accepted date is valid and equals (2024, month, day). |
| CalendarImport.CollectFails | data.py:132-142 | Collecting cells fails exactly when some filled cell has no date. |
| CalendarImport.CollectRecords | data.py:132-142 | A successful collection yields one record per filled cell, in cell order. Each record carries the cell's employee id, date and text. |
| CalendarImport.CollectErrPersists | data.py:136 | Once a cell has raised, the cells after it change nothing. |
| CalendarImport.ImportIgnoresWeekdayRow | data.py:124 | The weekday row never affects the result. |
| CalendarImport.ImportFailsIffBadCell | data.py:132-136 | Given both header rows, the import fails exactly when some filled cell below them names a day that `strptime` rejects. |
| CalendarImport.ImportRecordOfCell | data.py:127-142 | A successful import holds, for each filled cell at body row r (file row r + 2) and column j, the record (row id, `2024-MM-jj`, cell text). It sits at the position given by the number of filled cells before it. |
| CalendarImport.RecordDateParses | data.py:136-140 | A record's date text parses back to the date of its cell. |
| CalendarImport.RecordsKeepGridOrder | data.py:127-133 | Records follow row order, and column order within a row: an earlier filled cell has an earlier record position. |
| CalendarImport.ImportRecordsComeFromCells | data.py:128-133 | Every record comes from a filled cell below the headers. Empty rows and empty cells emit nothing. |
| CalendarImport.ImportRows | data.py:127-142 | The outer loop over the rows below the headers equals the row-by-row fold RowsFold, which stops changing once a row has raised. |
| CalendarImport.RowsFoldCollect | data.py:127-142 | The nested row and cell loops collect exactly the grid's cells, row by row and left to right. |
| CalendarImport.RowResultCollect | data.py:128-142 | Processing one row after some cells is collecting those cells followed by the row's cells. An empty row contributes none. |
| CalendarImport.RowFoldCollect | data.py:132-142 | The cell loop over a row's first k cells continues the collection with exactly those cells. |
| CalendarImport.RowsFoldErr | data.py:136 | Once a row has raised, the later rows change nothing. |
| CalendarImport.RowFoldErr | data.py:136 | Once a cell of a row has raised, its later cells change nothing. |
| CalendarImport.GridBadCellOfFailure | data.py:132-136 | A failed grid names a filled cell whose date does not exist. |
| CalendarImport.GridFailureOfBadCell | data.py:132-136 | A filled cell whose date does not exist makes the grid fail. |
| CalendarImport.GridRecordOfCell | data.py:128-142 | In a collected grid, each filled cell's record is at the count of filled cells before it and carries the cell's id, day and text. |
| CalendarImport.GridRecordsComeFromCells | data.py:128-142 | Every record of a collected grid is the record of some filled cell. |
| CalendarImport.CollectFirstError | data.py:136 | When cell i is the first bad cell, collecting fails with the error for cell i's day, so the reported error is the one for the first such cell. |
| CalendarImport.CollectRecordAt | data.py:133-142 | The filled cell at position p becomes the record after those of the filled cells before it. |
| CalendarImport.ImportJulyExample | data.py:113-144 | The grid `Jul` / weekdays / `E001,AL,,EC` imports as the records for 1 and 3 July 2024 only. |
| Shifts.SelectByDate | data.py:162-165 | The comprehension fails exactly when some date text does not parse. On success a record is kept exactly when its date satisfies the test, as many times as it occurs. |
| Shifts.SelectFirstError | data.py:162-165 | A failed selection reports the date text of the first record whose date does not parse. Every earlier date parses. |
| Shifts.SelectMembers | data.py:162-165 | A record is selected exactly when it is in the input and its date passes the test. |
| ShiftExport.Insert | data.py:168 | Inserting into the sorted list adds exactly the one record. |
| ShiftExport.SortByKey | data.py:168 | The sort is a permutation of its input. |
| ShiftExport.KeyLessTransitive | data.py:168 | The tuple order on (employee id, date text) is transitive. |
| ShiftExport.KeyLessTrichotomous | data.py:168 | Any two keys compare: less, equal or greater. |
| ShiftExport.KeyLessIrreflexive | data.py:168 | No key is less than itself. |
| Text.LessTransitive | data.py:168 | Python's str `<` is transitive. |
| Text.LessIrreflexive | data.py:168 | No str is less than itself. |
| Text.LessAsymmetric | data.py:168 | Two strs are never each less than the other. |
| Text.LessTrichotomous | data.py:168 | Python's str `<` is total. |
| ShiftExport.SortByKeySorted | data.py:168 | The sorted list is in ascending key order. |
| ShiftExport.SortByKeyStable | data.py:168 | The sort is stable: the records with any one key keep their input order. |
| ShiftExport.SortedStableUnique | data.py:168 | Only one permutation is both in key order and stable, so the result of any stable sort is determined. |
| ShiftExport.ExportRecords | data.py:158-168 | The export fails exactly when a bound or some record's date does not parse. |
| ShiftExport.ExportKeepsExactlyTheRange | data.py:161-165 | The export keeps a record exactly when its date lies between the bounds, both included, and keeps it as often as it occurs. |
| ShiftExport.ExportIsStableSortOfRange | data.py:161-168 | The exported records are in key order. For each key they are the input's records with that key, in input order, when the key's date is in range, and none otherwise. |
| ShiftExport.ExportInDateOrder | data.py:167-168 | When every date text is zero-padded, employees come out in ascending id order, and each employee's records from earliest to latest date. |
| ShiftExport.UnpaddedDatesSortByText | data.py:164-168 | `strptime` accepts `2024-7-10` and `2024-7-9`, yet the text sort puts the 10th before the 9th. |
| ShiftExport.ExportJulyExample | data.py:158-168 | Exporting 1 to 2 July 2024 from records for E002 on 5 July and E001 on 1 July keeps only the E001 record. |
| ShiftExport.ExportShiftsToCsv | data.py:146-176 | The CSV writer receives the header and then one `[employee_id, date, shift]` row per exported record, in export order. The export's errors are passed through. |
| ShiftExport.WriteRows | data.py:171-176 | The writer loop produces the header row, then one three-field row per record, in order. |
| Dates.MonthFromAbbreviation | data.py:135-136 | `%b` reads month m exactly when the name, with trailing whitespace removed and ASCII letters lower-cased, is the m-th abbreviation. |
| Dates.AbbreviationsAreRecognised | data.py:136 | Every English abbreviation, capitalised or lower-case, reads as its own month. |
| Dates.ParseIsoDate | data.py:158-159 | Every text `strptime(_, "%Y-%m-%d")` accepts names a valid date. |
| Dates.ParseIsoDateReadsFields | data.py:158-159 | A text names date d exactly when d is valid and the text has these parts: the four year digits, a dash, a month field of one or two characters, a dash, then the day field to the end, all reading as d's fields. |
| Dates.FormatIsoDate | data.py:140 | `strftime("%Y-%m-%d")` writes 10 characters with dashes at positions 4 and 7 and zero-padded digits everywhere else (four for the year, two each for month and day). |
| Dates.FormatThenParse | data.py:140 | Parsing the written text gives back the date. |
| Dates.IsoTextOrder | data.py:168 | On written texts, str order is chronological order, and equal texts mean equal dates. |
| Text.LessAppend | data.py:168 | Strings with equal-length prefixes compare by the prefixes first. |
| Text.FourDigitsLess | data.py:140 | Zero-padded four-digit texts compare as their numbers do. |
| Text.TwoDigitsLess | data.py:140 | Zero-padded two-digit texts compare as their numbers do. |
| Dates.Weekday | data.py:208 | `calendar.weekday` is between 0 (Monday) and 6. |
| Dates.WeekdayOfNextDay | data.py:208 | From each date to the next, the weekday advances by one, modulo 7. |
| Dates.OrdinalOfNextDay | data.py:208 | Consecutive dates have consecutive day numbers. |
| Dates.DaysInMonth | data.py:136 | A month has 28 to 31 days, as `strptime` checks the day against it. |
| Dates.DaysInYear | data.py:208 | A year has 366 days when it is a leap year, and 365 otherwise. |
| Dates.FirstOfJuly2024IsMonday | data.py:208 | 1 July 2024 is a Monday. |
| CalendarDisplay.MonthShiftsDated | data.py:193-197 | Every selected record's date parses and has the requested month and year. |
| CalendarDisplay.GroupByDay | data.py:199-205 | The grouping loop builds a map with a key for each day that has a record. Each day maps to its records' `employee:shift` tokens in record order, and the map equals ByDay. |
| CalendarDisplay.TokensOnMembers | data.py:201-205 | A token is listed under day d exactly when some record of day d produced it. |
| CalendarDisplay.RecordOfToken | data.py:201-205 | Every token under day d was produced by some record of day d. |
| CalendarDisplay.MonthTokensInInputOrder | data.py:193-205 | The tokens grouped under day d are exactly the `employee:shift` texts of the input records dated on day d of the requested month and year, in input order. |
| CalendarDisplay.ByDayInInputOrder | data.py:193-205 | Each day's list in the view's day map is that day's input tokens, in input order. |
| CalendarDisplay.TokensOnAppend | data.py:199-205 | The tokens of two runs of records are those of the first run followed by those of the second. |
| CalendarDisplay.TokenOfRecord | data.py:205 | Each record's token appears under its own day. |
| CalendarDisplay.TokensOnlyOnDays | data.py:202-204 | Only days 1 to 31 can hold tokens. |
| CalendarDisplay.TokensCoverRecords | data.py:199-205 | Across days 1 to 31 there are exactly as many tokens as records, so each record is shown under exactly one day. |
| CalendarDisplay.Weeks | data.py:208 | Chunking into weeks gives rows of 7 cells, and cell (w, c) is position 7w + c of the flat list. |
| CalendarDisplay.MonthCalendarCells | data.py:208 | Week w, column c of `monthcalendar` holds day 7w + c − lead + 1 when that is a day of the month, and 0 otherwise. Here lead is the weekday of the 1st. |
| CalendarDisplay.MonthCalendarLayout | data.py:208 | A month has 4 to 6 weeks of 7 cells. Each day sits in the column of its own weekday. The 1st is in the first week, the last day in the last week. |
| CalendarDisplay.ColumnOfDay | data.py:208 | A day in column c of a week falls on weekday c. |
| CalendarDisplay.LastDayPlacement | data.py:208 | A month spans 4 to 6 weeks, and its last day sits in the last week in its weekday's column. |
| CalendarDisplay.WeekdayOfDay | data.py:208 | Day d of a month falls d − 1 weekdays after the 1st, modulo 7. |
| CalendarDisplay.July2024Weeks | data.py:208 | July 2024 has five weeks, from [1..7] to [29, 30, 31, 0, 0, 0, 0]. |
| CalendarDisplay.CellText | data.py:221 | A cell's text has at most 5 characters. It is a single space for a day with no records. Otherwise it is the first token cut to 5 characters, or starts with the whole first token when that is shorter. |
| CalendarDisplay.CellTextOfTokens | data.py:221 | For a day with records, the cell's text is the first min(5, n) characters of the day's tokens joined by newlines, n being the joined length. With two or more tokens, the first token is followed by a newline and the second, up to 5 characters in all. |
| CalendarDisplay.CellTextSharedDay | data.py:221 | Tokens `AB` and `CD` on one day show as `AB\nCD`. |
| Text.JoinStartsWithFirstTwo | data.py:221 | `sep.join(parts)` starts with the first part, the separator and the second part. |
| Text.JoinStartsWithFirst | data.py:221 | `"\n".join(tokens)` starts with the first token. |
| Text.Take | data.py:221 | `s[:n]` is the prefix of length min(n, len s). |
| Text.PadLeft | data.py:222 | `f"{day:2}"` right-aligns the number in at least 2 columns. |
| Text.PadRight | data.py:222 | `f"{shifts:5}"` left-aligns the text in at least 5 columns. |
| Text.NumberOfDecimal | data.py:222 | `str(n)` reads back as n; `str(n)` of a positive n has no leading zero (ensures of `Text.Decimal`). |
| CalendarDisplay.SegmentOfDay | data.py:222 | A day's segment is 9 characters: the right-aligned day number (which reads back as the day), a space, the cell text left-aligned in 5 columns with spaces after it, and a space. |
| CalendarDisplay.WeekLineLength | data.py:214-222 | A week's line has 5 characters per blank cell plus 9 per day. |
| CalendarDisplay.RenderWeek | data.py:215-222 | The day loop builds the week's line, one segment per cell, left to right. |
| CalendarDisplay.RenderWeeks | data.py:213-223 | The week loop produces one line per week, in order. |
| CalendarDisplay.WeekLinesSnoc | data.py:213-223 | The lines of one more week are the earlier weeks' lines followed by its own. |
| Text.Center | data.py:210 | `center(30)` keeps a text of 30 or more characters unchanged. A shorter text gets spaces on both sides that total the missing width and differ by at most one. The extra space goes left only when both margin and width are odd. |
| Text.IntText | data.py:210 | `str(n)`, used for the year in the title and the day in each segment, is the decimal digits, preceded by a minus sign when n is negative. |
| CalendarDisplay.DisplayCalendarShifts | data.py:180-223 | The whole view equals DisplaySpec: select, group, build the weeks, then the title, the weekday header and the week lines. |
| CalendarDisplay.DisplayFails | data.py:193-208 | The view fails exactly when a date text does not parse or the month is outside 1 to 12. A bad date is reported before an illegal month. |
| CalendarDisplay.DisplayShowsMonth | data.py:207-223 | When every date parses and the month is 1 to 12, the view succeeds. It has 6 to 8 lines: the title, the weekday header, and one line per week of `monthcalendar`. Every selected record is counted under one day. |

## Left out

- The SQLite layer is not modelled: `create_connection`, `close_connection`, `create_tables`, `add_nurse`, `get_all_nurses`, `load_csv` and `fetch_shifts_from_db`. Neither are `SHIFT_GROUPS` and the menu in `main.py`. They are storage and interactive glue.
- File access and the `csv` module are not modelled. The import takes the grid as a list of rows of cell texts, as `csv.reader` would yield them. The export returns the rows it would hand to `csv.writer`. Quoting, line endings and file errors are not modelled.
- `export_shifts_to_csv` reads `shift_data`, a name the function never defines, so as written it raises NameError. The model takes the records as a parameter.
- `display_calendar_shifts` obtains its records from `fetch_shifts_from_db('2024-07-1', '2024-07-31')`. The model takes them as a parameter. The fetched dicts use the keys `nurse_id`, `shift_date` and `shift_type`, so `shift["date"]` would raise KeyError on any fetched row. The model assumes records keyed as the import emits them.
- Output goes to the screen through `print`. The model returns the printed lines instead: the title, the header and the week lines. The leading newline of the title is kept inside the title line. The export's closing message is not modelled.
- Locale: month names and abbreviations are those of the C locale. `%b` is modelled with ASCII case folding only. Non-ASCII digits, which Python's `\d` also matches, are not modelled.
- The import's year is fixed at 2024, as in the code. The system's design calls for a year parameter and a distinct malformed-input error; the model follows the code and adds neither.
- A start date after the end date yields an empty export, as in the code. The design's range error for that case is not raised. The sort compares date texts, as the code does, where the design asks for chronological order. The two agree only on zero-padded texts (ExportInDateOrder, UnpaddedDatesSortByText).
- `list.sort` is modelled by a stable insertion sort on values. SortedStableUnique shows that any stable sort gives the same list. Timsort's in-place mechanics are not modelled.
- `%Y` is written with four digits. This matches the only year the import formats (2024). Platform differences in `strftime` for years below 1000 are not modelled.
- A day's cell text can contain a newline from the join. This is kept in the line text; how a terminal would then display the line is not modelled.
