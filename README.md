# stmp — a work-time ledger, modelled in Dafny

stmp records a working day as a row of the `work_hours` table: its date
(`YYYY-MM-DD`, the key), a start time, an end time and a break in minutes,
each of which may be absent. Free-text notes sit in a second table, `notes`,
keyed by an integer id and tagged with a date. The `add` command merges a
partial update into the day's row. Overwriting is the default: every given
field replaces the stored one. The flag `--overwrite` is parsed with
`type=bool` and defaults to true, so only a falsy value such as `-o ""`
selects the fill-gaps rule, which never replaces a stored value. `rm`
deletes a note or a day. `show` lists one date, a month, a year or
everything, in date order, optionally with each day's notes, and formats the
list as JSON, a GitHub table or Markdown. `check` reports every missing
field. The expected outputs of the tests also show derived columns: working
time, daily overtime against a 7.8-hour day, and the running overtime
balance; the model computes them as those outputs show.

The model is split by concern:

- `records.dfy` (module `Records`): the stored rows, notes, derived columns,
  query entries and errors, as datatypes.
- `merge.dfy` (module `MergePolicy`): the three writers `update_work_hours`
  chooses from. They are pure per-field rules.
- `overtime.dfy` (module `Overtime`): `HH:MM` parsing, working minutes, and
  the forward pass that produces overtime and the running balance.
- `datekeys.dfy` (module `DateKeys`): the date order of the `order_by="date"`
  queries, which is plain lexicographic order on the key strings. It also
  holds the sorted listing of the stored keys.
- `selector.dfy` (module `Selector`): what every `show_*` query returns, as a
  function of the two tables.
- `ledger.dfy` (module `Ledger`): class `Stmp`. Its field `workHours` is a map
  from date to row; its field `notes` is the notes table in ascending id
  order. The add and remove methods change the tables and carry `modifies`
  clauses; the show and check methods only read them.
- `formatter.dfy` (module `Formatter`): the formatter factory, the row
  flattening of the table formatter (everything before `tabulate`), and the
  Markdown formatter.

All times are whole minutes: 468 minutes is the 7.8-hour day, and -18 minutes
is the -0.3 hours the tests display.

## Model

| member | source | states |
|---|---|---|
| MergePolicy.FirstPresent | stmp/stmp.py:273-277 | The kept value is the first one when it is present, the second otherwise. |
| MergePolicy.InsertRecord | stmp/stmp.py:204-225 | A new row holds the update's three fields as given; absent fields stay absent. |
| MergePolicy.OverwriteUpsert | stmp/stmp.py:257-286 | Every field the update gives appears in the result; every field it omits keeps the stored value. |
| MergePolicy.NoOverwriteUpsert | stmp/stmp.py:288-321 | Every stored field that is present survives unchanged; only absent stored fields take the update's value. |
| MergePolicy.Merge | stmp/stmp.py:154-192 | With no stored row the update is stored as is. Otherwise the overwrite flag picks which side's present fields win, and every field that side leaves absent takes the other side's value. Each field of the result is present iff it was present on either side. |
| MergePolicy.OverwriteIdempotent | stmp/stmp.py:257-286 | Repeating an overwriting update changes nothing more. |
| MergePolicy.NoOverwriteIdempotent | stmp/stmp.py:288-321 | Repeating a fill-gaps update changes nothing more. |
| MergePolicy.ModesAreMirrored | stmp/stmp.py:273-277 | The fill-gaps rule equals the overwrite rule with stored row and update exchanged. |
| MergePolicy.OverwriteComposes | stmp/stmp.py:257-286 | Two overwriting updates equal one update that is the first overwritten by the second. |
| MergePolicy.MergeOntoEmptyRow | stmp/stmp.py:323-349 | Merging onto the all-absent row a first note creates stores what merging with no row would, in both modes. |
| MergePolicy.NoOverwriteFixesCompleteRow | stmp/stmp.py:308-312 | A complete row is a fixed point of every fill-gaps update. |
| MergePolicy.StoredStartSurvives | tests/stmp_test.py:76-91 | The test's stored 07:00 start survives an incoming 12:00 without overwrite; with overwrite, 12:00 replaces it and the other fields stay. |
| Overtime.ClockMinutes | tests/stmp_test.py:301-306 | A time has a minute value exactly when it is a well-formed `HH:MM` (00-23, 00-59), and the value lies in 0..1439. |
| Overtime.ClockRoundTrip | tests/stmp_test.py:301-306 | Parsing the `HH:MM` text of any minute of the day gives that minute back. |
| Overtime.TextRoundTrip | tests/stmp_test.py:301-306 | Every well-formed time string is the text of its own minute value. |
| Overtime.WorkingMinutes | tests/stmp_test.py:301-306 | Working time exists iff start, end and break are all present and both times parse. It then equals end − start − break, negative values included. |
| Overtime.Total | tests/stmp_test.py:301-306 | The independent sum of daily overtime is 0 when no day is complete. |
| Overtime.Derive | tests/stmp_test.py:301-306 | The forward pass gives one derived triple per day of the history. |
| Overtime.DeriveDaily | tests/stmp_test.py:301-306 | Each day reports its working time, and its overtime (working − expected) exactly when the day is complete. |
| Overtime.BalanceIsTotal | tests/stmp_test.py:301-306 | The balance a day reports is the carried-in balance plus the overtime of every complete day up to and including it. |
| Overtime.CarryForward | tests/stmp_test.py:303-306 | An incomplete day repeats the previous balance; a complete day has an overtime and adds it to the balance. |
| Overtime.TotalSnoc | tests/stmp_test.py:301-306 | The sum of daily overtime splits off its last day. |
| Overtime.BalanceAcrossGap | tests/stmp_test.py:305-306 | Across a run of incomplete days the balance equals that of the last day before the run. |
| Overtime.NoCompleteDayNoBalance | tests/stmp_test.py:301-306 | Before the first complete day the balance is 0. |
| Overtime.TestScenario | tests/stmp_test.py:301-306 | The test's three days give 450/−18/−18, 430/−38/−56, and none/none/−56 minutes. |
| DateKeys.SortedKeys | stmp/stmp.py:497-499 | The listing holds exactly the stored keys, once each, strictly ascending. |
| DateKeys.AscendingUnique | stmp/stmp.py:497-499 | Two strictly ascending listings with the same members are equal, so the date order is one order. |
| DateKeys.ListAscending | stmp/stmp.py:497-499 | The method's key listing is the sorted listing of the key set. |
| DateKeys.LessTotal | stmp/stmp.py:456-458 | Two distinct keys are always ordered one way or the other. |
| DateKeys.LessTransitive | stmp/stmp.py:456-458 | The key order is transitive. |
| DateKeys.MonthPrefix | stmp/stmp.py:456-458 | The pattern of a month query is `{year}-{month}-`: it extends the year pattern, holds the month between the dashes and ends in a dash. |
| DateKeys.YearPrefix | stmp/stmp.py:478-480 | The pattern of a year query is the year followed by one dash. |
| Selector.Matches | stmp/stmp.py:428-480 | A month query only matches dates the year query of the same year matches; a year query only matches dates that start with the year and a dash. |
| Selector.RowsCover | stmp/stmp.py:497-499 | Every listed key has a row among the rows read for the listing. |
| Selector.SortedRowsAscending | stmp/stmp.py:497-499 | The rows read for the sorted key listing are strictly ascending by date. |
| Selector.History | stmp/stmp.py:497-499 | The whole table in date order: one day per stored key, each with its stored row, strictly ascending. |
| Selector.Window | stmp/stmp.py:435-503 | Filtering returns at most the days it is given, none of them with a notes field. |
| Selector.NotesFor | stmp/stmp.py:519-526 | The notes of a day are among the notes of the table, each with that date. |
| Selector.AttachNotes | stmp/stmp.py:505-528 | Every entry, in order, gains the notes of exactly its date and keeps everything else. |
| Selector.WindowSound | stmp/stmp.py:456-458 | Every returned entry is a stored day that the filter matches, with that day's derived columns. |
| Selector.WindowComplete | stmp/stmp.py:477-480 | Every stored day the filter matches is returned. |
| Selector.WindowAscending | stmp/stmp.py:456-458 | Filtering keeps date order. |
| Selector.NotesForExact | stmp/stmp.py:519-526 | A day's notes are exactly the notes whose date is that day. |
| Selector.NotesForOrdered | stmp/stmp.py:519-521 | A day's notes come in ascending id order. |
| Selector.Query | stmp/stmp.py:417-503 | A query fails iff it is a date query for a date with no row, and then with NotFound. |
| Selector.QueryIsWindow | stmp/stmp.py:435-503 | A successful query is the filtered history with derived columns; it carries notes iff they were requested. |
| Selector.QueryExact | stmp/stmp.py:435-503 | A query returns exactly the stored rows it matches, each with its stored fields. |
| Selector.QueryAscending | stmp/stmp.py:435-503 | A query's rows are strictly ascending by date. |
| Selector.DateQuerySingle | stmp/stmp.py:417-433 | A date query for a stored date returns exactly that one row. |
| Selector.QueryNotes | stmp/stmp.py:501-528 | With notes requested, every row carries its date's notes in id order, empty when there are none. Without the request, no row has a notes field. |
| Selector.QueryRowStored | stmp/stmp.py:435-503 | Each returned row is a stored date the query matches, carrying its stored fields. |
| Selector.QueryRowPresent | stmp/stmp.py:435-503 | Each stored date the query matches is among the returned rows. |
| Selector.DerivedColumns | tests/stmp_test.py:301-306 | Every day of the forward pass reports its working time, its overtime exactly when complete, and the overtime of all complete days up to it. |
| Selector.WindowBalance | tests/stmp_test.py:301-306 | A returned row's working time, overtime and balance are those of its own day in the whole history. |
| Selector.QueryBalance | tests/stmp_test.py:301-306 | Each returned row's working time, overtime (present iff the day is complete) and balance come from its position in the whole history, not the window. |
| Ledger.GetRow | stmp/stmp.py:194-202 | The lookup yields a row iff the date is stored, and then the stored row. |
| Ledger.NextNoteId | stmp/stmp.py:348-349 | A new note's id is 1 on an empty table, else one more than the largest id; it exceeds every present id. |
| Ledger.WithoutNote | stmp/stmp.py:351-361 | Deleting an id leaves no note with that id and never adds a note. |
| Ledger.WithoutNoteExact | stmp/stmp.py:351-361 | Deleting an id keeps every other note and removes every note with that id. |
| Ledger.WithoutAbsentNote | stmp/stmp.py:351-361 | Deleting an id no note has leaves the table as it was. |
| Ledger.WithoutNoteAscending | stmp/stmp.py:351-361 | Deleting keeps the notes in ascending id order. |
| Ledger.WithoutNoteRemovesOne | stmp/stmp.py:351-361 | Deleting a present id removes exactly one note. |
| Ledger.MissingLines | stmp/stmp.py:575-581 | A row produces one line per absent field, in the order start_time, end_time, break_duration, each naming the field and the date, and none iff the row is complete. |
| Ledger.Report | stmp/stmp.py:574-581 | The report is empty iff every row has all three fields. |
| Ledger.ReportStep | stmp/stmp.py:574-581 | One more row appends its missing-field lines to the report. |
| Ledger.ReportConcat | stmp/stmp.py:574-581 | The report on consecutive rows is the report on each part, in order. |
| Ledger.ReportSilentOnComplete | stmp/stmp.py:574-581 | Complete rows produce no lines. |
| Ledger.ReportLength | stmp/stmp.py:574-581 | The report has as many lines as there are absent fields over all rows. |
| Ledger.CheckScenario | tests/stmp_test.py:414-463 | After a complete day, a day with only a start time gives the two lines the test expects: its end time and its break are missing. |
| Ledger.ReportLines | stmp/stmp.py:574-581 | The loop over rows produces the report of those rows. |
| Ledger.ChooseSelection | stmp/stmp.py:395-412 | A date is queried iff given; a year query iff a year but no date or month is given; all rows iff only the all flag is given. The date query is for the given date; the month query is for the given month in the given year or else the current year; the year query is for the given year; with nothing given it is the current month of the current year. |
| Ledger.Stmp.constructor | stmp/stmp.py:23-46 | A fresh database starts with both tables empty. |
| Ledger.Stmp.UpdateWorkHours | stmp/stmp.py:154-192 | Only that date's row changes; it becomes the merge of the stored row (if any) with the update under the flag. Notes are unchanged. |
| Ledger.Stmp.UpdateNotes | stmp/stmp.py:323-349 | A date without a row gains the all-absent row; a stored row is left alone. One note is appended, and its id is fresh. |
| Ledger.Stmp.RemoveNote | stmp/stmp.py:351-361 | A present id is deleted and every other note is kept. An absent id fails NotFound and nothing changes. Work hours are untouched. |
| Ledger.Stmp.RemoveWorkHours | stmp/stmp.py:363-373 | A stored date's row is removed and its notes stay. An absent date fails NotFound and nothing changes. |
| Ledger.Stmp.Add | stmp/stmp.py:592-596 | The day is merged first, then the optional note is appended with the next id. |
| Ledger.Stmp.AppendNotesToWorkHoursData | stmp/stmp.py:505-528 | The nested loops produce every entry with its date's notes attached. |
| Ledger.Stmp.SelectRows | stmp/stmp.py:487-503 | The rows produced are the query's successful result; with notes, each row's notes come in ascending id order. |
| Ledger.Stmp.ShowDateData | stmp/stmp.py:417-433 | The result is the date query; it fails NotFound when the date has no row. |
| Ledger.Stmp.ShowMonthData | stmp/stmp.py:435-463 | The result is the month query, in the given year or else the current one. |
| Ledger.Stmp.ShowYearData | stmp/stmp.py:465-485 | The result is the year query. |
| Ledger.Stmp.ShowAllData | stmp/stmp.py:487-503 | The result is every row. |
| Ledger.Stmp.ShowData | stmp/stmp.py:375-415 | The query is picked as date, then month, then year, then all; with none given, it is the current month. |
| Ledger.Stmp.CheckData | stmp/stmp.py:567-581 | The output is the report on the whole table in date order. |
| Formatter.Lower | stmp/formatter_factory.py:28 | Lower-casing keeps the length and lower-cases each ASCII capital. |
| Formatter.Contains | stmp/formatter_factory.py:28-33 | The left-to-right search is true iff the keyword occurs at some offset. |
| Formatter.Factory | stmp/formatter_factory.py:27-35 | JSON iff "json" occurs in the lower-cased string. Otherwise table iff "table" occurs; otherwise Markdown iff "markdown" occurs; otherwise the string is refused, naming it. |
| Formatter.FactoryJson | stmp/formatter_factory.py:28-29 | Any spelling of "json" picks JSON. |
| Formatter.FactoryTableFirst | stmp/formatter_factory.py:30-33 | Any spelling of "markdown-table" picks the table formatter, because "table" is tested first. |
| Formatter.FactoryMarkdown | stmp/formatter_factory.py:32-33 | Any spelling of "markdown" picks Markdown. |
| Formatter.FactoryRefusesShort | stmp/formatter_factory.py:34-35 | A format string too short for any keyword is refused. |
| Formatter.NoteRows | stmp/formatter_factory.py:104-107 | One row per note in note order, each with that note's id and text. |
| Formatter.Expansion | stmp/formatter_factory.py:97-107 | A record with notes gives at least one row, each the record without its notes plus note columns. |
| Formatter.ExpansionShape | stmp/formatter_factory.py:97-107 | A record with k > 0 notes gives k rows, the record minus its notes plus each note's id and text, in order. A record with no notes gives one row with null note columns. |
| Formatter.ExpandAllFails | stmp/formatter_factory.py:97-99 | With notes shown, flattening fails (KeyError) iff some record has no notes key. |
| Formatter.ExpandAllCount | stmp/formatter_factory.py:94-107 | With notes shown, there are as many rows as the sum over records of max(1, number of notes). |
| Formatter.ExpandAllOrder | stmp/formatter_factory.py:94-107 | The rows of record i come right after the rows of all earlier records, at the front of the output. |
| Formatter.ExpandAllSucceeds | stmp/formatter_factory.py:97-107 | When every record has notes, flattening succeeds. |
| Formatter.ExpandAllMissing | stmp/formatter_factory.py:97-99 | A record without notes makes flattening fail. |
| Formatter.ExpandAll | stmp/formatter_factory.py:94-107 | With notes shown, the only failure is the missing key; on success there is at least one row per record. |
| Formatter.Flatten | stmp/formatter_factory.py:91-111 | Flattening fails only with the missing key, and only when the first record has notes; on success there is at least one row per record. |
| Formatter.PlainFlatten | stmp/formatter_factory.py:108-110 | When the first record has no notes key, each record gives exactly one row equal to itself. |
| Formatter.NotesFlatten | stmp/formatter_factory.py:97-107 | When the first record has notes, flattening succeeds iff every record has them; the row count is then the expanded count. |
| Formatter.TableRows | stmp/formatter_factory.py:91-111 | The loop over records and notes produces the flattened rows. |
| Formatter.Section | stmp/formatter_factory.py:66-78 | A record's section exists iff it has a start and an end time, and fails with NotAString otherwise. It is the heading and, only when the record has a notes key, its bullets followed by the closing blank pair. |
| Formatter.BulletsConcat | stmp/formatter_factory.py:76-77 | The bullets of consecutive note lists are the bullets of each list in order, so every note gives its own line in note order. |
| Formatter.BulletsSingle | stmp/formatter_factory.py:77 | A single note gives the single line `- text`. |
| Formatter.MarkdownText | stmp/formatter_factory.py:63-79 | The only failure of the Markdown text is the missing-time concatenation. |
| Formatter.MarkdownFails | stmp/formatter_factory.py:66-74 | The text exists iff every record has both a start and an end time; otherwise concatenation fails. |
| Formatter.MarkdownConcat | stmp/formatter_factory.py:65-79 | The text of consecutive records is the text of each part, in order. |
| Formatter.MarkdownSnoc | stmp/formatter_factory.py:65-79 | One more record appends its section, or fails. |
| Formatter.MarkdownWithoutNotes | stmp/formatter_factory.py:66-74 | A timed record without a notes key gives only its `## date \| start - end` heading and a blank line. |
| Formatter.MarkdownEmptyNotes | stmp/formatter_factory.py:75-78 | A timed record with an empty notes list gives its heading followed by the closing blank pair. |
| Formatter.MarkdownTwoNotes | stmp/formatter_factory.py:75-78 | A timed record with exactly two notes gives its heading, the two bullets in note order, and the closing blank pair. |
| Formatter.MarkdownFormat | stmp/formatter_factory.py:63-79 | The nested loops produce the Markdown text. |

## Left out

- The SQLite database, `sqlite_utils` and table creation. The two tables are
  the fields of `Stmp`. The notes table's `INTEGER PRIMARY KEY` is modelled
  by `NextNoteId`: one more than the largest id. So deleting the newest note
  lets its id be used again.
- The argparse parsers, the `check_*_parser_arguments` validators, `main`,
  `create_dir_if_not_exists` and stmp/main.py. This is command-line wiring;
  its argument values become method parameters.
- `dump_data` and `dump_to_file`: file output.
- `datetime.now()`: the current year and month are the parameters `nowYear`
  and `nowMonth`.
- The text that `json.dumps` and `tabulate` produce. JSONFormatter is only
  chosen by the factory, and the table formatter is modelled up to its rows.
- Rounding to two decimals of hours for display: everything is in whole
  minutes.
- stmp/stmp.py computes no derived columns: the `show_*` queries read the
  four stored columns of `work_hours` only. `Entry.derived` and the module
  `Overtime` follow the expected outputs of tests/stmp_test.py instead. There,
  a day with start and end but no break has no working time
  (tests/stmp_test.py:305).
- Overtime.ClockMinutes: times that are not well-formed `HH:MM` count as
  absent.
- Selector.Matches: the month and year queries use SQL `LIKE`. It is
  modelled as a plain prefix test, so `_` and `%` inside the arguments and
  LIKE's ASCII case-insensitivity are not modelled.
- DateKeys.Less: `ORDER BY date` is modelled as lexicographic order on
  characters. It agrees with SQLite's binary collation for the ASCII dates the
  ledger stores.
- Ledger.Stmp.CheckData: the source walks the table in storage order; the
  model reports in date order, since a map has no insertion order.
- Ledger.Stmp.RemoveNote and Ledger.Stmp.RemoveWorkHours: the table's
  `delete` looks the key up first and raises on a missing one. This is
  modelled as a NotFound failure that leaves both tables unchanged, not as a
  silent no-op.
- Formatter.Lower: only ASCII capitals are lower-cased, not all of Unicode.
- The table formatter copies each record before popping `notes`, so its
  input is never changed. Records are immutable values here, so that
  aliasing question does not arise, and the column order `tabulate` derives
  from dict keys is not modelled.
- The nested `overwrite_upsert_work_hours` inside `insert_work_hours`: it is
  never called.
- stmp/formatting/formatter_factory.py (superseded, not imported) and
  tests/stamp_test.py (for another package) are not part of this model.
