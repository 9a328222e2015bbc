/** The record-keeping engine of stmp/stmp.py: the `Stmp` object over the
    work_hours table (a map from date key to day record) and the notes table
    (a sequence of notes in ascending id order). */
module Ledger {
  import opened Records
  import opened DateKeys
  import opened MergePolicy
  import opened Selector
  import Overtime

  /** getRow: the stored row of a date, or nothing. */
  function GetRow(m: map<string, DayRecord>, date: string): (r: Option<DayRecord>)
    ensures r.Some? <==> date in m
    ensures r.Some? ==> r.value == m[date]
  {
    if date in m then Some(m[date]) else None
  }

  /** The id the notes table gives a new note: its `id INTEGER PRIMARY KEY`
      column takes one more than the largest id present, 1 when the table is
      empty. */
  function NextNoteId(notes: seq<Note>): (id: nat)
    requires IdsAscending(notes)
    ensures id >= 1
    ensures notes == [] ==> id == 1
    ensures forall i :: 0 <= i < |notes| ==> notes[i].id < id
    ensures notes != [] ==> id == notes[|notes| - 1].id + 1
  {
    if notes == [] then 1 else notes[|notes| - 1].id + 1
  }

  predicate HasNote(notes: seq<Note>, id: int)
  {
    exists i :: 0 <= i < |notes| && notes[i].id == id
  }

  /** The notes table after deleting the row with key `id`. */
  function WithoutNote(notes: seq<Note>, id: int): (r: seq<Note>)
    ensures |r| <= |notes|
    ensures forall i :: 0 <= i < |r| ==> r[i].id != id
    ensures forall n :: n in r ==> n in notes
  {
    if notes == [] then []
    else (if notes[0].id == id then [] else [notes[0]]) + WithoutNote(notes[1..], id)
  }

  /** Deleting a note keeps every other note and removes every note with
      that id. */
  lemma {:induction false} WithoutNoteExact(notes: seq<Note>, id: int)
    ensures forall n :: n in WithoutNote(notes, id) <==> n in notes && n.id != id
    decreases |notes|
  {
    if notes != [] {
      WithoutNoteExact(notes[1..], id);
      assert notes == [notes[0]] + notes[1..];
    }
  }

  /** Deleting an id that no note has changes nothing. */
  lemma {:induction false} WithoutAbsentNote(notes: seq<Note>, id: int)
    requires !HasNote(notes, id)
    ensures WithoutNote(notes, id) == notes
    decreases |notes|
  {
    if notes != [] {
      forall i | 0 <= i < |notes[1..]| ensures notes[1..][i].id != id {
        assert notes[1..][i] == notes[i + 1];
      }
      WithoutAbsentNote(notes[1..], id);
      assert notes == [notes[0]] + notes[1..];
    }
  }

  /** Deleting keeps the table in ascending id order. */
  lemma {:induction false} WithoutNoteAscending(notes: seq<Note>, id: int)
    requires IdsAscending(notes)
    ensures IdsAscending(WithoutNote(notes, id))
    decreases |notes|
  {
    if notes != [] {
      AscendingTail(notes);
      WithoutNoteAscending(notes[1..], id);
      var rest := WithoutNote(notes[1..], id);
      forall k | 0 <= k < |rest| ensures notes[0].id < rest[k].id {
        WithoutNoteExact(notes[1..], id);
        assert rest[k] in rest;
      }
      if notes[0].id != id {
        ConsAscending(notes[0], rest);
      }
    }
  }

  /** The tail of an ascending table is ascending, and every id in it exceeds
      the head's. */
  lemma AscendingTail(notes: seq<Note>)
    requires IdsAscending(notes) && notes != []
    ensures IdsAscending(notes[1..])
    ensures forall n :: n in notes[1..] ==> notes[0].id < n.id
  {
    forall a, b | 0 <= a < b < |notes[1..]| ensures notes[1..][a].id < notes[1..][b].id {
      assert notes[1..][a] == notes[a + 1] && notes[1..][b] == notes[b + 1];
    }
    forall n | n in notes[1..] ensures notes[0].id < n.id {
      var i :| 0 <= i < |notes[1..]| && notes[1..][i] == n;
      assert notes[i + 1] == n;
    }
  }

  /** A note below every id of an ascending table can lead it. */
  lemma ConsAscending(n: Note, rest: seq<Note>)
    requires IdsAscending(rest)
    requires forall k :: 0 <= k < |rest| ==> n.id < rest[k].id
    ensures IdsAscending([n] + rest)
  {
    var r := [n] + rest;
    forall a, b | 0 <= a < b < |r| ensures r[a].id < r[b].id {
      if a == 0 {
        assert r[b] == rest[b - 1];
      } else {
        assert r[a] == rest[a - 1] && r[b] == rest[b - 1];
      }
    }
  }

  /** With unique ids, deleting a present id removes exactly one note. */
  lemma {:induction false} WithoutNoteRemovesOne(notes: seq<Note>, id: int)
    requires IdsAscending(notes) && HasNote(notes, id)
    ensures |WithoutNote(notes, id)| == |notes| - 1
    decreases |notes|
  {
    if notes[0].id == id {
      forall i | 0 <= i < |notes[1..]| ensures notes[1..][i].id != id {
        assert notes[1..][i] == notes[i + 1];
      }
      WithoutAbsentNote(notes[1..], id);
    } else {
      var i :| 0 <= i < |notes| && notes[i].id == id;
      assert notes[1..][i - 1].id == id;
      WithoutNoteRemovesOne(notes[1..], id);
    }
  }

  /** A row check_data stays silent about. */
  predicate AllFieldsPresent(rec: DayRecord)
  {
    rec.startTime.Some? && rec.endTime.Some? && rec.breakDuration.Some?
  }

  function CountAbsent(rec: DayRecord): nat
  {
    (if rec.startTime.None? then 1 else 0)
    + (if rec.endTime.None? then 1 else 0)
    + (if rec.breakDuration.None? then 1 else 0)
  }

  /** "Missing {field} for {date}" */
  function MissingMessage(field: string, date: string): string
  {
    "Missing " + field + " for " + date
  }

  /** The lines check_data prints for one row: one per missing field, in the
      order start_time, end_time, break_duration. */
  function MissingLines(day: Day): (r: seq<string>)
    ensures |r| == CountAbsent(day.record)
    ensures r == [] <==> AllFieldsPresent(day.record)
    ensures day.record.startTime.None? ==> r[0] == MissingMessage("start_time", day.date)
    ensures day.record.endTime.None? ==>
              r[if day.record.startTime.None? then 1 else 0] == MissingMessage("end_time", day.date)
    ensures day.record.breakDuration.None? ==> r[|r| - 1] == MissingMessage("break_duration", day.date)
  {
    (if day.record.startTime.None? then [MissingMessage("start_time", day.date)] else [])
    + (if day.record.endTime.None? then [MissingMessage("end_time", day.date)] else [])
    + (if day.record.breakDuration.None? then [MissingMessage("break_duration", day.date)] else [])
  }

  /** Everything check_data prints for a sequence of rows. */
  function Report(days: seq<Day>): (r: seq<string>)
    ensures r == [] <==> forall i :: 0 <= i < |days| ==> AllFieldsPresent(days[i].record)
  {
    if days == [] then [] else Report(days[..|days| - 1]) + MissingLines(days[|days| - 1])
  }

  /** The report of consecutive rows is the reports of the parts, in order. */
  lemma {:induction false} ReportConcat(a: seq<Day>, b: seq<Day>)
    ensures Report(a + b) == Report(a) + Report(b)
    decreases |b|
  {
    if b != [] {
      var b' := b[..|b| - 1];
      assert (a + b)[..|a + b| - 1] == a + b';
      ReportConcat(a, b');
    } else {
      assert a + b == a;
    }
  }

  /** Complete rows produce no lines at all. */
  lemma {:induction false} ReportSilentOnComplete(days: seq<Day>)
    requires forall i :: 0 <= i < |days| ==> AllFieldsPresent(days[i].record)
    ensures Report(days) == []
    decreases |days|
  {
    if days != [] {
      ReportSilentOnComplete(days[..|days| - 1]);
    }
  }

  /** The report has one line per missing field, over all rows. */
  lemma {:induction false} ReportLength(days: seq<Day>)
    ensures |Report(days)| == SumAbsent(days)
    decreases |days|
  {
    if days != [] {
      ReportLength(days[..|days| - 1]);
    }
  }

  function SumAbsent(days: seq<Day>): nat
  {
    if days == [] then 0 else SumAbsent(days[..|days| - 1]) + CountAbsent(days[|days| - 1].record)
  }

  /** The check of tests/stmp_test.py: after a complete day, a day with only
      a start time is reported as missing its end time and its break. */
  lemma CheckScenario(d1: Day, d2: Day)
    requires AllFieldsPresent(d1.record)
    requires d2.record.startTime.Some? && d2.record.endTime.None? && d2.record.breakDuration.None?
    ensures Report([d1, d2]) == [MissingMessage("end_time", d2.date), MissingMessage("break_duration", d2.date)]
  {
    assert [d1, d2][..1] == [d1];
    assert [d1][..0] == [];
    assert Report([d1]) == [];
    assert MissingLines(d2) == [MissingMessage("end_time", d2.date), MissingMessage("break_duration", d2.date)];
  }

  /** The loop of check_data over rows already read: for each row, a line
      for each absent field, in the order start_time, end_time,
      break_duration. */
  method ReportLines(days: seq<Day>) returns (lines: seq<string>)
    ensures lines == Report(days)
  {
    lines := [];
    var i := 0;
    while i < |days|
      invariant 0 <= i <= |days|
      invariant lines == Report(days[..i])
    {
      ReportStep(days, i);
      var day := days[i];
      var found := [];
      if day.record.startTime.None? {
        found := found + [MissingMessage("start_time", day.date)];
      }
      if day.record.endTime.None? {
        found := found + [MissingMessage("end_time", day.date)];
      }
      if day.record.breakDuration.None? {
        found := found + [MissingMessage("break_duration", day.date)];
      }
      assert found == MissingLines(day);
      lines := lines + found;
      i := i + 1;
    }
    assert days[..i] == days;
  }

  lemma ReportStep(days: seq<Day>, i: nat)
    requires i < |days|
    ensures Report(days[..i + 1]) == Report(days[..i]) + MissingLines(days[i])
  {
    assert days[..i + 1][..i] == days[..i];
  }

  /** The arguments of the show command that pick the query. */
  datatype ShowArgs = ShowArgs(date: Option<string>, month: Option<string>, year: Option<string>, all: Option<bool>)

  /** show_data's choice: a date first, then a month (in the given year, or
      the current one), then a year, then all rows; with none of them the
      current month of the current year. */
  function ChooseSelection(args: ShowArgs, nowYear: string, nowMonth: string): (r: Selection)
    ensures r.OnDate? <==> args.date.Some?
    ensures r.InYear? <==> args.date.None? && args.month.None? && args.year.Some?
    ensures r.Everything? <==> args.date.None? && args.month.None? && args.year.None? && args.all.Some?
    ensures r.InMonth? && args.month.None? ==> r == InMonth(nowYear, nowMonth)
    ensures args.date.Some? ==> r == OnDate(args.date.value)
    ensures args.date.None? && args.month.Some? ==>
              r == InMonth(if args.year.Some? then args.year.value else nowYear, args.month.value)
    ensures args.date.None? && args.month.None? && args.year.Some? ==> r == InYear(args.year.value)
  {
    if args.date.Some? then OnDate(args.date.value)
    else if args.month.Some? then InMonth(if args.year.Some? then args.year.value else nowYear, args.month.value)
    else if args.year.Some? then InYear(args.year.value)
    else if args.all.Some? then Everything
    else InMonth(nowYear, nowMonth)
  }

  class Stmp {
    /** The work_hours table, keyed by date. */
    var workHours: map<string, DayRecord>
    /** The notes table, in ascending id order. */
    var notes: seq<Note>

    ghost predicate Valid()
      reads this
    {
      IdsAscending(notes)
    }

    /** Both tables empty, as created on first use. */
    constructor ()
      ensures Valid()
      ensures workHours == map[] && notes == []
    {
      workHours := map[];
      notes := [];
    }

    /** update_work_hours: inserts the row when the date has none, otherwise
        merges by the overwrite flag. */
    method UpdateWorkHours(date: string, u: DayRecord, overwrite: bool)
      requires Valid()
      modifies this
      ensures Valid()
      ensures workHours == old(workHours)[date := Merge(GetRow(old(workHours), date), u, overwrite)]
      ensures notes == old(notes)
    {
      var row := GetRow(workHours, date);
      match row
      case None =>
        workHours := workHours[date := InsertRecord(u)];
      case Some(r) =>
        if overwrite {
          workHours := workHours[date := OverwriteUpsert(r, u)];
        } else {
          workHours := workHours[date := NoOverwriteUpsert(r, u)];
        }
    }

    /** update_notes: creates the all-absent row when the date has none,
        leaves an existing row alone, then appends one note with a fresh id. */
    method UpdateNotes(date: string, text: string) returns (id: nat)
      requires Valid()
      modifies this
      ensures Valid()
      ensures date in old(workHours) ==> workHours == old(workHours)
      ensures date !in old(workHours) ==> workHours == old(workHours)[date := EmptyRecord]
      ensures id == NextNoteId(old(notes))
      ensures forall i :: 0 <= i < |old(notes)| ==> old(notes)[i].id != id
      ensures notes == old(notes) + [Note(id, date, text)]
    {
      if date !in workHours {
        workHours := workHours[date := InsertRecord(EmptyRecord)];
      }
      id := NextNoteId(notes);
      notes := notes + [Note(id, date, text)];
    }

    /** remove_note: deletes the note with that id; the table's delete looks
        the key up first and fails when it is absent. */
    method RemoveNote(id: int) returns (res: Outcome)
      requires Valid()
      modifies this
      ensures Valid()
      ensures res == if HasNote(old(notes), id) then Done else Fail(NotFound)
      ensures notes == WithoutNote(old(notes), id)
      ensures forall n :: n in notes <==> n in old(notes) && n.id != id
      ensures workHours == old(workHours)
    {
      WithoutNoteExact(notes, id);
      WithoutNoteAscending(notes, id);
      if !HasNote(notes, id) {
        WithoutAbsentNote(notes, id);
      }
      if HasNote(notes, id) {
        notes := WithoutNote(notes, id);
        res := Done;
      } else {
        res := Fail(NotFound);
      }
    }

    /** remove_work_hours: deletes the row of that date (its notes stay);
        fails when the date has no row. */
    method RemoveWorkHours(date: string) returns (res: Outcome)
      requires Valid()
      modifies this
      ensures Valid()
      ensures res == if date in old(workHours) then Done else Fail(NotFound)
      ensures workHours == old(workHours) - {date}
      ensures notes == old(notes)
    {
      if date in workHours {
        workHours := workHours - {date};
        res := Done;
      } else {
        res := Fail(NotFound);
      }
    }

    /** The add command: the day's fields first, then the note if one is given. */
    method Add(date: string, u: DayRecord, overwrite: bool, note: Option<string>)
      requires Valid()
      modifies this
      ensures Valid()
      ensures workHours == old(workHours)[date := Merge(GetRow(old(workHours), date), u, overwrite)]
      ensures notes == old(notes) + (if note.Some? then [Note(NextNoteId(old(notes)), date, note.value)] else [])
    {
      UpdateWorkHours(date, u, overwrite);
      if note.Some? {
        var _ := UpdateNotes(date, note.value);
      }
    }

    /** append_notes_to_work_hours_data: gives every entry the notes of its
        date, collected in table (id) order. */
    method AppendNotesToWorkHoursData(entries: seq<Entry>) returns (r: seq<Entry>)
      requires Valid()
      ensures r == AttachNotes(entries, notes)
    {
      r := [];
      var i := 0;
      while i < |entries|
        invariant 0 <= i <= |entries|
        invariant r == AttachNotes(entries[..i], notes)
      {
        var perDay: seq<Note> := [];
        var j := 0;
        while j < |notes|
          invariant 0 <= j <= |notes|
          invariant perDay == NotesFor(notes[..j], entries[i].date)
        {
          assert notes[..j + 1][..j] == notes[..j];
          if notes[j].date == entries[i].date {
            perDay := perDay + [notes[j]];
          }
          j := j + 1;
        }
        assert notes[..j] == notes;
        r := r + [entries[i].(notes := Some(perDay))];
        i := i + 1;
      }
      assert entries[..i] == entries;
    }

    /** The rows a range query matches, in date order, with the derived
        columns over the whole history and, if asked, their notes. */
    method SelectRows(sel: Selection, withNotes: bool, expected: int) returns (r: seq<Entry>)
      requires Valid()
      requires !sel.OnDate? || sel.date in workHours
      ensures Query(workHours, notes, sel, withNotes, expected) == Success(r)
      ensures withNotes ==> forall j :: 0 <= j < |r| ==> r[j].notes.Some? && IdsAscending(r[j].notes.value)
    {
      var keys := ListAscending(workHours.Keys);
      var days := DaysOf(workHours, keys);
      assert days == History(workHours);
      var ders := Overtime.Derive(days, expected, 0);
      r := Window(days, ders, sel);
      if withNotes {
        r := AppendNotesToWorkHoursData(r);
      }
      QueryNotes(workHours, notes, sel, withNotes, expected);
    }

    /** show_date_data: the row of one date; the table's get fails when the
        date has no row. */
    method ShowDateData(date: string, withNotes: bool, expected: int) returns (r: Result<seq<Entry>, Error>)
      requires Valid()
      ensures r == Query(workHours, notes, OnDate(date), withNotes, expected)
    {
      if date !in workHours {
        return Failure(NotFound);
      }
      var rows := SelectRows(OnDate(date), withNotes, expected);
      r := Success(rows);
    }

    /** show_month_data: the rows whose key starts with "{year}-{month}-",
        the year defaulting to the current one. */
    method ShowMonthData(month: string, year: Option<string>, nowYear: string, withNotes: bool, expected: int)
      returns (r: seq<Entry>)
      requires Valid()
      ensures Query(workHours, notes, InMonth(if year.Some? then year.value else nowYear, month), withNotes, expected)
              == Success(r)
    {
      var y := nowYear;
      if year.Some? {
        y := year.value;
      }
      r := SelectRows(InMonth(y, month), withNotes, expected);
    }

    /** show_year_data: the rows whose key starts with "{year}-". */
    method ShowYearData(year: string, withNotes: bool, expected: int) returns (r: seq<Entry>)
      requires Valid()
      ensures Query(workHours, notes, InYear(year), withNotes, expected) == Success(r)
    {
      r := SelectRows(InYear(year), withNotes, expected);
    }

    /** show_all_data: every row. */
    method ShowAllData(withNotes: bool, expected: int) returns (r: seq<Entry>)
      requires Valid()
      ensures Query(workHours, notes, Everything, withNotes, expected) == Success(r)
    {
      r := SelectRows(Everything, withNotes, expected);
    }

    /** show_data without its formatting: runs the query the arguments pick. */
    method ShowData(args: ShowArgs, nowYear: string, nowMonth: string, withNotes: bool, expected: int)
      returns (r: Result<seq<Entry>, Error>)
      requires Valid()
      ensures r == Query(workHours, notes, ChooseSelection(args, nowYear, nowMonth), withNotes, expected)
    {
      if args.date.Some? {
        r := ShowDateData(args.date.value, withNotes, expected);
      } else if args.month.Some? {
        var rows := ShowMonthData(args.month.value, args.year, nowYear, withNotes, expected);
        r := Success(rows);
      } else if args.year.Some? {
        var rows := ShowYearData(args.year.value, withNotes, expected);
        r := Success(rows);
      } else if args.all.Some? {
        var rows := ShowAllData(withNotes, expected);
        r := Success(rows);
      } else {
        var rows := ShowMonthData(nowMonth, args.year, nowYear, withNotes, expected);
        r := Success(rows);
      }
    }

    /** check_data: one line per missing field of every row, rows in date
        order. */
    method CheckData() returns (lines: seq<string>)
      ensures lines == Report(History(workHours))
    {
      var keys := ListAscending(workHours.Keys);
      var days := DaysOf(workHours, keys);
      assert days == History(workHours);
      lines := ReportLines(days);
    }
  }
}
