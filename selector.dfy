/** What the show queries of stmp/stmp.py return, as functions of the stored
    tables: the matching rows in ascending date order and, when requested,
    each row's notes in id order. Each row also carries working time,
    overtime and running balance over the whole history; stmp/stmp.py reads
    the four stored columns only, and these derived columns follow the
    expected outputs of tests/stmp_test.py. */
module Selector {
  import opened Records
  import opened DateKeys
  import Overtime

  /** The four queries of show_data; exactly one is active. */
  datatype Selection =
    | OnDate(date: string)
    | InMonth(year: string, month: string)
    | InYear(year: string)
    | Everything

  /** The row filter of each query: key equality for a date, a key prefix
      for a month or a year, nothing for all rows. */
  predicate Matches(sel: Selection, date: string)
    ensures sel.InMonth? && Matches(sel, date) ==> YearPrefix(sel.year) <= date
    ensures sel.InYear? && Matches(sel, date) ==>
              |date| > |sel.year| && date[..|sel.year|] == sel.year && date[|sel.year|] == '-'
  {
    match sel
    case OnDate(d) => date == d
    case InMonth(y, mo) => MonthPrefix(y, mo) <= date
    case InYear(y) => YearPrefix(y) <= date
    case Everything => true
  }

  ghost predicate DaysAscending(days: seq<Day>)
  {
    forall i, j :: 0 <= i < j < |days| ==> Less(days[i].date, days[j].date)
  }

  ghost predicate EntriesAscending(entries: seq<Entry>)
  {
    forall i, j :: 0 <= i < j < |entries| ==> Less(entries[i].date, entries[j].date)
  }

  /** The rows of `m` for the keys `keys`, in that order. */
  function DaysOf(m: map<string, DayRecord>, keys: seq<string>): (r: seq<Day>)
    requires forall k :: k in keys ==> k in m
    ensures |r| == |keys|
    ensures forall i :: 0 <= i < |keys| ==> r[i] == Day(keys[i], m[keys[i]])
  {
    seq(|keys|, i requires 0 <= i < |keys| => Day(keys[i], m[keys[i]]))
  }

  /** The whole work_hours table in ascending date order. */
  ghost function History(m: map<string, DayRecord>): (r: seq<Day>)
    ensures |r| == |m|
    ensures forall i :: 0 <= i < |r| ==> r[i].date in m && r[i].record == m[r[i].date]
    ensures forall d :: d in m ==> exists i :: 0 <= i < |r| && r[i].date == d
    ensures DaysAscending(r)
  {
    assert |m.Keys| == |m|;
    RowsCover(m, SortedKeys(m.Keys));
    SortedRowsAscending(m);
    DaysOf(m, SortedKeys(m.Keys))
  }

  lemma RowsCover(m: map<string, DayRecord>, keys: seq<string>)
    requires forall k :: k in keys ==> k in m
    ensures forall d :: d in keys ==> exists i :: 0 <= i < |keys| && DaysOf(m, keys)[i].date == d
  {
    var r := DaysOf(m, keys);
    forall d | d in keys ensures exists i :: 0 <= i < |keys| && r[i].date == d {
      var i :| 0 <= i < |keys| && keys[i] == d;
      assert r[i].date == d;
    }
  }

  lemma SortedRowsAscending(m: map<string, DayRecord>)
    ensures DaysAscending(DaysOf(m, SortedKeys(m.Keys)))
  {
    var keys := SortedKeys(m.Keys);
    var r := DaysOf(m, keys);
    forall i, j | 0 <= i < j < |r| ensures Less(r[i].date, r[j].date) {
      assert r[i].date == keys[i] && r[j].date == keys[j];
    }
  }

  /** The rows of `days` that `sel` matches, each paired with its derived
      columns, without notes. */
  function Window(days: seq<Day>, ders: seq<Derived>, sel: Selection): (r: seq<Entry>)
    requires |days| == |ders|
    ensures |r| <= |days|
    ensures forall j :: 0 <= j < |r| ==> r[j].notes.None?
  {
    if days == [] then []
    else
      (if Matches(sel, days[0].date) then [Entry(days[0].date, days[0].record, ders[0], None)] else [])
      + Window(days[1..], ders[1..], sel)
  }

  /** The notes of `date`, in table order. */
  function NotesFor(notes: seq<Note>, date: string): (r: seq<Note>)
    ensures |r| <= |notes|
    ensures forall i :: 0 <= i < |r| ==> r[i].date == date
    ensures forall i :: 0 <= i < |r| ==> r[i] in notes
  {
    if notes == [] then []
    else NotesFor(notes[..|notes| - 1], date) + (if notes[|notes| - 1].date == date then [notes[|notes| - 1]] else [])
  }

  /** Every entry with its notes attached. */
  function AttachNotes(entries: seq<Entry>, notes: seq<Note>): (r: seq<Entry>)
    ensures |r| == |entries|
    ensures forall i :: 0 <= i < |entries| ==> r[i] == entries[i].(notes := Some(NotesFor(notes, entries[i].date)))
  {
    seq(|entries|, i requires 0 <= i < |entries| => entries[i].(notes := Some(NotesFor(notes, entries[i].date))))
  }

  /** The result of a show query: a date query fails like the table's `get`
      when the date has no row; the others never fail. */
  ghost function Query(m: map<string, DayRecord>, notes: seq<Note>, sel: Selection, withNotes: bool, expected: int)
    : (r: Result<seq<Entry>, Error>)
    ensures r.Failure? <==> sel.OnDate? && sel.date !in m
    ensures r.Failure? ==> r.error == NotFound
  {
    if sel.OnDate? && sel.date !in m then Failure(NotFound)
    else
      var h := History(m);
      var w := Window(h, Overtime.Derive(h, expected, 0), sel);
      Success(if withNotes then AttachNotes(w, notes) else w)
  }

  // ---- Window ----

  lemma {:induction false} WindowSound(days: seq<Day>, ders: seq<Derived>, sel: Selection, j: nat)
    requires |days| == |ders|
    requires j < |Window(days, ders, sel)|
    ensures exists k :: 0 <= k < |days| && Matches(sel, days[k].date)
              && Window(days, ders, sel)[j] == Entry(days[k].date, days[k].record, ders[k], None)
    decreases |days|
  {
    var head := if Matches(sel, days[0].date) then [Entry(days[0].date, days[0].record, ders[0], None)] else [];
    var w := Window(days, ders, sel);
    assert w == head + Window(days[1..], ders[1..], sel);
    if j < |head| {
      assert w[j] == Entry(days[0].date, days[0].record, ders[0], None);
    } else {
      WindowSound(days[1..], ders[1..], sel, j - |head|);
      var k :| 0 <= k < |days| - 1 && Matches(sel, days[1..][k].date)
               && Window(days[1..], ders[1..], sel)[j - |head|] == Entry(days[1..][k].date, days[1..][k].record, ders[1..][k], None);
      assert w[j] == Entry(days[k + 1].date, days[k + 1].record, ders[k + 1], None);
    }
  }

  lemma {:induction false} WindowComplete(days: seq<Day>, ders: seq<Derived>, sel: Selection, k: nat)
    requires |days| == |ders|
    requires k < |days| && Matches(sel, days[k].date)
    ensures exists j :: 0 <= j < |Window(days, ders, sel)|
              && Window(days, ders, sel)[j] == Entry(days[k].date, days[k].record, ders[k], None)
    decreases |days|
  {
    var head := if Matches(sel, days[0].date) then [Entry(days[0].date, days[0].record, ders[0], None)] else [];
    var w := Window(days, ders, sel);
    assert w == head + Window(days[1..], ders[1..], sel);
    if k == 0 {
      assert w[0] == Entry(days[0].date, days[0].record, ders[0], None);
    } else {
      WindowComplete(days[1..], ders[1..], sel, k - 1);
      var j :| 0 <= j < |Window(days[1..], ders[1..], sel)|
               && Window(days[1..], ders[1..], sel)[j] == Entry(days[k].date, days[k].record, ders[k], None);
      assert w[|head| + j] == Entry(days[k].date, days[k].record, ders[k], None);
    }
  }

  lemma {:induction false} WindowAscending(days: seq<Day>, ders: seq<Derived>, sel: Selection)
    requires |days| == |ders|
    requires DaysAscending(days)
    ensures EntriesAscending(Window(days, ders, sel))
    decreases |days|
  {
    if days != [] {
      var head := if Matches(sel, days[0].date) then [Entry(days[0].date, days[0].record, ders[0], None)] else [];
      var tail := Window(days[1..], ders[1..], sel);
      assert Window(days, ders, sel) == head + tail;
      WindowAscending(days[1..], ders[1..], sel);
      WindowAfterHead(days, ders, sel);
      AscendingAfterHead(head, tail, days[0].date);
    }
  }

  /** Every row the window keeps from the rest of the history comes after
      the first day. */
  lemma WindowAfterHead(days: seq<Day>, ders: seq<Derived>, sel: Selection)
    requires |days| == |ders| && days != []
    requires DaysAscending(days)
    ensures forall j :: 0 <= j < |Window(days[1..], ders[1..], sel)| ==>
              Less(days[0].date, Window(days[1..], ders[1..], sel)[j].date)
  {
    var tail := Window(days[1..], ders[1..], sel);
    forall j | 0 <= j < |tail| ensures Less(days[0].date, tail[j].date) {
      WindowSound(days[1..], ders[1..], sel, j);
      var k :| 0 <= k < |days| - 1 && Matches(sel, days[1..][k].date)
               && tail[j] == Entry(days[1..][k].date, days[1..][k].record, ders[1..][k], None);
      assert tail[j].date == days[k + 1].date;
    }
  }

  /** An ascending tail stays ascending behind a head of at most one entry
      dated before all of it. */
  lemma AscendingAfterHead(head: seq<Entry>, tail: seq<Entry>, first: string)
    requires |head| <= 1 && (head != [] ==> head[0].date == first)
    requires EntriesAscending(tail)
    requires forall j :: 0 <= j < |tail| ==> Less(first, tail[j].date)
    ensures EntriesAscending(head + tail)
  {
    var w := head + tail;
    forall a, b | 0 <= a < b < |w| ensures Less(w[a].date, w[b].date) {
      if a < |head| {
        assert w[a].date == first && w[b] == tail[b - |head|];
      } else {
        assert w[a] == tail[a - |head|] && w[b] == tail[b - |head|];
      }
    }
  }

  // ---- Notes ----

  /** A date's notes are exactly the notes of that date, in table order. */
  lemma {:induction false} NotesForExact(notes: seq<Note>, date: string)
    ensures forall n :: n in NotesFor(notes, date) <==> n in notes && n.date == date
    decreases |notes|
  {
    if notes != [] {
      NotesForExact(notes[..|notes| - 1], date);
      assert notes == notes[..|notes| - 1] + [notes[|notes| - 1]];
    }
  }

  /** NotesFor picks a subsequence: its elements come from increasing
      positions of `notes`. */
  lemma {:induction false} NotesForOrdered(notes: seq<Note>, date: string)
    requires IdsAscending(notes)
    ensures IdsAscending(NotesFor(notes, date))
    decreases |notes|
  {
    if notes != [] {
      var init := notes[..|notes| - 1];
      NotesForOrdered(init, date);
      NotesForExact(init, date);
      var r0 := NotesFor(init, date);
      var last := notes[|notes| - 1];
      forall i | 0 <= i < |r0| ensures r0[i].id < last.id {
        assert r0[i] in r0;
        var k :| 0 <= k < |init| && init[k] == r0[i];
        assert notes[k] == init[k];
      }
      var r := NotesFor(notes, date);
      assert r == r0 + (if last.date == date then [last] else []);
      forall a, b | 0 <= a < b < |r| ensures r[a].id < r[b].id {
        if b < |r0| {
          assert r[a] == r0[a] && r[b] == r0[b];
        } else {
          assert r[a] == r0[a] && r[b] == last;
          assert r0[a].id < last.id;
        }
      }
    }
  }

  // ---- Query ----

  /** A successful query returns the window of the history, row by row,
      with notes possibly attached. */
  lemma QueryIsWindow(m: map<string, DayRecord>, notes: seq<Note>, sel: Selection, withNotes: bool, expected: int)
    requires Query(m, notes, sel, withNotes, expected).Success?
    ensures var h := History(m);
            var w := Window(h, Overtime.Derive(h, expected, 0), sel);
            var r := Query(m, notes, sel, withNotes, expected).value;
            && |r| == |w|
            && forall j :: 0 <= j < |r| ==>
                 r[j].date == w[j].date && r[j].record == w[j].record && r[j].derived == w[j].derived
                 && r[j].notes == (if withNotes then Some(NotesFor(notes, w[j].date)) else w[j].notes)
  {
    var h := History(m);
    var w := Window(h, Overtime.Derive(h, expected, 0), sel);
    assert Query(m, notes, sel, withNotes, expected).value == if withNotes then AttachNotes(w, notes) else w;
  }

  /** A query returns exactly the stored rows it matches, each with its stored
      fields. */
  lemma QueryExact(m: map<string, DayRecord>, notes: seq<Note>, sel: Selection, withNotes: bool, expected: int)
    requires Query(m, notes, sel, withNotes, expected).Success?
    ensures var r := Query(m, notes, sel, withNotes, expected).value;
            && (forall j :: 0 <= j < |r| ==> r[j].date in m && Matches(sel, r[j].date) && r[j].record == m[r[j].date])
            && (forall d :: d in m && Matches(sel, d) ==> exists j :: 0 <= j < |r| && r[j].date == d)
  {
    var r := Query(m, notes, sel, withNotes, expected).value;
    forall j | 0 <= j < |r| ensures r[j].date in m && Matches(sel, r[j].date) && r[j].record == m[r[j].date] {
      QueryRowStored(m, notes, sel, withNotes, expected, j);
    }
    forall d | d in m && Matches(sel, d) ensures exists j :: 0 <= j < |r| && r[j].date == d {
      QueryRowPresent(m, notes, sel, withNotes, expected, d);
    }
  }

  lemma QueryRowStored(m: map<string, DayRecord>, notes: seq<Note>, sel: Selection, withNotes: bool, expected: int, j: nat)
    requires Query(m, notes, sel, withNotes, expected).Success?
    requires j < |Query(m, notes, sel, withNotes, expected).value|
    ensures var r := Query(m, notes, sel, withNotes, expected).value;
            r[j].date in m && Matches(sel, r[j].date) && r[j].record == m[r[j].date]
  {
    var h := History(m);
    var ders := Overtime.Derive(h, expected, 0);
    var w := Window(h, ders, sel);
    QueryIsWindow(m, notes, sel, withNotes, expected);
    WindowSound(h, ders, sel, j);
    var k :| 0 <= k < |h| && Matches(sel, h[k].date) && w[j] == Entry(h[k].date, h[k].record, ders[k], None);
    assert h[k].date in m && h[k].record == m[h[k].date];
  }

  lemma QueryRowPresent(m: map<string, DayRecord>, notes: seq<Note>, sel: Selection, withNotes: bool, expected: int, d: string)
    requires !sel.OnDate? || sel.date in m
    requires d in m && Matches(sel, d)
    ensures var r := Query(m, notes, sel, withNotes, expected).value;
            exists j :: 0 <= j < |r| && r[j].date == d
  {
    var h := History(m);
    var ders := Overtime.Derive(h, expected, 0);
    var w := Window(h, ders, sel);
    var r := Query(m, notes, sel, withNotes, expected).value;
    QueryIsWindow(m, notes, sel, withNotes, expected);
    var k :| 0 <= k < |h| && h[k].date == d;
    WindowComplete(h, ders, sel, k);
    var j :| 0 <= j < |w| && w[j] == Entry(h[k].date, h[k].record, ders[k], None);
    assert r[j].date == d;
  }

  /** A query returns its rows strictly ascending by date. */
  lemma QueryAscending(m: map<string, DayRecord>, notes: seq<Note>, sel: Selection, withNotes: bool, expected: int)
    requires Query(m, notes, sel, withNotes, expected).Success?
    ensures EntriesAscending(Query(m, notes, sel, withNotes, expected).value)
  {
    var h := History(m);
    var ders := Overtime.Derive(h, expected, 0);
    var w := Window(h, ders, sel);
    QueryIsWindow(m, notes, sel, withNotes, expected);
    WindowAscending(h, ders, sel);
  }

  /** A date query that succeeds returns that one row. */
  lemma DateQuerySingle(m: map<string, DayRecord>, notes: seq<Note>, date: string, withNotes: bool, expected: int)
    requires date in m
    ensures var q := Query(m, notes, OnDate(date), withNotes, expected);
            q.Success? && |q.value| == 1 && q.value[0].date == date && q.value[0].record == m[date]
  {
    var r := Query(m, notes, OnDate(date), withNotes, expected).value;
    assert Matches(OnDate(date), date);
    QueryRowPresent(m, notes, OnDate(date), withNotes, expected, date);
    QueryRowStored(m, notes, OnDate(date), withNotes, expected, 0);
    if |r| > 1 {
      QueryRowStored(m, notes, OnDate(date), withNotes, expected, 1);
      QueryAscending(m, notes, OnDate(date), withNotes, expected);
      assert Less(r[0].date, r[1].date);
      LessIrreflexive(date);
    }
  }

  /** With notes requested every row carries the notes of its date, in
      ascending id order (empty when it has none); without, no row has a
      notes field. */
  lemma QueryNotes(m: map<string, DayRecord>, notes: seq<Note>, sel: Selection, withNotes: bool, expected: int)
    requires IdsAscending(notes)
    requires !sel.OnDate? || sel.date in m
    ensures var r := Query(m, notes, sel, withNotes, expected).value;
            forall j :: 0 <= j < |r| ==>
              if withNotes then
                && r[j].notes.Some?
                && (forall n :: n in r[j].notes.value <==> n in notes && n.date == r[j].date)
                && IdsAscending(r[j].notes.value)
              else r[j].notes.None?
  {
    var h := History(m);
    var w := Window(h, Overtime.Derive(h, expected, 0), sel);
    var r := Query(m, notes, sel, withNotes, expected).value;
    QueryIsWindow(m, notes, sel, withNotes, expected);
    forall j | 0 <= j < |r| ensures
              if withNotes then
                && r[j].notes.Some?
                && (forall n :: n in r[j].notes.value <==> n in notes && n.date == r[j].date)
                && IdsAscending(r[j].notes.value)
              else r[j].notes.None?
    {
      if withNotes {
        NotesForExact(notes, w[j].date);
        NotesForOrdered(notes, w[j].date);
      } else {
        WindowSound(h, Overtime.Derive(h, expected, 0), sel, j);
      }
    }
  }

  /** The derived columns of day `k` of `days`: its working time, its
      overtime exactly when it is complete, and the overtime of every complete
      day up to and including it. */
  ghost predicate ColumnsOf(d: Derived, days: seq<Day>, k: nat, expected: int)
    requires k < |days|
  {
    && d.working == Overtime.WorkingMinutes(days[k].record)
    && d.overtime == (if Overtime.Complete(days[k].record)
                      then Some(Overtime.WorkingMinutes(days[k].record).value - expected) else None)
    && d.cumulative == Overtime.Total(days[..k + 1], expected)
  }

  /** The derived columns of a returned row are those of its date in the
      whole history: its balance counts every complete day up to and
      including it, inside the queried window or not. */
  lemma QueryBalance(m: map<string, DayRecord>, notes: seq<Note>, sel: Selection, withNotes: bool, expected: int, j: nat)
    requires Query(m, notes, sel, withNotes, expected).Success?
    requires j < |Query(m, notes, sel, withNotes, expected).value|
    ensures var r := Query(m, notes, sel, withNotes, expected).value;
            var h := History(m);
            exists k :: 0 <= k < |h| && h[k].date == r[j].date && ColumnsOf(r[j].derived, h, k, expected)
  {
    var h := History(m);
    var w := Window(h, Overtime.Derive(h, expected, 0), sel);
    var r := Query(m, notes, sel, withNotes, expected).value;
    QueryIsWindow(m, notes, sel, withNotes, expected);
    WindowBalance(h, expected, sel, j);
    var k :| 0 <= k < |h| && h[k].date == w[j].date && ColumnsOf(w[j].derived, h, k, expected);
    assert r[j].date == w[j].date && r[j].derived == w[j].derived;
  }

  /** The derived columns of a filtered row are those of its day in the
      history the window was cut from. */
  lemma WindowBalance(days: seq<Day>, expected: int, sel: Selection, j: nat)
    requires j < |Window(days, Overtime.Derive(days, expected, 0), sel)|
    ensures var w := Window(days, Overtime.Derive(days, expected, 0), sel);
            exists k :: 0 <= k < |days| && days[k].date == w[j].date && ColumnsOf(w[j].derived, days, k, expected)
  {
    var ders := Overtime.Derive(days, expected, 0);
    var w := Window(days, ders, sel);
    WindowSound(days, ders, sel, j);
    var k :| 0 <= k < |days| && Matches(sel, days[k].date) && w[j] == Entry(days[k].date, days[k].record, ders[k], None);
    DerivedColumns(days, expected, k);
    assert w[j].derived == ders[k];
    assert days[k].date == w[j].date && ColumnsOf(w[j].derived, days, k, expected);
  }

  /** The forward pass gives every day the columns ColumnsOf describes. */
  lemma DerivedColumns(days: seq<Day>, expected: int, k: nat)
    requires k < |days|
    ensures ColumnsOf(Overtime.Derive(days, expected, 0)[k], days, k, expected)
  {
    Overtime.BalanceIsTotal(days, expected, 0, k);
    Overtime.DeriveDaily(days, expected, 0, k);
  }
}
