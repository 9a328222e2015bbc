/** The values the ledger stores and hands out: day records, notes, the
    derived overtime columns and the entries a query returns. */
module Records {

  datatype Option<+T> = None | Some(value: T)

  datatype Result<+T, +E> = Success(value: T) | Failure(error: E)

  /** Why an operation of the ledger or of a formatter gives up. */
  datatype Error =
    | NotFound          // a keyed lookup or delete found no row
    | MissingKey        // a record without a "notes" key where one was expected
    | NotAString        // a missing time concatenated into text
    | Unsupported(format: string)

  /** The outcome of an operation that returns nothing. */
  datatype Outcome = Done | Fail(error: Error)

  /** One row of the work_hours table without its key: every field may be
      absent (NULL), e.g. in the empty row a first note creates. Times are the
      stored "HH:MM" strings, the break a whole number of minutes. The same
      shape is used for an incoming partial update. */
  datatype DayRecord = DayRecord(
    startTime: Option<string>,
    endTime: Option<string>,
    breakDuration: Option<int>)

  const EmptyRecord := DayRecord(None, None, None)

  /** A row of the work_hours table with its key. */
  datatype Day = Day(date: string, record: DayRecord)

  /** A row of the notes table. */
  datatype Note = Note(id: nat, date: string, text: string)

  /** Note ids strictly ascending: the order of the notes table. */
  ghost predicate IdsAscending(notes: seq<Note>)
  {
    forall i, j :: 0 <= i < j < |notes| ==> notes[i].id < notes[j].id
  }

  /** The columns the expected outputs of tests/stmp_test.py show beside each
      row, in minutes: working time and overtime are absent for an incomplete
      day, the running balance never is. */
  datatype Derived = Derived(working: Option<int>, overtime: Option<int>, cumulative: int)

  /** One record as a query returns it; `notes` is present exactly when notes
      were requested. */
  datatype Entry = Entry(date: string, record: DayRecord, derived: Derived, notes: Option<seq<Note>>)
}
