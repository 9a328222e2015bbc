/** How an incoming partial update of a day combines with the stored row
    (stmp/stmp.py, update_work_hours and the three writers it chooses from).
    Every rule works field by field and is built from one choice: keep the
    first value if it is present, otherwise take the second. */
module MergePolicy {
  import opened Records

  /** `a if a is not None else b`. */
  function FirstPresent<T>(a: Option<T>, b: Option<T>): (r: Option<T>)
    ensures a.Some? ==> r == a
    ensures a.None? ==> r == b
  {
    if a.Some? then a else b
  }

  /** `b` is `a` with possibly more fields filled in: every field present in
      `a` has the same value in `b`. */
  predicate Extends(b: DayRecord, a: DayRecord)
  {
    && (a.startTime.Some? ==> b.startTime == a.startTime)
    && (a.endTime.Some? ==> b.endTime == a.endTime)
    && (a.breakDuration.Some? ==> b.breakDuration == a.breakDuration)
  }

  /** Fields present in `r` are exactly those present in `a` or in `b`. */
  predicate PresentInEither(r: DayRecord, a: DayRecord, b: DayRecord)
  {
    && (r.startTime.Some? <==> a.startTime.Some? || b.startTime.Some?)
    && (r.endTime.Some? <==> a.endTime.Some? || b.endTime.Some?)
    && (r.breakDuration.Some? <==> a.breakDuration.Some? || b.breakDuration.Some?)
  }

  /** insert_work_hours: the row for a date not yet stored is the incoming
      update as it is, absent fields staying absent. */
  function InsertRecord(u: DayRecord): (r: DayRecord)
    ensures r.startTime == u.startTime && r.endTime == u.endTime && r.breakDuration == u.breakDuration
  {
    DayRecord(u.startTime, u.endTime, u.breakDuration)
  }

  /** overwrite_upsert_work_hours: a present incoming field replaces the
      stored one, an absent one leaves it as it was. */
  function OverwriteUpsert(row: DayRecord, u: DayRecord): (r: DayRecord)
    ensures Extends(r, u)
    ensures u.startTime.None? ==> r.startTime == row.startTime
    ensures u.endTime.None? ==> r.endTime == row.endTime
    ensures u.breakDuration.None? ==> r.breakDuration == row.breakDuration
  {
    DayRecord(
      FirstPresent(u.startTime, row.startTime),
      FirstPresent(u.endTime, row.endTime),
      FirstPresent(u.breakDuration, row.breakDuration))
  }

  /** no_overwrite_upsert_work_hours: a stored field that is present is never
      replaced; only absent stored fields take the incoming value. */
  function NoOverwriteUpsert(row: DayRecord, u: DayRecord): (r: DayRecord)
    ensures Extends(r, row)
    ensures row.startTime.None? ==> r.startTime == u.startTime
    ensures row.endTime.None? ==> r.endTime == u.endTime
    ensures row.breakDuration.None? ==> r.breakDuration == u.breakDuration
  {
    DayRecord(
      FirstPresent(row.startTime, u.startTime),
      FirstPresent(row.endTime, u.endTime),
      FirstPresent(row.breakDuration, u.breakDuration))
  }

  /** update_work_hours: the rule is chosen by whether a row is stored for the
      date and by the overwrite flag. */
  function Merge(stored: Option<DayRecord>, u: DayRecord, overwrite: bool): (r: DayRecord)
    ensures stored.None? ==> r == u
    ensures stored.Some? && overwrite ==> Extends(r, u) && PresentInEither(r, stored.value, u)
    ensures stored.Some? && !overwrite ==> Extends(r, stored.value) && PresentInEither(r, stored.value, u)
    // overwriting: a field the update omits keeps its stored value
    ensures stored.Some? && overwrite ==>
              (u.startTime.None? ==> r.startTime == stored.value.startTime)
              && (u.endTime.None? ==> r.endTime == stored.value.endTime)
              && (u.breakDuration.None? ==> r.breakDuration == stored.value.breakDuration)
    // filling gaps: a stored gap takes the update's value
    ensures stored.Some? && !overwrite ==>
              (stored.value.startTime.None? ==> r.startTime == u.startTime)
              && (stored.value.endTime.None? ==> r.endTime == u.endTime)
              && (stored.value.breakDuration.None? ==> r.breakDuration == u.breakDuration)
  {
    match stored
    case None => InsertRecord(u)
    case Some(row) => if overwrite then OverwriteUpsert(row, u) else NoOverwriteUpsert(row, u)
  }

  /** Applying the same overwriting update twice stores what applying it once
      does. */
  lemma OverwriteIdempotent(row: DayRecord, u: DayRecord)
    ensures OverwriteUpsert(OverwriteUpsert(row, u), u) == OverwriteUpsert(row, u)
  {
  }

  /** The fill-gaps rule is idempotent as well. */
  lemma NoOverwriteIdempotent(row: DayRecord, u: DayRecord)
    ensures NoOverwriteUpsert(NoOverwriteUpsert(row, u), u) == NoOverwriteUpsert(row, u)
  {
  }

  /** The two modes are one rule with the roles of stored row and update
      exchanged. */
  lemma ModesAreMirrored(row: DayRecord, u: DayRecord)
    ensures NoOverwriteUpsert(row, u) == OverwriteUpsert(u, row)
  {
  }

  /** Two overwriting updates in a row act as one update obtained by
      overwriting the first with the second. */
  lemma OverwriteComposes(row: DayRecord, u1: DayRecord, u2: DayRecord)
    ensures OverwriteUpsert(OverwriteUpsert(row, u1), u2) == OverwriteUpsert(row, OverwriteUpsert(u1, u2))
  {
  }

  /** Onto the all-absent row a first note creates, both modes store the
      update as if no row had existed. */
  lemma MergeOntoEmptyRow(u: DayRecord, overwrite: bool)
    ensures Merge(Some(EmptyRecord), u, overwrite) == Merge(None, u, overwrite)
  {
  }

  /** Once the fill-gaps rule has been applied to a complete row, no later
      fill-gaps update changes it. */
  lemma NoOverwriteFixesCompleteRow(row: DayRecord, u: DayRecord)
    requires row.startTime.Some? && row.endTime.Some? && row.breakDuration.Some?
    ensures NoOverwriteUpsert(row, u) == row
  {
  }

  /** The scenario of tests/stmp_test.py: a stored start of 07:00 survives an
      incoming 12:00 when overwriting is off; an overwriting update replaces it. */
  lemma StoredStartSurvives()
    ensures var row := DayRecord(Some("07:00"), Some("16:00"), Some(30));
            var u := DayRecord(Some("12:00"), None, None);
            Merge(Some(row), u, false) == row
            && Merge(Some(row), u, true) == DayRecord(Some("12:00"), Some("16:00"), Some(30))
  {
  }
}
