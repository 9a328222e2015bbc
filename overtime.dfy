/** Working time, daily overtime and the running overtime balance, in whole
    minutes. A day counts only when its start, end and break are all present:
    a day missing its break shows no working time (tests/stmp_test.py). The
    balance is one accumulator carried over the date-ordered history and
    left unchanged by incomplete days. stmp/stmp.py computes none of these
    columns; the rules follow the expected outputs of tests/stmp_test.py. */
module Overtime {
  import opened Records

  /** 7.8 hours, the default expected length of a working day. */
  const ExpectedWorkdayMinutes := 468

  predicate IsDigit(c: char)
  {
    '0' <= c <= '9'
  }

  function DigitValue(c: char): (r: nat)
    requires IsDigit(c)
    ensures r < 10
  {
    c as int - '0' as int
  }

  /** A well-formed wall-clock string "HH:MM", hours 00-23, minutes 00-59. */
  predicate IsClock(t: string)
  {
    && |t| == 5
    && IsDigit(t[0]) && IsDigit(t[1]) && t[2] == ':' && IsDigit(t[3]) && IsDigit(t[4])
    && DigitValue(t[0]) * 10 + DigitValue(t[1]) < 24
    && DigitValue(t[3]) * 10 + DigitValue(t[4]) < 60
  }

  /** Minutes since midnight of a stored time; absent for anything that is
      not a well-formed "HH:MM" string. */
  function ClockMinutes(t: string): (r: Option<int>)
    ensures r.Some? <==> IsClock(t)
    ensures r.Some? ==> 0 <= r.value < 24 * 60
  {
    if IsClock(t) then
      Some((DigitValue(t[0]) * 10 + DigitValue(t[1])) * 60 + DigitValue(t[3]) * 10 + DigitValue(t[4]))
    else None
  }

  function DigitChar(d: nat): (c: char)
    requires d < 10
    ensures IsDigit(c) && DigitValue(c) == d
  {
    ('0' as int + d) as char
  }

  /** The "HH:MM" text of a minute of the day: the inverse of ClockMinutes. */
  function ClockText(n: nat): (t: string)
    requires n < 24 * 60
    ensures IsClock(t)
  {
    var h, m := n / 60, n % 60;
    [DigitChar(h / 10), DigitChar(h % 10), ':', DigitChar(m / 10), DigitChar(m % 10)]
  }

  lemma ClockRoundTrip(n: nat)
    requires n < 24 * 60
    ensures ClockMinutes(ClockText(n)) == Some(n)
  {
    var h, m := n / 60, n % 60;
    assert (h / 10 * 10 + h % 10) * 60 + m / 10 * 10 + m % 10 == n;
  }

  lemma TextRoundTrip(t: string)
    requires IsClock(t)
    ensures ClockText(ClockMinutes(t).value) == t
  {
    var h := DigitValue(t[0]) * 10 + DigitValue(t[1]);
    var m := DigitValue(t[3]) * 10 + DigitValue(t[4]);
    var n := h * 60 + m;
    assert n / 60 == h && n % 60 == m;
    assert h / 10 == DigitValue(t[0]) && h % 10 == DigitValue(t[1]);
    assert m / 10 == DigitValue(t[3]) && m % 10 == DigitValue(t[4]);
    var r := ClockText(n);
    assert r[0] == t[0] && r[1] == t[1] && r[2] == t[2] && r[3] == t[3] && r[4] == t[4];
  }

  /** A day whose working time can be computed. */
  predicate Complete(rec: DayRecord)
  {
    && rec.startTime.Some? && IsClock(rec.startTime.value)
    && rec.endTime.Some? && IsClock(rec.endTime.value)
    && rec.breakDuration.Some?
  }

  /** end - start - break; negative values flow through unchecked. */
  function WorkingMinutes(rec: DayRecord): (r: Option<int>)
    ensures r.Some? <==> Complete(rec)
    ensures r.Some? ==> r.value == ClockMinutes(rec.endTime.value).value
                                   - ClockMinutes(rec.startTime.value).value
                                   - rec.breakDuration.value
  {
    if rec.startTime.None? || rec.endTime.None? || rec.breakDuration.None? then None
    else
      match (ClockMinutes(rec.startTime.value), ClockMinutes(rec.endTime.value))
      case (Some(s), Some(e)) => Some(e - s - rec.breakDuration.value)
      case _ => None
  }

  /** What one day adds to the balance: its overtime, or nothing. */
  function Contribution(rec: DayRecord, expected: int): int
  {
    match WorkingMinutes(rec)
    case Some(w) => w - expected
    case None => 0
  }

  /** Independent reference for the balance: the sum of the overtime of the
      complete days among `days`. */
  function Total(days: seq<Day>, expected: int): (r: int)
    ensures (forall i :: 0 <= i < |days| ==> !Complete(days[i].record)) ==> r == 0
  {
    if days == [] then 0 else Contribution(days[0].record, expected) + Total(days[1..], expected)
  }

  /** The forward pass over the date-ordered history, starting from balance
      `carried`: every day reports its working time and overtime when it is
      complete, and the balance after it. */
  function Derive(days: seq<Day>, expected: int, carried: int): (r: seq<Derived>)
    ensures |r| == |days|
    decreases |days|
  {
    if days == [] then []
    else
      var w := WorkingMinutes(days[0].record);
      var ot := if w.Some? then Some(w.value - expected) else None;
      var balance := if ot.Some? then carried + ot.value else carried;
      [Derived(w, ot, balance)] + Derive(days[1..], expected, balance)
  }

  /** Every day reports its working time, and its overtime exactly when it is
      complete. */
  lemma {:induction false} DeriveDaily(days: seq<Day>, expected: int, carried: int, i: nat)
    requires i < |days|
    ensures Derive(days, expected, carried)[i].working == WorkingMinutes(days[i].record)
    ensures Derive(days, expected, carried)[i].overtime
            == (if Complete(days[i].record) then Some(WorkingMinutes(days[i].record).value - expected) else None)
    decreases i
  {
    if i > 0 {
      var c := carried + Contribution(days[0].record, expected);
      assert Derive(days, expected, carried)[1..] == Derive(days[1..], expected, c);
      DeriveDaily(days[1..], expected, c, i - 1);
    }
  }

  /** The balance a day reports is the carried-in balance plus the overtime of
      every complete day up to and including it. */
  lemma {:induction false} BalanceIsTotal(days: seq<Day>, expected: int, carried: int, i: nat)
    requires i < |days|
    ensures Derive(days, expected, carried)[i].cumulative == carried + Total(days[..i + 1], expected)
    decreases |days|
  {
    var r := Derive(days, expected, carried);
    var c := carried + Contribution(days[0].record, expected);
    assert r[0].cumulative == c;
    assert days[..1][1..] == [];
    if i > 0 {
      assert r[1..] == Derive(days[1..], expected, c);
      BalanceIsTotal(days[1..], expected, c, i - 1);
      assert days[..i + 1][1..] == days[1..][..i];
    }
  }

  /** An incomplete day carries the previous balance forward unchanged (the
      starting balance for the first day); a complete day adds its overtime. */
  lemma CarryForward(days: seq<Day>, expected: int, i: nat)
    requires 0 < i < |days|
    ensures var r := Derive(days, expected, 0);
            && (!Complete(days[i].record) ==> r[i].cumulative == r[i - 1].cumulative)
            && (Complete(days[i].record) ==>
                  (r[i].overtime.Some? && r[i].cumulative == r[i - 1].cumulative + r[i].overtime.value))
  {
    DeriveDaily(days, expected, 0, i);
    BalanceIsTotal(days, expected, 0, i);
    BalanceIsTotal(days, expected, 0, i - 1);
    TotalSnoc(days[..i + 1], expected);
    assert days[..i + 1][..i] == days[..i];
  }

  lemma {:induction false} TotalSnoc(days: seq<Day>, expected: int)
    requires days != []
    ensures Total(days, expected) == Total(days[..|days| - 1], expected) + Contribution(days[|days| - 1].record, expected)
    decreases |days|
  {
    if |days| > 1 {
      TotalSnoc(days[1..], expected);
      assert days[1..][..|days| - 2] == days[..|days| - 1][1..];
    } else {
      assert days[..0] == [];
    }
  }

  /** Monotonic carry-forward: when no day after `j` up to `i` is complete,
      day `i` reports the balance of day `j`. */
  lemma {:induction false} BalanceAcrossGap(days: seq<Day>, expected: int, j: nat, i: nat)
    requires j <= i < |days|
    requires forall k :: j < k <= i ==> !Complete(days[k].record)
    ensures Derive(days, expected, 0)[i].cumulative == Derive(days, expected, 0)[j].cumulative
    decreases i - j
  {
    if j < i {
      BalanceAcrossGap(days, expected, j, i - 1);
      CarryForward(days, expected, i);
    }
  }

  /** With no complete day up to `i`, day `i` reports a balance of 0. */
  lemma {:induction false} NoCompleteDayNoBalance(days: seq<Day>, expected: int, i: nat)
    requires i < |days|
    requires forall k :: 0 <= k <= i ==> !Complete(days[k].record)
    ensures Derive(days, expected, 0)[i].cumulative == 0
    decreases i
  {
    if i == 0 {
      assert !Complete(days[0].record);
    } else {
      NoCompleteDayNoBalance(days, expected, i - 1);
      CarryForward(days, expected, i);
    }
  }

  /** The three days of tests/stmp_test.py, expected day 468 minutes: 450 and
      430 minutes of work give -18 and -38 minutes of overtime (-0.3 h and
      -0.63 h), balance -56 minutes (-0.93 h), carried over the day without a
      break. */
  lemma TestScenario()
    ensures Derive([Day("2020-02-01", DayRecord(Some("08:00"), Some("16:00"), Some(30))),
                    Day("2020-02-02", DayRecord(Some("07:00"), Some("15:00"), Some(50))),
                    Day("2020-03-02", DayRecord(Some("06:00"), Some("14:00"), None))],
                   ExpectedWorkdayMinutes, 0)
            == [Derived(Some(450), Some(-18), -18),
                Derived(Some(430), Some(-38), -56),
                Derived(None, None, -56)]
  {
    assert ClockMinutes("08:00") == Some(480);
    assert ClockMinutes("16:00") == Some(960);
    assert ClockMinutes("07:00") == Some(420);
    assert ClockMinutes("15:00") == Some(900);
  }
}
