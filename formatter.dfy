/** The output side of stmp/formatter_factory.py: choosing a formatter from
    the --format string, flattening records with notes into table rows (the
    work done before the rows are handed to tabulate) and assembling the
    Markdown text. The records are the entries a query returns; a record
    carries a "notes" key exactly when its `notes` field is present. */
module Formatter {
  import opened Records

  // ---------------------------------------------------------------------------
  // Choosing a formatter
  // ---------------------------------------------------------------------------

  datatype Format = Json | Table | Markdown

  function LowerChar(c: char): char
  {
    if 'A' <= c <= 'Z' then (c as int - 'A' as int + 'a' as int) as char else c
  }

  /** str.lower on ASCII letters. */
  function Lower(s: string): (r: string)
    ensures |r| == |s|
    ensures forall i :: 0 <= i < |s| ==> r[i] == LowerChar(s[i])
  {
    if s == [] then [] else [LowerChar(s[0])] + Lower(s[1..])
  }

  /** `p` sits in `s` at offset `i`. */
  ghost predicate OccursAt(p: string, s: string, i: int)
  {
    0 <= i && i + |p| <= |s| && s[i..i + |p|] == p
  }

  /** Reference meaning of `p in s` on strings: `p` occurs at some offset. */
  ghost predicate Occurs(p: string, s: string)
  {
    exists i :: OccursAt(p, s, i)
  }

  /** `p in s`, searching from the left. */
  function Contains(s: string, p: string): (b: bool)
    ensures b <==> Occurs(p, s)
    decreases |s|
  {
    if |p| > |s| then
      NoRoom(p, s);
      false
    else if s[..|p|] == p then
      assert OccursAt(p, s, 0);
      true
    else
      var rest := Contains(s[1..], p);
      OccursInTail(p, s);
      rest
  }

  lemma NoRoom(p: string, s: string)
    requires |p| > |s|
    ensures !Occurs(p, s)
  {
  }

  /** When `p` is not a prefix of `s`, it occurs in `s` exactly when it
      occurs in `s[1..]`. */
  lemma OccursInTail(p: string, s: string)
    requires |p| <= |s| && s[..|p|] != p
    ensures Occurs(p, s) <==> Occurs(p, s[1..])
  {
    if Occurs(p, s) {
      var i :| OccursAt(p, s, i);
      assert i != 0;
      assert s[1..][i - 1..i - 1 + |p|] == s[i..i + |p|];
      assert OccursAt(p, s[1..], i - 1);
    }
    if Occurs(p, s[1..]) {
      var i :| OccursAt(p, s[1..], i);
      assert s[i + 1..i + 1 + |p|] == s[1..][i..i + |p|];
      assert OccursAt(p, s, i + 1);
    }
  }

  /** FormatterFactory.__init__: "json" is looked for first, then "table",
      then "markdown", each anywhere in the lower-cased format string. */
  function Factory(formatString: string): (r: Result<Format, Error>)
    ensures r == Success(Json) <==> Occurs("json", Lower(formatString))
    ensures r == Success(Table) <==> !Occurs("json", Lower(formatString)) && Occurs("table", Lower(formatString))
    ensures r == Success(Markdown) <==>
              !Occurs("json", Lower(formatString)) && !Occurs("table", Lower(formatString))
              && Occurs("markdown", Lower(formatString))
    ensures r.Failure? ==> r.error == Unsupported(formatString)
  {
    var f := Lower(formatString);
    if Contains(f, "json") then Success(Json)
    else if Contains(f, "table") then Success(Table)
    else if Contains(f, "markdown") then Success(Markdown)
    else Failure(Unsupported(formatString))
  }

  /** A string none of whose characters starts `p` does not contain `p`. */
  lemma FirstCharAbsent(p: string, s: string)
    requires |p| > 0
    requires forall i :: 0 <= i < |s| ==> s[i] != p[0]
    ensures !Occurs(p, s)
  {
    forall i | 0 <= i && i + |p| <= |s| ensures !OccursAt(p, s, i) {
      assert s[i..i + |p|][0] == s[i];
    }
  }

  /** Whatever its case, "json" picks the JSON formatter. */
  lemma FactoryJson(s: string)
    requires Lower(s) == "json"
    ensures Factory(s) == Success(Json)
  {
    assert OccursAt("json", Lower(s), 0);
  }

  /** "table" is looked for before "markdown": any spelling of
      "markdown-table" picks the table formatter. */
  lemma FactoryTableFirst(s: string)
    requires Lower(s) == "markdown-table"
    ensures Factory(s) == Success(Table)
  {
    var f := Lower(s);
    FirstCharAbsent("json", f);
    assert f[9..14] == "table";
    assert OccursAt("table", f, 9);
  }

  /** Any spelling of "markdown" picks the Markdown formatter. */
  lemma FactoryMarkdown(s: string)
    requires Lower(s) == "markdown"
    ensures Factory(s) == Success(Markdown)
  {
    var f := Lower(s);
    FirstCharAbsent("json", f);
    FirstCharAbsent("table", f);
    assert OccursAt("markdown", f, 0);
  }

  /** A format string too short to hold any of the keywords is refused,
      naming it. */
  lemma FactoryRefusesShort(s: string)
    requires |s| < 4
    ensures Factory(s) == Failure(Unsupported(s))
  {
    NoRoom("json", Lower(s));
    NoRoom("table", Lower(s));
    NoRoom("markdown", Lower(s));
  }

  // ---------------------------------------------------------------------------
  // Table rows
  // ---------------------------------------------------------------------------

  /** The note_id and note columns a flattened row gains; both are null for a
      record whose list of notes is empty. */
  datatype NoteColumns = NoteColumns(noteId: Option<nat>, note: Option<string>)

  /** One row handed to tabulate: the record's own columns and, when notes are
      being shown, the note columns. */
  datatype Row = Row(entry: Entry, noteColumns: Option<NoteColumns>)

  /** The row a record yields for one of its notes: the record without its
      notes, with the note's id and text. */
  function NoteRow(base: Entry, n: Note): Row
  {
    Row(base, Some(NoteColumns(Some(n.id), Some(n.text))))
  }

  /** One row per note, in note order. */
  function NoteRows(base: Entry, ns: seq<Note>): (r: seq<Row>)
    ensures |r| == |ns|
    ensures forall k :: 0 <= k < |ns| ==> r[k] == NoteRow(base, ns[k])
  {
    if ns == [] then [] else NoteRows(base, ns[..|ns| - 1]) + [NoteRow(base, ns[|ns| - 1])]
  }

  /** The rows a record with notes expands to. */
  function Expansion(e: Entry): (r: seq<Row>)
    requires e.notes.Some?
    ensures r != []
    ensures forall k :: 0 <= k < |r| ==> r[k].entry == e.(notes := None) && r[k].noteColumns.Some?
  {
    var base := e.(notes := None);
    if e.notes.value == [] then [Row(base, Some(NoteColumns(None, None)))]
    else NoteRows(base, e.notes.value)
  }

  /** max(1, number of notes) */
  function RowsOf(e: Entry): nat
    requires e.notes.Some?
  {
    if e.notes.value == [] then 1 else |e.notes.value|
  }

  ghost predicate AllHaveNotes(records: seq<Entry>)
  {
    forall i :: 0 <= i < |records| ==> records[i].notes.Some?
  }

  /** Total number of rows that records with notes expand to. */
  function RowCount(records: seq<Entry>): nat
    requires AllHaveNotes(records)
  {
    if records == [] then 0 else RowCount(records[..|records| - 1]) + RowsOf(records[|records| - 1])
  }

  /** The expansion of every record, in order; the first record that has no
      "notes" key stops it with a KeyError. */
  function ExpandAll(records: seq<Entry>): (r: Result<seq<Row>, Error>)
    ensures r.Failure? ==> r.error == MissingKey
    ensures r.Success? ==> |r.value| >= |records|
  {
    if records == [] then Success([])
    else
      var last := records[|records| - 1];
      match ExpandAll(records[..|records| - 1])
      case Failure(err) => Failure(err)
      case Success(rows) =>
        if last.notes.None? then Failure(MissingKey) else Success(rows + Expansion(last))
  }

  /** Records shown one row each, unchanged. */
  function PlainRows(records: seq<Entry>): seq<Row>
  {
    seq(|records|, i requires 0 <= i < |records| => Row(records[i], None))
  }

  /** TABLEFormatter.format up to the call of tabulate: whether notes are
      being shown is read off the first record. */
  function Flatten(records: seq<Entry>): (r: Result<seq<Row>, Error>)
    ensures r.Failure? ==> r.error == MissingKey && records != [] && records[0].notes.Some?
    ensures r.Success? ==> |r.value| >= |records|
  {
    if records != [] && records[0].notes.Some? then ExpandAll(records) else Success(PlainRows(records))
  }

  /** A record with k > 0 notes yields k rows, one per note in note order,
      each the record without its notes plus the note's id and text; a record
      with no notes yields one row with null note columns. */
  lemma ExpansionShape(e: Entry)
    requires e.notes.Some?
    ensures |Expansion(e)| == RowsOf(e)
    ensures e.notes.value == [] ==> Expansion(e) == [Row(e.(notes := None), Some(NoteColumns(None, None)))]
    ensures forall k :: 0 <= k < |e.notes.value| ==>
              Expansion(e)[k].entry == e.(notes := None)
              && Expansion(e)[k].noteColumns == Some(NoteColumns(Some(e.notes.value[k].id), Some(e.notes.value[k].text)))
  {
  }

  /** Expansion fails exactly when some record has no "notes" key, and then
      with a missing-key error. */
  lemma ExpandAllFails(records: seq<Entry>)
    ensures ExpandAll(records).Success? <==> AllHaveNotes(records)
    ensures ExpandAll(records).Failure? ==> ExpandAll(records).error == MissingKey
  {
    if AllHaveNotes(records) {
      ExpandAllSucceeds(records);
    } else {
      var i :| 0 <= i < |records| && records[i].notes.None?;
      ExpandAllMissing(records, i);
    }
  }

  lemma NotesPrefix(records: seq<Entry>, i: nat)
    requires AllHaveNotes(records) && i <= |records|
    ensures AllHaveNotes(records[..i])
  {
    forall j | 0 <= j < i ensures records[..i][j].notes.Some? {
      assert records[..i][j] == records[j];
    }
  }

  lemma {:induction false} ExpandAllSucceeds(records: seq<Entry>)
    requires AllHaveNotes(records)
    ensures ExpandAll(records).Success?
    decreases |records|
  {
    if records != [] {
      NotesPrefix(records, |records| - 1);
      ExpandAllSucceeds(records[..|records| - 1]);
    }
  }

  lemma {:induction false} ExpandAllMissing(records: seq<Entry>, i: nat)
    requires i < |records| && records[i].notes.None?
    ensures ExpandAll(records) == Failure(MissingKey)
    decreases |records|
  {
    var n := |records| - 1;
    if i < n {
      assert records[..n][i] == records[i];
      ExpandAllMissing(records[..n], i);
    }
  }

  /** With notes shown, the number of rows is the sum over records of
      max(1, number of notes). */
  lemma {:induction false} ExpandAllCount(records: seq<Entry>)
    requires AllHaveNotes(records)
    ensures ExpandAll(records).Success? && |ExpandAll(records).value| == RowCount(records)
    decreases |records|
  {
    if records != [] {
      var init := records[..|records| - 1];
      NotesPrefix(records, |records| - 1);
      ExpandAllCount(init);
      ExpansionShape(records[|records| - 1]);
    }
  }

  /** Rows keep record order: the rows of record i directly follow the rows
      of the records before it, and all of them lead the output. */
  lemma {:induction false} ExpandAllOrder(records: seq<Entry>, i: nat)
    requires AllHaveNotes(records) && i < |records|
    ensures && ExpandAll(records[..i]).Success?
            && ExpandAll(records).Success?
            && ExpandAll(records[..i]).value + Expansion(records[i]) <= ExpandAll(records).value
    decreases |records|
  {
    var n := |records| - 1;
    var init := records[..n];
    NotesPrefix(records, n);
    NotesPrefix(records, i);
    ExpandAllSucceeds(init);
    ExpandAllSucceeds(records[..i]);
    var rows := ExpandAll(init).value;
    var all := rows + Expansion(records[n]);
    assert ExpandAll(records) == Success(all);
    if i == n {
      assert records[..i] == init;
    } else {
      assert init[..i] == records[..i] && init[i] == records[i];
      ExpandAllOrder(init, i);
      PrefixTransitive(ExpandAll(records[..i]).value + Expansion(records[i]), rows, all);
    }
  }

  lemma PrefixTransitive<T>(a: seq<T>, b: seq<T>, c: seq<T>)
    requires a <= b && b <= c
    ensures a <= c
  {
    assert c[..|b|][..|a|] == c[..|a|];
  }

  /** When the first record has no "notes" key (or there are no records),
      every record becomes exactly one row equal to itself. */
  lemma PlainFlatten(records: seq<Entry>)
    requires records == [] || records[0].notes.None?
    ensures Flatten(records).Success?
    ensures |Flatten(records).value| == |records|
    ensures forall i :: 0 <= i < |records| ==> Flatten(records).value[i] == Row(records[i], None)
  {
  }

  /** When the first record carries notes, flattening succeeds exactly when
      every record does, and then has the expanded row count. */
  lemma NotesFlatten(records: seq<Entry>)
    requires records != [] && records[0].notes.Some?
    ensures Flatten(records).Success? <==> AllHaveNotes(records)
    ensures Flatten(records).Failure? ==> Flatten(records).error == MissingKey
    ensures AllHaveNotes(records) ==> |Flatten(records).value| == RowCount(records)
  {
    ExpandAllFails(records);
    if AllHaveNotes(records) {
      ExpandAllCount(records);
    }
  }

  /** TABLEFormatter.format up to tabulate: every record is copied; when the
      first record has notes, each copy loses its notes and gains one row per
      note (or one row of null note columns). */
  method TableRows(records: seq<Entry>) returns (r: Result<seq<Row>, Error>)
    ensures r == Flatten(records)
  {
    var table: seq<Row> := [];
    var withNotes := records != [] && records[0].notes.Some?;
    var i := 0;
    while i < |records|
      invariant 0 <= i <= |records|
      invariant withNotes ==> ExpandAll(records[..i]) == Success(table)
      invariant !withNotes ==> table == PlainRows(records[..i])
    {
      var record := records[i];
      if withNotes {
        if record.notes.None? {
          ExpandAllFails(records);
          return Failure(MissingKey);
        }
        ExpandAllStep(records, i);
        var copy := record.(notes := None);
        var ns := record.notes.value;
        if ns == [] {
          table := table + [Row(copy, Some(NoteColumns(None, None)))];
        } else {
          ghost var before := table;
          var j := 0;
          while j < |ns|
            invariant 0 <= j <= |ns|
            invariant table == before + NoteRows(copy, ns[..j])
          {
            NoteRowsStep(copy, ns, j);
            AppendAssoc(before, NoteRows(copy, ns[..j]), [NoteRow(copy, ns[j])]);
            table := table + [NoteRow(copy, ns[j])];
            j := j + 1;
          }
          assert ns[..j] == ns;
          assert table == before + Expansion(record);
        }
      } else {
        PlainStep(records, i);
        table := table + [Row(record, None)];
      }
      i := i + 1;
    }
    assert records[..i] == records;
    r := Success(table);
  }

  lemma NoteRowsStep(base: Entry, ns: seq<Note>, j: nat)
    requires j < |ns|
    ensures NoteRows(base, ns[..j + 1]) == NoteRows(base, ns[..j]) + [NoteRow(base, ns[j])]
  {
    assert ns[..j + 1][..j] == ns[..j];
  }

  /** One more record with notes appends its expansion. */
  lemma ExpandAllStep(records: seq<Entry>, i: nat)
    requires i < |records| && records[i].notes.Some?
    requires ExpandAll(records[..i]).Success?
    ensures ExpandAll(records[..i + 1]) == Success(ExpandAll(records[..i]).value + Expansion(records[i]))
  {
    assert records[..i + 1][..i] == records[..i];
    assert records[..i + 1][i] == records[i];
  }

  /** One more record (notes not shown) appends one row for it. */
  lemma PlainStep(records: seq<Entry>, i: nat)
    requires i < |records|
    ensures PlainRows(records[..i + 1]) == PlainRows(records[..i]) + [Row(records[i], None)]
  {
  }

  // ---------------------------------------------------------------------------
  // Markdown
  // ---------------------------------------------------------------------------

  /** "- note\n" */
  function Bullet(n: Note): string
  {
    "- " + n.text + "\n"
  }

  /** One bullet per note, in order. */
  function Bullets(ns: seq<Note>): string
  {
    if ns == [] then "" else Bullets(ns[..|ns| - 1]) + Bullet(ns[|ns| - 1])
  }

  lemma BulletsStep(ns: seq<Note>, j: nat)
    requires j < |ns|
    ensures Bullets(ns[..j + 1]) == Bullets(ns[..j]) + Bullet(ns[j])
  {
    assert ns[..j + 1][..j] == ns[..j];
  }

  /** The bullets of consecutive note lists are the bullets of each list,
      in order. */
  lemma {:induction false} BulletsConcat(a: seq<Note>, b: seq<Note>)
    ensures Bullets(a + b) == Bullets(a) + Bullets(b)
    decreases |b|
  {
    if b == [] {
      assert a + b == a;
      assert Bullets(a) + "" == Bullets(a);
    } else {
      var b' := b[..|b| - 1];
      assert (a + b)[..|a + b| - 1] == a + b';
      assert (a + b)[|a + b| - 1] == b[|b| - 1];
      BulletsConcat(a, b');
      AppendAssoc(Bullets(a), Bullets(b'), Bullet(b[|b| - 1]));
    }
  }

  /** A single note gives the single line "- text". */
  lemma BulletsSingle(n: Note)
    ensures Bullets([n]) == "- " + n.text + "\n"
  {
    assert [n][..0] == [];
    assert "" + Bullet(n) == Bullet(n);
  }

  function Heading(date: string, start: string, end: string): string
  {
    "## " + date + " | " + start + " - " + end + "\n\n"
  }

  /** The text of one record: its heading, then, when it has a "notes" key,
      its bullets and a blank line pair. A missing start or end time cannot
      be concatenated into the heading. */
  function Section(e: Entry): (r: Result<string, Error>)
    ensures r.Success? <==> e.record.startTime.Some? && e.record.endTime.Some?
    ensures r.Failure? ==> r.error == NotAString
    ensures r.Success? ==> r.value == Heading(e.date, e.record.startTime.value, e.record.endTime.value)
                                     + (if e.notes.Some? then Bullets(e.notes.value) + "\n\n" else "")
  {
    match (e.record.startTime, e.record.endTime)
    case (Some(s), Some(t)) =>
      if e.notes.Some? then Success(Heading(e.date, s, t) + Bullets(e.notes.value) + "\n\n")
      else Success(Heading(e.date, s, t))
    case _ => Failure(NotAString)
  }

  /** MARKDOWNFormatter.format as a fold over the records. */
  function MarkdownText(records: seq<Entry>): (r: Result<string, Error>)
    ensures r.Failure? ==> r.error == NotAString
  {
    if records == [] then Success("")
    else
      match MarkdownText(records[..|records| - 1])
      case Failure(err) => Failure(err)
      case Success(md) =>
        match Section(records[|records| - 1])
        case Failure(err) => Failure(err)
        case Success(text) => Success(md + text)
  }

  ghost predicate AllTimed(records: seq<Entry>)
  {
    forall i :: 0 <= i < |records| ==> records[i].record.startTime.Some? && records[i].record.endTime.Some?
  }

  /** The Markdown text exists exactly when every record has both a start and
      an end time. */
  lemma {:induction false} MarkdownFails(records: seq<Entry>)
    ensures MarkdownText(records).Success? <==> AllTimed(records)
    ensures MarkdownText(records).Failure? ==> MarkdownText(records).error == NotAString
    decreases |records|
  {
    if records != [] {
      var init := records[..|records| - 1];
      MarkdownFails(init);
      if AllTimed(records) {
        assert AllTimed(init) by {
          forall i | 0 <= i < |init| ensures init[i].record.startTime.Some? && init[i].record.endTime.Some? {
            assert init[i] == records[i];
          }
        }
      } else if AllTimed(init) {
        var i :| 0 <= i < |records| && !(records[i].record.startTime.Some? && records[i].record.endTime.Some?);
        assert i == |records| - 1;
      }
    }
  }

  /** The text of consecutive records is the text of the first part followed
      by the text of the second. */
  lemma {:induction false} MarkdownConcat(a: seq<Entry>, b: seq<Entry>)
    requires MarkdownText(a).Success? && MarkdownText(b).Success?
    ensures MarkdownText(a + b) == Success(MarkdownText(a).value + MarkdownText(b).value)
    decreases |b|
  {
    if b == [] {
      assert a + b == a;
      assert MarkdownText(b) == Success("");
      assert MarkdownText(a).value + "" == MarkdownText(a).value;
    } else {
      var b' := b[..|b| - 1];
      var last := b[|b| - 1];
      MarkdownSnoc(b);
      MarkdownConcat(a, b');
      assert (a + b)[..|a + b| - 1] == a + b';
      assert (a + b)[|a + b| - 1] == last;
      MarkdownSnoc(a + b);
      var x, y, z := MarkdownText(a).value, MarkdownText(b').value, Section(last).value;
      assert MarkdownText(b).value == y + z;
      assert MarkdownText(a + b').value == x + y;
      assert MarkdownText(a + b).value == x + y + z;
      AppendAssoc(x, y, z);
    }
  }

  lemma AppendAssoc<T>(x: seq<T>, y: seq<T>, z: seq<T>)
    ensures x + y + z == x + (y + z)
  {
  }

  /** One more record appends its section, or fails when it has none. */
  lemma MarkdownSnoc(records: seq<Entry>)
    requires records != []
    ensures var init, last := records[..|records| - 1], records[|records| - 1];
            && (MarkdownText(records).Success? <==> MarkdownText(init).Success? && Section(last).Success?)
            && (MarkdownText(records).Success? ==>
                  MarkdownText(records).value == MarkdownText(init).value + Section(last).value)
  {
  }

  /** A record without a "notes" key gives only its heading. */
  lemma MarkdownWithoutNotes(e: Entry)
    requires e.record.startTime.Some? && e.record.endTime.Some? && e.notes.None?
    ensures MarkdownText([e])
            == Success("## " + e.date + " | " + e.record.startTime.value + " - " + e.record.endTime.value + "\n\n")
  {
    assert [e][..0] == [];
    assert "" + Section(e).value == Section(e).value;
  }

  /** With the "notes" key but no notes, the heading is followed only by the
      blank pair. */
  lemma MarkdownEmptyNotes(e: Entry)
    requires e.record.startTime.Some? && e.record.endTime.Some? && e.notes == Some([])
    ensures MarkdownText([e]) == Success(Heading(e.date, e.record.startTime.value, e.record.endTime.value) + "\n\n")
  {
    var h := Heading(e.date, e.record.startTime.value, e.record.endTime.value);
    assert [e][..0] == [];
    assert h + "" == h;
    assert "" + Section(e).value == Section(e).value;
  }

  /** Two notes become two bullets, in order, before the blank pair. */
  lemma MarkdownTwoNotes(e: Entry, n1: Note, n2: Note)
    requires e.record.startTime.Some? && e.record.endTime.Some? && e.notes == Some([n1, n2])
    ensures MarkdownText([e])
            == Success(Heading(e.date, e.record.startTime.value, e.record.endTime.value)
                       + Bullet(n1) + Bullet(n2) + "\n\n")
  {
    var h := Heading(e.date, e.record.startTime.value, e.record.endTime.value);
    var ns := [n1, n2];
    assert [e][..0] == [];
    BulletsStep(ns, 0);
    BulletsStep(ns, 1);
    assert ns[..0] == [] && ns[..2] == ns;
    assert Bullets(ns) == "" + Bullet(n1) + Bullet(n2);
    assert "" + Bullet(n1) == Bullet(n1);
    assert "" + Section(e).value == Section(e).value;
    AppendAssoc(h, Bullet(n1), Bullet(n2));
  }

  /** MARKDOWNFormatter.format: for each record its heading, then one bullet
      per note and a blank pair when the record has a "notes" key. */
  method MarkdownFormat(records: seq<Entry>) returns (r: Result<string, Error>)
    ensures r == MarkdownText(records)
  {
    var md := "";
    var i := 0;
    while i < |records|
      invariant 0 <= i <= |records|
      invariant MarkdownText(records[..i]) == Success(md)
    {
      var record := records[i];
      assert records[..i + 1][..i] == records[..i];
      assert records[..i + 1][i] == record;
      if record.record.startTime.None? || record.record.endTime.None? {
        MarkdownFails(records);
        return Failure(NotAString);
      }
      ghost var before := md;
      var heading := Heading(record.date, record.record.startTime.value, record.record.endTime.value);
      md := md + heading;
      if record.notes.Some? {
        var ns := record.notes.value;
        var j := 0;
        while j < |ns|
          invariant 0 <= j <= |ns|
          invariant md == before + heading + Bullets(ns[..j])
        {
          BulletsStep(ns, j);
          AppendAssoc(before + heading, Bullets(ns[..j]), Bullet(ns[j]));
          md := md + Bullet(ns[j]);
          j := j + 1;
        }
        assert ns[..j] == ns;
        AppendAssoc(before, heading, Bullets(ns));
        AppendAssoc(before, heading + Bullets(ns), "\n\n");
        md := md + "\n\n";
      }
      assert MarkdownText(records[..i + 1]) == Success(before + Section(record).value);
      i := i + 1;
    }
    assert records[..i] == records;
    r := Success(md);
  }
}
