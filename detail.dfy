/**
 * The detail-page parser (`NobelScraper.get_nomination_info`): from the rows
 * of a nomination's bordered detail table, the (field, value) pairs of every
 * person on it, grouped by role ("Nominee 1", "Nominator 2", ...).
 *
 * A row is given abstractly by what the parser asks of it: its text, the text
 * of its first `<b>` element, the text of its first `<span class="rubr">`
 * element, and the texts of its `<td>` cells.
 */
module Detail {
  import opened Basics
  import opened Text

  datatype DetailRow = DetailRow(text: string, bold: Option<string>, rubric: Option<string>, cells: seq<string>)

  /** One (subject, field, value) triple read off a row. */
  datatype Entry = Entry(subject: string, field: string, value: string)

  /** One key of the result and its (field, value) pairs, in row order. */
  datatype Group = Group(subject: string, pairs: seq<(string, string)>)

  datatype ParseError =
    | MissingDetailTable  // no bordered table on the page: `table.find` on None
    | MissingValueCell  // a rubric row with fewer than two cells: `cells[1]` raises IndexError

  const COMMENTS := "comments"

  /** A field name as `normalize_rubr` leaves it: no colon, comma, space or upper-case letter. */
  predicate IsFieldName(s: string) {
    ':' !in s && ',' !in s && ' ' !in s && forall i :: 0 <= i < |s| ==> !IsUpper(s[i])
  }

  /** `normalize_rubr`: strip, lower-case, drop colons and commas, spaces to underscores. */
  function NormalizeRubric(text: string): (r: string)
    ensures IsFieldName(r)
    ensures |r| <= |Strip(text)|
  {
    var lowered := Lower(Strip(text));
    var bare := RemoveChar(RemoveChar(lowered, ':'), ',');
    assert forall i :: 0 <= i < |bare| ==> !IsUpper(bare[i]) by {
      forall i | 0 <= i < |bare| ensures !IsUpper(bare[i]) {
        assert bare[i] in bare;
      }
    }
    ReplaceChar(bare, ' ', '_')
  }

  /** The subject a bold header names: its text without colons, stripped. */
  function HeaderSubject(bold: string): string {
    Strip(RemoveChar(bold, ':'))
  }

  /** `subject` after a row with visible text: a bold element replaces it. */
  function NextSubject(subject: Option<string>, row: DetailRow): Option<string> {
    if row.bold.Some? then Some(HeaderSubject(row.bold.value)) else subject
  }

  /** `if subject:` in the source: set and not empty. */
  predicate Active(subject: Option<string>) {
    subject.Some? && subject.value != []
  }

  /**
   * The triples a row with visible text emits, `subject` being the subject
   * after the row: nothing without an active subject or from a header row; a
   * rubric row pairs the normalised rubric with the stripped second cell; a
   * one-cell row is a comment holding the row's text; a row of several cells
   * pairs its normalised first cell (with "comment" read as "comments") with
   * its stripped second cell; a row without cells emits nothing.
   */
  function RowEntries(subject: Option<string>, row: DetailRow): Result<seq<Entry>, ParseError> {
    if !Active(subject) || row.bold.Some? then Ok([])
    else if row.rubric.Some? then
      if |row.cells| < 2 then Err(MissingValueCell)
      else Ok([Entry(subject.value, NormalizeRubric(row.rubric.value), Strip(row.cells[1]))])
    else if |row.cells| == 1 then
      Ok([Entry(subject.value, COMMENTS, Strip(row.text))])
    else if |row.cells| > 1 then
      var field := NormalizeRubric(row.cells[0]);
      Ok([Entry(subject.value, if field == "comment" then COMMENTS else field, Strip(row.cells[1]))])
    else
      Ok([])
  }

  /** The triples of the rows, in row order, starting from `subject`; rows without visible text are skipped. */
  function Entries(subject: Option<string>, rows: seq<DetailRow>): Result<seq<Entry>, ParseError>
    decreases rows
  {
    if rows == [] then Ok([])
    else if Strip(rows[0].text) == [] then Entries(subject, rows[1..])
    else
      var next := NextSubject(subject, rows[0]);
      Then(RowEntries(next, rows[0]), Entries(next, rows[1..]))
  }

  /** The position of the group keyed `subject`, or `|groups|` when there is none. */
  function SubjectIndex(groups: seq<Group>, subject: string): (k: nat)
    ensures k <= |groups|
    ensures k < |groups| ==> groups[k].subject == subject
    ensures forall j :: 0 <= j < k ==> groups[j].subject != subject
  {
    if groups == [] then 0
    else if groups[0].subject == subject then 0
    else 1 + SubjectIndex(groups[1..], subject)
  }

  /** The dictionary after one triple: a new key at the end if needed, then its list grows by the pair. */
  function AddEntry(groups: seq<Group>, e: Entry): seq<Group> {
    var k := SubjectIndex(groups, e.subject);
    var keyed := if k == |groups| then groups + [Group(e.subject, [])] else groups;
    keyed[k := keyed[k].(pairs := keyed[k].pairs + [(e.field, e.value)])]
  }

  /** The dictionary built from the triples, in order. */
  function Grouped(entries: seq<Entry>): seq<Group> {
    if entries == [] then [] else AddEntry(Grouped(entries[..|entries| - 1]), entries[|entries| - 1])
  }

  /** What the parser returns for a page whose detail table has the given rows (or is missing). */
  function NominationInfo(table: Option<seq<DetailRow>>): Result<seq<Group>, ParseError> {
    match table
    case None => Err(MissingDetailTable)
    case Some(rows) =>
      var entries :- Entries(None, rows);
      Ok(Grouped(entries))
  }

  /**
   * `get_nomination_info`: the row loop carrying `subject` and appending to
   * `data`, then the loop that builds the dictionary keyed by subject.
   */
  method GetNominationInfo(table: Option<seq<DetailRow>>) returns (r: Result<seq<Group>, ParseError>)
    ensures r == NominationInfo(table)
  {
    if table.None? {
      return Err(MissingDetailTable);
    }
    var rows := table.value;
    var data: seq<Entry> := [];
    var subject: Option<string> := None;
    for i := 0 to |rows|
      invariant Entries(None, rows) == Then(Ok(data), Entries(subject, rows[i..]))
    {
      var row := rows[i];
      assert rows[i..][0] == row && rows[i..][1..] == rows[i + 1..];
      if |Strip(row.text)| == 0 {
        continue;
      }
      var header := row.bold;
      if header.Some? {
        subject := Some(HeaderSubject(header.value));
      }
      var emitted: seq<Entry> := [];
      if subject.Some? && subject.value != [] {
        if row.rubric.Some? && header.None? {
          if |row.cells| < 2 {
            return Err(MissingValueCell);
          }
          emitted := [Entry(subject.value, NormalizeRubric(row.rubric.value), Strip(row.cells[1]))];
        } else if header.None? {
          if |row.cells| == 1 {
            emitted := [Entry(subject.value, COMMENTS, Strip(row.text))];
          } else if |row.cells| > 1 {
            var field := NormalizeRubric(row.cells[0]);
            if field == "comment" {
              field := COMMENTS;
            }
            emitted := [Entry(subject.value, field, Strip(row.cells[1]))];
          }
        }
      }
      assert RowEntries(subject, row) == Ok(emitted);
      ThenAssociative(Ok(data), Ok(emitted), Entries(subject, rows[i + 1..]));
      data := data + emitted;
    }
    assert rows[|rows|..] == [] && data + [] == data;
    var info: seq<Group> := [];
    for j := 0 to |data|
      invariant info == Grouped(data[..j])
    {
      assert data[..j + 1][..j] == data[..j];
      var item := data[j];
      var k := SubjectIndex(info, item.subject);
      if k == |info| {
        info := info + [Group(item.subject, [])];
      }
      info := info[k := info[k].(pairs := info[k].pairs + [(item.field, item.value)])];
    }
    assert data[..|data|] == data;
    r := Ok(info);
  }

  // ---------------------------------------------------------------------
  // Properties of the row handling
  // ---------------------------------------------------------------------

  /** Some row of `rows` is a bold header naming `subject`. */
  predicate NamedByHeader(rows: seq<DetailRow>, subject: string) {
    exists i :: 0 <= i < |rows| && IsHeaderFor(rows[i], subject)
  }

  predicate IsHeaderFor(row: DetailRow, subject: string) {
    row.bold.Some? && HeaderSubject(row.bold.value) == subject
  }

  /** A row's triple carries the row's active subject and a normalised field name. */
  lemma RowEntriesShape(subject: Option<string>, row: DetailRow)
    requires RowEntries(subject, row).Ok?
    ensures forall e :: e in RowEntries(subject, row).value ==>
      Active(subject) && e.subject == subject.value && IsFieldName(e.field)
  {
    assert IsFieldName(COMMENTS);
  }

  /** The birth-year label names the `year_birth` column. */
  lemma BirthYearLabel()
    ensures NormalizeRubric("Year, Birth:") == "year_birth"
  {
    LabelStrips();
    LabelLowered();
    LabelWithoutColon();
    LabelWithoutComma();
    LabelSpaced();
  }

  lemma LabelStrips()
    ensures Strip("Year, Birth:") == "Year, Birth:"
  {
    StripEnds("Year, Birth:");
  }

  lemma LabelLowered()
    ensures Lower("Year, Birth:") == "year, birth:"
  {
    LabelPieces();
    LowerAppend(['Y'] + "ear, ", ['B'] + "irth:");
    LowerCapital('Y', "ear, ");
    LowerCapital('B', "irth:");
    LoweredPieces();
  }

  lemma LabelPieces()
    ensures "Year, Birth:" == ['Y'] + "ear, " + (['B'] + "irth:")
  {
  }

  lemma LoweredPieces()
    ensures [LowerChar('Y')] + "ear, " + ([LowerChar('B')] + "irth:") == "year, birth:"
  {
  }

  lemma LabelWithoutColon()
    ensures RemoveChar("year, birth:", ':') == "year, birth"
  {
    ColonPieces();
    RemoveCharOnce("year, birth", [], ':');
  }

  lemma ColonPieces()
    ensures "year, birth:" == "year, birth" + [':'] + [] && "year, birth" + [] == "year, birth"
    ensures ':' !in "year, birth"
  {
  }

  lemma LabelWithoutComma()
    ensures RemoveChar("year, birth", ',') == "year birth"
  {
    CommaPieces();
    RemoveCharOnce("year", " birth", ',');
  }

  lemma CommaPieces()
    ensures "year, birth" == "year" + [','] + " birth" && "year" + " birth" == "year birth"
    ensures ',' !in "year" && ',' !in " birth"
  {
  }

  lemma LabelSpaced()
    ensures ReplaceChar("year birth", ' ', '_') == "year_birth"
  {
    SpacePieces();
    ReplaceCharOnce("year", "birth", ' ', '_');
  }

  lemma SpacePieces()
    ensures "year birth" == "year" + [' '] + "birth" && "year" + ['_'] + "birth" == "year_birth"
    ensures ' ' !in "year" && ' ' !in "birth"
  {
  }

  /** The subject after a row is the one before it, or the subject its bold header names. */
  lemma NextSubjectFrom(subject: Option<string>, row: DetailRow)
    ensures NextSubject(subject, row) == subject ||
      (NextSubject(subject, row).Some? && IsHeaderFor(row, NextSubject(subject, row).value))
  {
  }

  /**
   * Every triple carries a non-empty subject, which is either the subject the
   * rows started under or the cleaned text of one of their bold headers; every
   * field is a normalised name.
   */
  lemma {:induction false} EntriesFromHeaders(subject: Option<string>, rows: seq<DetailRow>)
    requires Entries(subject, rows).Ok?
    ensures forall e :: e in Entries(subject, rows).value ==>
      e.subject != [] && IsFieldName(e.field) &&
      ((subject.Some? && e.subject == subject.value) || NamedByHeader(rows, e.subject))
    decreases rows
  {
    if rows != [] {
      ShiftHeaders(rows);
      if Strip(rows[0].text) == [] {
        EntriesFromHeaders(subject, rows[1..]);
      } else {
        var next := NextSubject(subject, rows[0]);
        var here := RowEntries(next, rows[0]);
        var rest := Entries(next, rows[1..]);
        assert Entries(subject, rows) == Then(here, rest);
        RowEntriesShape(next, rows[0]);
        EntriesFromHeaders(next, rows[1..]);
        NextSubjectFrom(subject, rows[0]);
        assert Entries(subject, rows).value == here.value + rest.value;
      }
    }
  }

  lemma ShiftHeaders(rows: seq<DetailRow>)
    requires rows != []
    ensures forall s :: NamedByHeader(rows[1..], s) ==> NamedByHeader(rows, s)
  {
    forall s | NamedByHeader(rows[1..], s)
      ensures NamedByHeader(rows, s)
    {
      var i :| 0 <= i < |rows| - 1 && IsHeaderFor(rows[1..][i], s);
      assert rows[i + 1] == rows[1..][i];
    }
  }

  /** A row emits at most one triple, so there are never more triples than rows. */
  lemma {:induction false} EntriesAtMostRows(subject: Option<string>, rows: seq<DetailRow>)
    requires Entries(subject, rows).Ok?
    ensures |Entries(subject, rows).value| <= |rows|
    decreases rows
  {
    if rows != [] {
      EntriesAtMostRows(if Strip(rows[0].text) == [] then subject else NextSubject(subject, rows[0]), rows[1..]);
    }
  }

  /** Text that `strip()` leaves as it is and that is not blank. */
  predicate Clean(s: string) {
    s != [] && Strip(s) == s
  }

  /** A clean field name is its own normal form. */
  lemma NormalizeFieldName(f: string)
    requires IsFieldName(f) && Strip(f) == f
    ensures NormalizeRubric(f) == f
  {
    assert Lower(f) == f;
    assert ReplaceChar(f, ' ', '_') == f;
  }

  /** A bold "<name>:" header names `name`. */
  lemma HeaderNames(name: string)
    requires Clean(name) && ':' !in name
    ensures HeaderSubject(name + ":") == name
    ensures Strip(name + ":") != []
  {
    RemoveCharAppend(name, ":", ':');
    assert RemoveChar(":", ':') == [];
    assert name + [] == name;
    StripEmpty(name + ":");
    assert (name + ":")[|name|] == ':';
  }

  /** The header row, a rubric row and a one-cell comment row of one person's block. */
  function SampleBlock(name: string, field: string, value: string, note: string): seq<DetailRow> {
    [DetailRow(name + ":", Some(name + ":"), None, [name + ":"]),
     DetailRow(field + ": " + value, None, Some(field), [field, value]),
     DetailRow(note, None, None, [note])]
  }

  lemma CommentRow(name: string, note: string)
    requires Clean(name) && Clean(note)
    ensures Entries(Some(name), [DetailRow(note, None, None, [note])]) == Ok([Entry(name, COMMENTS, note)])
  {
    var row := DetailRow(note, None, None, [note]);
    assert [row][0] == row && [row][1..] == [];
    assert [Entry(name, COMMENTS, note)] + [] == [Entry(name, COMMENTS, note)];
  }

  lemma RubricRow(name: string, field: string, value: string, rest: seq<DetailRow>)
    requires Clean(name) && IsFieldName(field) && Clean(field) && Strip(value) == value
    requires Entries(Some(name), rest).Ok?
    ensures Entries(Some(name), [DetailRow(field + ": " + value, None, Some(field), [field, value])] + rest)
      == Ok([Entry(name, field, value)] + Entries(Some(name), rest).value)
  {
    var row := DetailRow(field + ": " + value, None, Some(field), [field, value]);
    NormalizeFieldName(field);
    assert Strip(row.text) != [] by {
      StripEmpty(row.text);
      assert row.text[|field|] == ':';
    }
    assert ([row] + rest)[0] == row && ([row] + rest)[1..] == rest;
    assert RowEntries(Some(name), row) == Ok([Entry(name, field, value)]);
  }

  lemma HeaderRow(name: string, rest: seq<DetailRow>)
    requires Clean(name) && ':' !in name
    ensures Entries(None, [DetailRow(name + ":", Some(name + ":"), None, [name + ":"])] + rest)
      == Entries(Some(name), rest)
  {
    var row := DetailRow(name + ":", Some(name + ":"), None, [name + ":"]);
    HeaderNames(name);
    assert ([row] + rest)[0] == row && ([row] + rest)[1..] == rest;
    assert RowEntries(Some(name), row) == Ok([]);
  }

  /**
   * A block made of a bold "<name>:" header, a rubric row and a one-cell text
   * row gives one key, `name`, holding the rubric's pair and then the comment.
   */
  lemma HeaderRubricAndComment(name: string, field: string, value: string, note: string)
    requires Clean(name) && ':' !in name
    requires IsFieldName(field) && Clean(field) && Strip(value) == value && Clean(note)
    ensures NominationInfo(Some(SampleBlock(name, field, value, note)))
      == Ok([Group(name, [(field, value), (COMMENTS, note)])])
  {
    var noteRow := DetailRow(note, None, None, [note]);
    var rubricRow := DetailRow(field + ": " + value, None, Some(field), [field, value]);
    var headerRow := DetailRow(name + ":", Some(name + ":"), None, [name + ":"]);
    var born := Entry(name, field, value);
    var comment := Entry(name, COMMENTS, note);
    CommentRow(name, note);
    RubricRow(name, field, value, [noteRow]);
    HeaderRow(name, [rubricRow] + [noteRow]);
    assert SampleBlock(name, field, value, note) == [headerRow] + ([rubricRow] + [noteRow]);
    assert [born] + [comment] == [born, comment];
    TwoPairsOneKey(born, comment);
  }

  lemma TwoPairsOneKey(a: Entry, b: Entry)
    requires a.subject == b.subject
    ensures Grouped([a, b]) == [Group(a.subject, [(a.field, a.value), (b.field, b.value)])]
  {
    var pa, pb := (a.field, a.value), (b.field, b.value);
    assert [a, b][..1] == [a] && [a][..0] == [];
    assert Grouped([]) == [];
    assert SubjectIndex([], a.subject) == 0;
    assert [] + [pa] == [pa];
    assert Grouped([a]) == AddEntry([], a);
    assert Grouped([a]) == [Group(a.subject, [pa])];
    assert SubjectIndex([Group(a.subject, [pa])], b.subject) == 0;
    assert Grouped([a, b]) == AddEntry([Group(a.subject, [pa])], b);
    assert [pa] + [pb] == [pa, pb];
  }

  // ---------------------------------------------------------------------
  // Properties of the grouping
  // ---------------------------------------------------------------------

  function Subjects(groups: seq<Group>): seq<string> {
    if groups == [] then [] else [groups[0].subject] + Subjects(groups[1..])
  }

  /** The distinct subjects of the triples, in order of first appearance. */
  function FirstAppearances(entries: seq<Entry>): seq<string> {
    if entries == [] then []
    else
      var seen := FirstAppearances(entries[..|entries| - 1]);
      var s := entries[|entries| - 1].subject;
      if s in seen then seen else seen + [s]
  }

  /** The (field, value) pairs of the triples about `subject`, in order. */
  function PairsFor(entries: seq<Entry>, subject: string): seq<(string, string)> {
    if entries == [] then []
    else
      var e := entries[|entries| - 1];
      PairsFor(entries[..|entries| - 1], subject) + if e.subject == subject then [(e.field, e.value)] else []
  }

  function TotalPairs(groups: seq<Group>): nat {
    if groups == [] then 0 else |groups[0].pairs| + TotalPairs(groups[1..])
  }

  lemma {:induction false} SubjectsAt(groups: seq<Group>)
    ensures |Subjects(groups)| == |groups|
    ensures forall i :: 0 <= i < |groups| ==> Subjects(groups)[i] == groups[i].subject
  {
    if groups != [] {
      SubjectsAt(groups[1..]);
    }
  }

  lemma {:induction false} TotalPairsUpdate(groups: seq<Group>, k: nat, g: Group)
    requires k < |groups|
    ensures TotalPairs(groups[k := g]) + |groups[k].pairs| == TotalPairs(groups) + |g.pairs|
  {
    if k > 0 {
      assert groups[k := g][1..] == groups[1..][k - 1 := g];
      TotalPairsUpdate(groups[1..], k - 1, g);
    }
  }

  lemma {:induction false} TotalPairsAppend(groups: seq<Group>, g: Group)
    ensures TotalPairs(groups + [g]) == TotalPairs(groups) + |g.pairs|
  {
    if groups != [] {
      assert (groups + [g])[1..] == groups[1..] + [g];
      TotalPairsAppend(groups[1..], g);
    }
  }

  /** A subject that never appeared has no pairs. */
  lemma {:induction false} PairsForAbsent(entries: seq<Entry>, subject: string)
    requires subject !in FirstAppearances(entries)
    ensures PairsFor(entries, subject) == []
  {
    if entries != [] {
      PairsForAbsent(entries[..|entries| - 1], subject);
    }
  }

  /** The dictionary after one triple, case by case: a new key at the end, or one key's list extended. */
  lemma AddEntryCases(groups: seq<Group>, e: Entry)
    ensures var k := SubjectIndex(groups, e.subject);
      var pair := (e.field, e.value);
      if k == |groups| then AddEntry(groups, e) == groups + [Group(e.subject, [pair])]
      else AddEntry(groups, e) == groups[k := Group(e.subject, groups[k].pairs + [pair])]
  {
    var pair := (e.field, e.value);
    assert [] + [pair] == [pair];
  }

  /** Subjects are distinct keys, and the lists together hold every triple once. */
  lemma {:induction false} GroupedKeysAndSizes(entries: seq<Entry>)
    ensures forall i, j :: 0 <= i < j < |Grouped(entries)| ==> Grouped(entries)[i].subject != Grouped(entries)[j].subject
    ensures TotalPairs(Grouped(entries)) == |entries|
  {
    if entries != [] {
      var prefix := entries[..|entries| - 1];
      var e := entries[|entries| - 1];
      var gs := Grouped(prefix);
      GroupedKeysAndSizes(prefix);
      AddEntryCases(gs, e);
      var k := SubjectIndex(gs, e.subject);
      var pair := (e.field, e.value);
      if k == |gs| {
        TotalPairsAppend(gs, Group(e.subject, [pair]));
      } else {
        TotalPairsUpdate(gs, k, Group(e.subject, gs[k].pairs + [pair]));
      }
    }
  }

  /**
   * The keys of the dictionary are the distinct subjects in order of first
   * appearance, and each key's list is the in-order list of the pairs emitted
   * for that subject.
   */
  lemma {:induction false} GroupedBySubject(entries: seq<Entry>)
    ensures Subjects(Grouped(entries)) == FirstAppearances(entries)
    ensures forall i :: 0 <= i < |Grouped(entries)| ==>
      Grouped(entries)[i].pairs == PairsFor(entries, Grouped(entries)[i].subject)
  {
    if entries != [] {
      var prefix := entries[..|entries| - 1];
      var e := entries[|entries| - 1];
      var pair := (e.field, e.value);
      var gs := Grouped(prefix);
      GroupedBySubject(prefix);
      GroupedKeysAndSizes(prefix);
      AddEntryCases(gs, e);
      SubjectsAt(gs);
      var r := Grouped(entries);
      SubjectsAt(r);
      var k := SubjectIndex(gs, e.subject);
      if k == |gs| {
        assert forall j :: 0 <= j < |gs| ==> Subjects(gs)[j] != e.subject;
        assert e.subject !in FirstAppearances(prefix);
        PairsForAbsent(prefix, e.subject);
        assert Subjects(r) == Subjects(gs) + [e.subject];
        forall i | 0 <= i < |r| ensures r[i].pairs == PairsFor(entries, r[i].subject) {
          if i == |gs| {
            assert [] + [pair] == [pair];
          } else {
            assert r[i] == gs[i];
          }
        }
      } else {
        assert Subjects(gs)[k] == e.subject;
        assert Subjects(r) == Subjects(gs);
        forall i | 0 <= i < |r| ensures r[i].pairs == PairsFor(entries, r[i].subject) {
          if i != k {
            assert r[i] == gs[i] && gs[i].subject != gs[k].subject;
          }
        }
      }
    }
  }
}
