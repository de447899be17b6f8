/**
 * `NobelScraper.export`: the CSV lines written for the records of
 * `get_records`, one line per nominee and per nominator, under a fixed
 * header. A line is given as its cells after `csv.writer` has turned them
 * into text (an integer by `str`, a NULL column as the empty string).
 */
module Export {
  import opened Basics
  import opened Text
  import opened Store

  const HEADER := ["url", "id", "prize", "year", "role", "name", "gender", "year_birth",
                   "year_death", "profession", "university", "city", "state", "country",
                   "motivation", "comments"]

  /** The cells before a person's: url, id, prize and year. */
  const PRIZE_FIELDS := 4

  /** `format_row`: the role, then the person's columns in the header's order. */
  function FormatRow(p: Person): seq<Option<string>>
    requires HasColumns(p)
  {
    assert "name" in INFO_COLUMNS && "gender" in INFO_COLUMNS && "year_birth" in INFO_COLUMNS;
    assert "year_death" in INFO_COLUMNS && "profession" in INFO_COLUMNS && "university" in INFO_COLUMNS;
    assert "city" in INFO_COLUMNS && "state" in INFO_COLUMNS && "country" in INFO_COLUMNS;
    assert "motivation" in INFO_COLUMNS && "comments" in INFO_COLUMNS;
    [Some(p.role), p.attrs["name"], p.attrs["gender"], p.attrs["year_birth"], p.attrs["year_death"],
     p.attrs["profession"], p.attrs["university"], p.attrs["city"], p.attrs["state"],
     p.attrs["country"], p.attrs["motivation"], p.attrs["comments"]]
  }

  /** What `csv.writer` writes for a value that may be NULL. */
  function Render(v: Option<string>): string {
    if v.Some? then v.value else ""
  }

  function RenderAll(vs: seq<Option<string>>): (r: seq<string>)
    ensures |r| == |vs| && forall i :: 0 <= i < |vs| ==> r[i] == Render(vs[i])
  {
    if vs == [] then [] else [Render(vs[0])] + RenderAll(vs[1..])
  }

  /** `prize_fields` followed by `format_row(person)`. */
  function PersonLine(rec: Record, p: Person): seq<string>
    requires HasColumns(p)
  {
    [NominationUrl(rec.id), IntToString(rec.id), rec.prize, IntToString(rec.year)] + RenderAll(FormatRow(p))
  }

  /** The people of the records carry every info column. */
  predicate RecordsHaveColumns(records: seq<Record>) {
    forall rec :: rec in records ==> AllHaveColumns(rec.nominees) && AllHaveColumns(rec.nominators)
  }

  /** The lines of one group of people of a record, in order. */
  function PeopleLines(rec: Record, ps: seq<Person>): seq<seq<string>>
    requires AllHaveColumns(ps)
  {
    if ps == [] then [] else PeopleLines(rec, ps[..|ps| - 1]) + [PersonLine(rec, ps[|ps| - 1])]
  }

  /** A record's lines: its nominees first, then its nominators. */
  function RecordLines(rec: Record): seq<seq<string>>
    requires AllHaveColumns(rec.nominees) && AllHaveColumns(rec.nominators)
  {
    PeopleLines(rec, rec.nominees) + PeopleLines(rec, rec.nominators)
  }

  /** The lines after the header, record by record. */
  function BodyLines(records: seq<Record>): seq<seq<string>>
    requires RecordsHaveColumns(records)
  {
    if records == [] then []
    else
      assert records[|records| - 1] in records;
      BodyLines(records[..|records| - 1]) + RecordLines(records[|records| - 1])
  }

  /**
   * The file `export` leaves: the header, then either the body, or nothing
   * more and the error `get_records` raised after the header was written.
   */
  function ExportOf(records: Result<seq<Record>, StoreError>): (seq<seq<string>>, Option<StoreError>)
    requires records.Ok? ==> RecordsHaveColumns(records.value)
  {
    match records
    case Err(e) => ([HEADER], Some(e))
    case Ok(rs) => ([HEADER] + BodyLines(rs), None)
  }

  lemma BodyLinesPrefix(records: seq<Record>, i: nat)
    requires RecordsHaveColumns(records) && i < |records|
    ensures RecordsHaveColumns(records[..i]) && RecordsHaveColumns(records[..i + 1])
    ensures AllHaveColumns(records[i].nominees) && AllHaveColumns(records[i].nominators)
    ensures BodyLines(records[..i + 1]) == BodyLines(records[..i]) + RecordLines(records[i])
  {
    assert records[i] in records;
    assert records[..i + 1][..i] == records[..i] && records[..i + 1][i] == records[i];
  }

  // ---------------------------------------------------------------------
  // Properties
  // ---------------------------------------------------------------------

  /**
   * Each value `format_row` lists sits under the header cell that names its
   * column: the role under "role", and every other header cell after it is
   * an info column whose value is the one listed.
   */
  lemma FormatRowUnderHeader(p: Person)
    requires HasColumns(p)
    ensures |FormatRow(p)| == |HEADER| - PRIZE_FIELDS
    ensures HEADER[PRIZE_FIELDS] == "role" && FormatRow(p)[0] == Some(p.role)
    ensures forall i :: 1 <= i < |FormatRow(p)| ==>
      HEADER[PRIZE_FIELDS + i] in INFO_COLUMNS && FormatRow(p)[i] == p.attrs[HEADER[PRIZE_FIELDS + i]]
  {
  }

  /** Every info column is exported, under a header cell of its own name. */
  lemma EveryColumnExported()
    ensures forall c :: c in INFO_COLUMNS ==> c in HEADER[PRIZE_FIELDS + 1..]
  {
  }

  function PeopleCount(records: seq<Record>): nat {
    if records == [] then 0
    else PeopleCount(records[..|records| - 1]) + |records[|records| - 1].nominees| + |records[|records| - 1].nominators|
  }

  lemma {:induction false} PeopleLinesShape(rec: Record, ps: seq<Person>)
    requires AllHaveColumns(ps)
    ensures |PeopleLines(rec, ps)| == |ps|
    ensures forall i :: 0 <= i < |ps| ==> PeopleLines(rec, ps)[i] == PersonLine(rec, ps[i])
  {
    if ps != [] {
      PeopleLinesShape(rec, ps[..|ps| - 1]);
    }
  }

  /** One line per nominee and per nominator of every record. */
  lemma {:induction false} BodyLineCount(records: seq<Record>)
    requires RecordsHaveColumns(records)
    ensures |BodyLines(records)| == PeopleCount(records)
  {
    if records != [] {
      var last := records[|records| - 1];
      assert last in records;
      BodyLineCount(records[..|records| - 1]);
      PeopleLinesShape(last, last.nominees);
      PeopleLinesShape(last, last.nominators);
    }
  }

  /**
   * A person's line has a cell under every header cell; its url is the
   * nomination's page, whose id reads back as the id in the second cell; and
   * the person's cells read, under the header, as the role and the columns.
   */
  lemma PersonLineReadsBack(rec: Record, p: Person)
    requires HasColumns(p)
    ensures var line := PersonLine(rec, p);
      |line| == |HEADER| &&
      line[0] == NOMINATION_URL + line[1] &&
      ParseInt(line[1]) == Some(rec.id) && ParseInt(line[3]) == Some(rec.year) &&
      line[2] == rec.prize && line[PRIZE_FIELDS] == p.role &&
      forall i :: PRIZE_FIELDS < i < |HEADER| ==> line[i] == Render(p.attrs[HEADER[i]])
  {
    PrizeFieldsReadBack(rec);
    PersonLinePrefix(rec, p);
    PersonCellsUnderHeader(rec, p);
  }

  lemma PrizeFieldsReadBack(rec: Record)
    ensures var fields := [NominationUrl(rec.id), IntToString(rec.id), rec.prize, IntToString(rec.year)];
      fields[0] == NOMINATION_URL + fields[1] &&
      ParseInt(fields[1]) == Some(rec.id) && ParseInt(fields[3]) == Some(rec.year)
  {
    ParseIntToString(rec.id);
    ParseIntToString(rec.year);
  }

  /** The first five cells of a person's line: url, id, prize, year and role. */
  lemma PersonLinePrefix(rec: Record, p: Person)
    requires HasColumns(p)
    ensures var line := PersonLine(rec, p);
      |line| == |HEADER| && line[0] == NominationUrl(rec.id) && line[1] == IntToString(rec.id) &&
      line[2] == rec.prize && line[3] == IntToString(rec.year) && line[PRIZE_FIELDS] == p.role
  {
    var cells := RenderAll(FormatRow(p));
    assert PersonLine(rec, p)[PRIZE_FIELDS] == cells[0];
  }

  /** Every cell after the role is the value of the column its header cell names, NULL written as empty. */
  lemma PersonCellsUnderHeader(rec: Record, p: Person)
    requires HasColumns(p)
    ensures var line := PersonLine(rec, p);
      |line| == |HEADER| && forall i :: PRIZE_FIELDS < i < |HEADER| ==> line[i] == Render(p.attrs[HEADER[i]])
  {
    FormatRowUnderHeader(p);
    var row := FormatRow(p);
    var cells := RenderAll(row);
    var line := PersonLine(rec, p);
    forall i | PRIZE_FIELDS < i < |HEADER|
      ensures line[i] == Render(p.attrs[HEADER[i]])
    {
      var j := i - PRIZE_FIELDS;
      assert line[i] == cells[j];
      assert row[j] == p.attrs[HEADER[PRIZE_FIELDS + j]];
    }
  }

  /** The people of the records `get_records` returns are rows of the table, so they carry every column. */
  lemma {:induction false} RecordsOfColumns(rows: seq<Nomination>, people: seq<Person>)
    requires AllHaveColumns(people)
    requires RecordsOf(rows, people).Ok?
    ensures RecordsHaveColumns(RecordsOf(rows, people).value)
  {
    if rows != [] {
      RecordsOfColumns(rows[1..], people);
    }
  }
}
