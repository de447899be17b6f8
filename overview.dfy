/**
 * The overview-page parser (`NobelScraper.get_nominee_table`): from the
 * tables of one prize/year listing page, the nomination records
 * (nomination id, nominee references, nominator references).
 *
 * The HTML document is given abstractly: a page is its tables, a table its
 * rows, a row its `<td>` cells, and a cell its text and its `<a>` links.
 */
module Overview {
  import opened Basics
  import opened Text

  /**
   * An `<a>` element. `idValues` are the values `parse_qs` finds for the
   * `id` parameter of the link's query string (none when the parameter is
   * absent); `caption` is the link's first child when that child is text.
   */
  datatype Link = Link(idValues: seq<string>, caption: Option<string>)

  /** A `<td>` element: its text and its links in document order. */
  datatype Cell = Cell(text: string, links: seq<Link>)

  type Row = seq<Cell>

  type Table = seq<Row>

  /** A (person id, name) reference to a nominee or a nominator. */
  datatype Ref = Ref(id: int, name: string)

  /** One record of the result; `id` stays `None` when the row has no id cell. */
  datatype NomRecord = NomRecord(id: Option<int>, nominees: seq<Ref>, nominators: seq<Ref>)

  /** The exceptions the parser lets escape, each of which ends the whole parse. */
  datatype ParseError =
    | MissingIdParameter  // `query['id']` raises KeyError
    | MalformedId(text: string)  // `int(...)` raises ValueError
    | LinkWithoutText  // `link.contents[0].strip()` fails
    | MissingIdLink  // `cell.find('a')` is None in the id cell

  const NOMINEE_HEADER := "Nominee(s)"

  const EMPTY_RECORD := NomRecord(None, [], [])

  /** The id carried by a link's href (`parse_id_from_href`). */
  function ParseIdFromHref(link: Link): Result<int, ParseError> {
    if |link.idValues| == 0 then Err(MissingIdParameter)
    else match ParseInt(link.idValues[0])
      case None => Err(MalformedId(link.idValues[0]))
      case Some(n) => Ok(n)
  }

  /** An href whose first `id` value is the decimal text of `n` yields `n`. */
  lemma ParseIdFromHrefOfId(n: int, more: seq<string>, caption: Option<string>)
    ensures ParseIdFromHref(Link([IntToString(n)] + more, caption)) == Ok(n)
  {
    ParseIntToString(n);
  }

  /** The (id, stripped text) pair the parser makes of one link. */
  function LinkRef(link: Link): Result<Ref, ParseError> {
    var id :- ParseIdFromHref(link);
    match link.caption
    case None => Err(LinkWithoutText)
    case Some(text) => Ok(Ref(id, Strip(text)))
  }

  /** The references of a cell's links, in link order; the first bad link fails the whole list. */
  function LinkRefs(links: seq<Link>): Result<seq<Ref>, ParseError> {
    if links == [] then Ok([])
    else
      var ref :- LinkRef(links[0]);
      var rest :- LinkRefs(links[1..]);
      Ok([ref] + rest)
  }

  /** The list has one reference per link, in link order, exactly when every link parses. */
  lemma {:induction false} LinkRefsInOrder(links: seq<Link>)
    ensures LinkRefs(links).Ok? <==> forall i :: 0 <= i < |links| ==> LinkRef(links[i]).Ok?
    ensures LinkRefs(links).Ok? ==>
      |LinkRefs(links).value| == |links| &&
      forall i :: 0 <= i < |links| ==> LinkRefs(links).value[i] == LinkRef(links[i]).value
  {
    if links != [] {
      LinkRefsInOrder(links[1..]);
      assert forall i :: 1 <= i < |links| ==> links[1..][i - 1] == links[i];
    }
  }

  /** `len(cell.text.strip()) > 0`: the cell shows some text. */
  predicate Filled(cell: Cell) {
    |Strip(cell.text)| > 0
  }

  /** The nomination id from the first link of the id cell. */
  function RecordId(cell: Cell): Result<Option<int>, ParseError> {
    if cell.links == [] then Err(MissingIdLink)
    else
      var id :- ParseIdFromHref(cell.links[0]);
      Ok(Some(id))
  }

  /**
   * What reading cell `ckey` of a data row of a nominee table does to the
   * row's record: cell 0 sets the nominees, cell 1 the nominators, cell 2 the
   * id; a cell without text, and every later cell, leaves the record alone.
   */
  function CellStep(rec: NomRecord, ckey: nat, cell: Cell): Result<NomRecord, ParseError> {
    if ckey == 0 && Filled(cell) then
      var refs :- LinkRefs(cell.links);
      Ok(rec.(nominees := refs))
    else if ckey == 1 && Filled(cell) then
      var refs :- LinkRefs(cell.links);
      Ok(rec.(nominators := refs))
    else if ckey == 2 && Filled(cell) then
      var id :- RecordId(cell);
      Ok(rec.(id := id))
    else
      Ok(rec)
  }

  /** The row's record once its first `c` cells are read. */
  function ReadRow(cells: Row, c: nat): Result<NomRecord, ParseError>
    requires c <= |cells|
  {
    if c == 0 then Ok(EMPTY_RECORD)
    else
      var rec :- ReadRow(cells, c - 1);
      CellStep(rec, c - 1, cells[c - 1])
  }

  /**
   * The row's record read off cells 0, 1 and 2 directly: the references of
   * cell 0's links, those of cell 1's links, and the id of cell 2's first link,
   * each only when the cell is among the first `c` and shows text.
   */
  function RowRecord(cells: Row, c: nat): Result<NomRecord, ParseError>
    requires c <= |cells|
  {
    var nominees :- if c > 0 && Filled(cells[0]) then LinkRefs(cells[0].links) else Ok([]);
    var nominators :- if c > 1 && Filled(cells[1]) then LinkRefs(cells[1].links) else Ok([]);
    var id :- if c > 2 && Filled(cells[2]) then RecordId(cells[2]) else Ok(None);
    Ok(NomRecord(id, nominees, nominators))
  }

  predicate NonEmpty(rec: NomRecord) {
    |rec.nominees| > 0 || |rec.nominators| > 0
  }

  /**
   * How many times the row's record is appended: once after every cell
   * (among the first `c`) after which the record has a nominee or a nominator.
   */
  function Copies(cells: Row, c: nat): nat
    requires c <= |cells|
  {
    if c == 0 then 0
    else
      var now := ReadRow(cells, c);
      Copies(cells, c - 1) + if now.Ok? && NonEmpty(now.value) then 1 else 0
  }

  /** What a data row of a nominee table adds to the result. */
  function RowRecords(cells: Row): Result<seq<NomRecord>, ParseError> {
    var rec :- ReadRow(cells, |cells|);
    Ok(Repeat(rec, Copies(cells, |cells|)))
  }

  /** Row 0, cell 0 reads `Nominee(s)`. */
  predicate IsNomineeTable(table: Table) {
    |table| > 0 && |table[0]| > 0 && Strip(table[0][0].text) == NOMINEE_HEADER
  }

  function DataRows(rows: seq<Row>): Result<seq<NomRecord>, ParseError> {
    if rows == [] then Ok([]) else Then(RowRecords(rows[0]), DataRows(rows[1..]))
  }

  /** A table adds the records of its rows after row 0, and only if it is a nominee table. */
  function TableRecords(table: Table): Result<seq<NomRecord>, ParseError> {
    if IsNomineeTable(table) then DataRows(table[1..]) else Ok([])
  }

  /** The parser's result for a page: the records of its tables, in table order. */
  function NomineeTable(tables: seq<Table>): Result<seq<NomRecord>, ParseError> {
    if tables == [] then Ok([]) else Then(TableRecords(tables[0]), NomineeTable(tables[1..]))
  }

  // ---------------------------------------------------------------------
  // The loops of get_nominee_table
  // ---------------------------------------------------------------------

  /** The loop over a cell's links that builds the reference list. */
  method ReadLinks(links: seq<Link>) returns (r: Result<seq<Ref>, ParseError>)
    ensures r == LinkRefs(links)
  {
    var refs: seq<Ref> := [];
    var i := 0;
    while i < |links|
      invariant 0 <= i <= |links|
      invariant LinkRefs(links) == Then(Ok(refs), LinkRefs(links[i..]))
    {
      assert links[i..][0] == links[i] && links[i..][1..] == links[i + 1..];
      var id := ParseIdFromHref(links[i]);
      if id.Err? {
        return Err(id.error);
      }
      if links[i].caption.None? {
        return Err(LinkWithoutText);
      }
      ThenAssociative(Ok(refs), Ok([Ref(id.value, Strip(links[i].caption.value))]), LinkRefs(links[i + 1..]));
      refs := refs + [Ref(id.value, Strip(links[i].caption.value))];
      i := i + 1;
    }
    assert links[i..] == [] && refs + [] == refs;
    r := Ok(refs);
  }

  lemma {:induction false} ReadRowFailureStays(cells: Row, c: nat, d: nat)
    requires c <= d <= |cells|
    requires ReadRow(cells, c).Err?
    ensures ReadRow(cells, d) == ReadRow(cells, c)
  {
    if c < d {
      ReadRowFailureStays(cells, c, d - 1);
    }
  }

  /**
   * The loop over the cells of row `rkey`: it raises the nominee-table flag at
   * row 0, cell 0, fills the record from cells 0, 1 and 2 of later rows, and
   * counts the cells after which the record is non-empty (each of which
   * appends the record in the source).
   */
  method ReadCells(cells: Row, rkey: nat, nomTable: bool)
    returns (nomTableAfter: bool, r: Result<(NomRecord, nat), ParseError>)
    ensures nomTableAfter == (nomTable || (rkey == 0 && |cells| > 0 && Strip(cells[0].text) == NOMINEE_HEADER))
    ensures !(nomTable && rkey > 0) ==> r == Ok((EMPTY_RECORD, 0))
    ensures nomTable && rkey > 0 ==>
      match ReadRow(cells, |cells|)
      case Err(e) => r == Err(e)
      case Ok(rec) => r == Ok((rec, Copies(cells, |cells|)))
  {
    nomTableAfter := nomTable;
    var record := EMPTY_RECORD;
    var appends := 0;
    var ckey := 0;
    while ckey < |cells|
      invariant 0 <= ckey <= |cells|
      invariant nomTableAfter == (nomTable || (rkey == 0 && ckey > 0 && Strip(cells[0].text) == NOMINEE_HEADER))
      invariant !(nomTable && rkey > 0) ==> record == EMPTY_RECORD && appends == 0
      invariant nomTable && rkey > 0 ==> ReadRow(cells, ckey) == Ok(record) && appends == Copies(cells, ckey)
    {
      var cell := cells[ckey];
      if rkey == 0 && ckey == 0 && Strip(cell.text) == NOMINEE_HEADER {
        nomTableAfter := true;
      }
      if nomTableAfter && rkey > 0 && ckey <= 2 {
        if ckey == 0 && |Strip(cell.text)| > 0 {
          var nominees := ReadLinks(cell.links);
          if nominees.Err? {
            ReadRowFailureStays(cells, ckey + 1, |cells|);
            return nomTableAfter, Err(nominees.error);
          }
          record := record.(nominees := nominees.value);
        }
        if ckey == 1 && |Strip(cell.text)| > 0 {
          var nominators := ReadLinks(cell.links);
          if nominators.Err? {
            ReadRowFailureStays(cells, ckey + 1, |cells|);
            return nomTableAfter, Err(nominators.error);
          }
          record := record.(nominators := nominators.value);
        }
        if ckey == 2 && |Strip(cell.text)| > 0 {
          if cell.links == [] {
            ReadRowFailureStays(cells, ckey + 1, |cells|);
            return nomTableAfter, Err(MissingIdLink);
          }
          var id := ParseIdFromHref(cell.links[0]);
          if id.Err? {
            ReadRowFailureStays(cells, ckey + 1, |cells|);
            return nomTableAfter, Err(id.error);
          }
          record := record.(id := Some(id.value));
        }
      }
      if |record.nominees| > 0 || |record.nominators| > 0 {
        appends := appends + 1;
      }
      ckey := ckey + 1;
    }
    r := Ok((record, appends));
  }

  /**
   * What remains to be added for the current table when row `rkey` is next:
   * all of it before row 0 is read, afterwards the data rows still to come if
   * row 0 marked it a nominee table.
   */
  function RemainingRows(table: Table, rkey: nat, nomTable: bool): Result<seq<NomRecord>, ParseError>
    requires rkey <= |table|
  {
    if rkey == 0 then TableRecords(table)
    else if nomTable then DataRows(table[rkey..])
    else Ok([])
  }

  /**
   * The loop over one table's rows. The source appends the one record object
   * of a row once per qualifying cell, so every copy shows the row's final
   * contents; this model appends the final record that many times once the
   * row's cells are read.
   */
  method ReadTable(table: Table) returns (r: Result<seq<NomRecord>, ParseError>)
    ensures r == TableRecords(table)
  {
    var records: seq<NomRecord> := [];
    var nomTable := false;
    var rkey := 0;
    while rkey < |table|
      invariant 0 <= rkey <= |table|
      invariant rkey == 0 ==> !nomTable
      invariant rkey > 0 ==> nomTable == IsNomineeTable(table)
      invariant TableRecords(table) == Then(Ok(records), RemainingRows(table, rkey, nomTable))
    {
      var row := table[rkey];
      var nomTableAfter, res := ReadCells(row, rkey, nomTable);
      if rkey > 0 && nomTable {
        assert table[rkey..][0] == row && table[rkey..][1..] == table[rkey + 1..];
        if res.Err? {
          return Err(res.error);
        }
        var added := Repeat(res.value.0, res.value.1);
        assert RowRecords(row) == Ok(added);
        ThenAssociative(Ok(records), Ok(added), DataRows(table[rkey + 1..]));
        records := records + added;
      }
      nomTable := nomTableAfter;
      rkey := rkey + 1;
    }
    assert table[rkey..] == [];
    assert records + [] == records;
    r := Ok(records);
  }

  /** `get_nominee_table`: the records of every table of the page, in table order. */
  method GetNomineeTable(tables: seq<Table>) returns (r: Result<seq<NomRecord>, ParseError>)
    ensures r == NomineeTable(tables)
  {
    var records: seq<NomRecord> := [];
    for t := 0 to |tables|
      invariant NomineeTable(tables) == Then(Ok(records), NomineeTable(tables[t..]))
    {
      assert tables[t..][0] == tables[t] && tables[t..][1..] == tables[t + 1..];
      var added := ReadTable(tables[t]);
      if added.Err? {
        return Err(added.error);
      }
      ThenAssociative(Ok(records), added, NomineeTable(tables[t + 1..]));
      records := records + added.value;
    }
    assert tables[|tables|..] == [] && records + [] == records;
    r := Ok(records);
  }

  // ---------------------------------------------------------------------
  // Properties of the parser
  // ---------------------------------------------------------------------

  /**
   * Reading the cells one by one gives the record read off cells 0, 1 and 2
   * directly: cells after the third are never read.
   */
  lemma {:induction false} ReadRowDirect(cells: Row, c: nat)
    requires c <= |cells|
    ensures ReadRow(cells, c) == RowRecord(cells, c)
  {
    if c > 0 {
      ReadRowDirect(cells, c - 1);
      if c == 1 {
        NomineesCell(cells);
      } else if c == 2 {
        NominatorsCell(cells);
      } else if c == 3 {
        IdCell(cells);
      } else {
        LaterCell(cells, c);
      }
    }
  }

  /** Cell 0 sets the nominees. */
  lemma NomineesCell(cells: Row)
    requires 1 <= |cells|
    ensures ReadRow(cells, 1) == RowRecord(cells, 1)
  {
    assert ReadRow(cells, 1) == CellStep(EMPTY_RECORD, 0, cells[0]);
  }

  /** Cell 1 sets the nominators. */
  lemma NominatorsCell(cells: Row)
    requires 2 <= |cells| && ReadRow(cells, 1) == RowRecord(cells, 1)
    ensures ReadRow(cells, 2) == RowRecord(cells, 2)
  {
  }

  /** Cell 2 sets the id. */
  lemma IdCell(cells: Row)
    requires 3 <= |cells| && ReadRow(cells, 2) == RowRecord(cells, 2)
    ensures ReadRow(cells, 3) == RowRecord(cells, 3)
  {
  }

  /** A later cell sets nothing. */
  lemma LaterCell(cells: Row, c: nat)
    requires 3 < c <= |cells| && ReadRow(cells, c - 1) == RowRecord(cells, c - 1)
    ensures ReadRow(cells, c) == RowRecord(cells, c)
  {
    assert RowRecord(cells, c) == RowRecord(cells, c - 1);
  }

  /** Cells after the third never change the record; they only add copies of it. */
  lemma OnlyFirstThreeCellsRead(cells: Row)
    requires |cells| >= 3
    ensures ReadRow(cells, |cells|) == ReadRow(cells[..3], 3)
  {
    ReadRowDirect(cells, |cells|);
    ReadRowDirect(cells[..3], 3);
  }

  /**
   * The number of copies in closed form: one if cell 0 alone already gave
   * nominees, plus one for every later cell if the final record is non-empty.
   */
  lemma {:induction false} CopiesClosedForm(cells: Row, c: nat, rec: NomRecord)
    requires 1 <= c <= |cells|
    requires ReadRow(cells, |cells|) == Ok(rec)
    ensures Copies(cells, c) ==
      (if |rec.nominees| > 0 then 1 else 0) + (if c >= 2 && NonEmpty(rec) then c - 1 else 0)
  {
    PrefixRecord(cells, c, rec);
    if c > 1 {
      CopiesClosedForm(cells, c - 1, rec);
    }
  }

  /** After the first `c` cells the record already has its final nominees, and from cell 1 on its final nominators. */
  lemma PrefixRecord(cells: Row, c: nat, rec: NomRecord)
    requires 1 <= c <= |cells|
    requires ReadRow(cells, |cells|) == Ok(rec)
    ensures ReadRow(cells, c).Ok?
    ensures ReadRow(cells, c).value.nominees == rec.nominees
    ensures ReadRow(cells, c).value.nominators == if c >= 2 then rec.nominators else []
  {
    ReadRowDirect(cells, |cells|);
    ReadRowDirect(cells, c);
  }

  /** Every record a row adds has a nominee or a nominator. */
  lemma RowRecordsNonEmpty(cells: Row)
    requires RowRecords(cells).Ok?
    ensures forall x :: x in RowRecords(cells).value ==> NonEmpty(x)
  {
    var rec := ReadRow(cells, |cells|).value;
    if |cells| >= 1 {
      CopiesClosedForm(cells, |cells|, rec);
    }
  }

  lemma {:induction false} DataRowsNonEmpty(rows: seq<Row>)
    requires DataRows(rows).Ok?
    ensures forall x :: x in DataRows(rows).value ==> NonEmpty(x)
  {
    if rows != [] {
      RowRecordsNonEmpty(rows[0]);
      DataRowsNonEmpty(rows[1..]);
    }
  }

  /** Every record of a parsed page has at least one nominee or nominator. */
  lemma {:induction false} RecordsNonEmpty(tables: seq<Table>)
    requires NomineeTable(tables).Ok?
    ensures forall x :: x in NomineeTable(tables).value ==> NonEmpty(x)
  {
    if tables != [] {
      if IsNomineeTable(tables[0]) {
        DataRowsNonEmpty(tables[0][1..]);
      }
      RecordsNonEmpty(tables[1..]);
    }
  }

  function NomineeTablesOf(tables: seq<Table>): (r: seq<Table>)
    ensures forall x :: x in r ==> x in tables && IsNomineeTable(x)
    ensures forall x :: x in tables && IsNomineeTable(x) ==> x in r
  {
    if tables == [] then []
    else if IsNomineeTable(tables[0]) then [tables[0]] + NomineeTablesOf(tables[1..])
    else NomineeTablesOf(tables[1..])
  }

  /** Tables whose first cell is not the `Nominee(s)` header play no part in the result. */
  lemma {:induction false} OnlyNomineeTablesCount(tables: seq<Table>)
    ensures NomineeTable(tables) == NomineeTable(NomineeTablesOf(tables))
  {
    if tables != [] {
      OnlyNomineeTablesCount(tables[1..]);
      if IsNomineeTable(tables[0]) {
        var f := NomineeTablesOf(tables);
        assert f[0] == tables[0] && f[1..] == NomineeTablesOf(tables[1..]);
      }
    }
  }

  /** A data row: one nominee link in cell 0, an empty cell 1, the nomination link in cell 2. */
  function NomineeRow(nominee: int, name: string, nomination: int): Row {
    [Cell(name, [Link([IntToString(nominee)], Some(name))]),
     Cell("", []),
     Cell("Show", [Link([IntToString(nomination)], Some("Show"))])]
  }

  lemma NomineeRowRecord(nominee: int, name: string, nomination: int)
    requires Strip(name) == name && name != []
    ensures ReadRow(NomineeRow(nominee, name, nomination), 3) == Ok(NomRecord(Some(nomination), [Ref(nominee, name)], []))
  {
    var row := NomineeRow(nominee, name, nomination);
    ShowStrips();
    ParseIdFromHrefOfId(nominee, [], Some(name));
    ParseIdFromHrefOfId(nomination, [], Some("Show"));
    assert [IntToString(nominee)] + [] == [IntToString(nominee)];
    assert [IntToString(nomination)] + [] == [IntToString(nomination)];
    assert LinkRef(row[0].links[0]) == Ok(Ref(nominee, name));
    assert row[0].links[1..] == [];
    assert [Ref(nominee, name)] + [] == [Ref(nominee, name)];
    assert LinkRefs(row[0].links) == Ok([Ref(nominee, name)]);
    ReadRowDirect(row, 3);
    assert Strip("") == "";
    assert RecordId(row[2]) == Ok(Some(nomination));
  }

  /** The row's record is appended once after each of its three cells. */
  lemma NomineeRowCopies(nominee: int, name: string, nomination: int)
    requires Strip(name) == name && name != []
    ensures var rec := NomRecord(Some(nomination), [Ref(nominee, name)], []);
      RowRecords(NomineeRow(nominee, name, nomination)) == Ok([rec, rec, rec])
  {
    var row := NomineeRow(nominee, name, nomination);
    var rec := NomRecord(Some(nomination), [Ref(nominee, name)], []);
    NomineeRowRecord(nominee, name, nomination);
    CopiesClosedForm(row, 3, rec);
    assert Repeat(rec, 3) == [rec, rec, rec];
  }

  /**
   * A page with one nominee table whose one data row is a `NomineeRow`
   * yields that row's complete record three times, because the source
   * appends the same dict after each of the three cells.
   */
  lemma OneNomineeRowGivesThreeCopies(nominee: int, name: string, nomination: int)
    requires Strip(name) == name && name != []
    ensures
      var header := [Cell(NOMINEE_HEADER, []), Cell("Nominator(s)", [])];
      var rec := NomRecord(Some(nomination), [Ref(nominee, name)], []);
      NomineeTable([[header, NomineeRow(nominee, name, nomination)]]) == Ok([rec, rec, rec])
  {
    var header := [Cell(NOMINEE_HEADER, []), Cell("Nominator(s)", [])];
    var row := NomineeRow(nominee, name, nomination);
    var rec := NomRecord(Some(nomination), [Ref(nominee, name)], []);
    NomineeRowCopies(nominee, name, nomination);
    SingleRowTable(header, row);
    SingleTable([header, row]);
    assert [rec, rec, rec] + [] == [rec, rec, rec];
  }

  lemma SingleRowTable(header: Row, row: Row)
    requires |header| > 0 && header[0].text == NOMINEE_HEADER
    ensures TableRecords([header, row]) == Then(RowRecords(row), Ok([]))
  {
    NomineeHeaderStrips();
    assert IsNomineeTable([header, row]);
    assert [header, row][1..] == [row] && [row][1..] == [];
    assert DataRows([row]) == Then(RowRecords(row), DataRows([]));
  }

  lemma ShowStrips()
    ensures Strip("Show") == "Show"
  {
    StripNoSpace("Show");
  }

  lemma NomineeHeaderStrips()
    ensures Strip(NOMINEE_HEADER) == NOMINEE_HEADER
  {
    StripNoSpace(NOMINEE_HEADER);
  }

  /** A page of one table yields that table's records. */
  lemma SingleTable(table: Table)
    ensures NomineeTable([table]) == Then(TableRecords(table), Ok([]))
  {
    assert [table][1..] == [];
  }
}
