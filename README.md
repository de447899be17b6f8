# Nobel nomination archive scraper — a Dafny model

`NobelScraper` (code/main.py) crawls the nomination archive of the Nobel
prize site in two phases and keeps what it finds in two SQLite tables:

1. **Overview crawl** (`scrape_overview`). For every prize and every year in
   `min_year..max_year`, the crawler fetches the listing page and parses its
   nominee tables (`get_nominee_table`). It saves one `nominations` row per
   record with `INSERT OR IGNORE` (`save_nomination(s)`). A row holds the
   prize, the year, and the nominee and nominator ids joined by `;`.
2. **Detail crawl** (`scrape_nominations`). For every row not yet retrieved,
   in the order of `get_new_nominations`, it does four things:
   - fetches the nomination's page;
   - parses the bordered detail table into a dictionary from role to
     (field, value) pairs (`get_nomination_info`);
   - writes one `nomination_people` row per role (`save_nomination_info`);
   - marks the row retrieved (`update_nomination`).
3. **Export** (`export`). The crawler writes a CSV file: a fixed header, then
   one line per nominee and per nominator of every nomination. The lines are
   in the order of `get_records`.

The model is written in five layers:

- `basics.dfy`: `Option`, `Result`, and the `Then` combinator for "append
  unless either side failed".
- `text.dfy`: the Python string operations the scraper uses, written out:
  `strip`, `lower`, `replace`, `find`, `str(int)`, `int(str)`, `join` and
  `split`.
- `overview.dfy`: the listing-page parser. A page is given abstractly, as
  its tables, rows, cells and links. There is a specification function
  (`NomineeTable`) and the loops proved against it (`GetNomineeTable`).
- `detail.dfy`: the detail-page parser. A row is given by what the parser
  asks of it: its text, its first `<b>`, its first `span.rubr` and its cell
  texts. There is a specification function (`NominationInfo`) and the loops
  proved against it (`GetNominationInfo`).
- `store.dfy`: the two tables as values, and what each SQL statement does
  to them or returns. `export.dfy`: the CSV lines. `scraper.dfy`: the
  class `NobelScraper`. The class holds the tables and the year range, and
  runs the statements step by step. Its methods are proved equal to the
  store and export functions, and the two crawls to the run functions
  `OverviewRun` and `DetailRun`.

HTTP is modelled as an oracle parameter: a function from URL to page, where
`None` stands for a status other than 200. SQLite, BeautifulSoup and the CSV
writer are modelled by what they compute. Each exception that ends a run is
an error value:
- `get_page`'s ValueError;
- a KeyError or ValueError in `parse_id_from_href`;
- a link without a text child, where `link.contents[0].strip()` fails;
- a missing detail table;
- a missing value cell;
- an unknown prize id in a lookup of `prizes`.

## Model

| member | source | states |
|---|---|---|
| Overview.ParseIdFromHref | code/main.py:202-206 | the id is the first `id` query value read as an integer; a missing parameter or a non-integer value is an error |
| Overview.ParseIdFromHrefOfId | code/main.py:202-206 | an href whose first `id` value is the decimal text of n yields n, whatever follows |
| Overview.LinkRefsInOrder | code/main.py:233-236 | a cell's reference list succeeds exactly when every link parses, and then holds one (id, stripped text) pair per link, in link order |
| Overview.ReadLinks | code/main.py:233-235 | the loop over a cell's links returns exactly the specified reference list or its first error |
| Overview.ReadCells | code/main.py:225-250 | the cell loop raises the nominee-table flag exactly at row 0, cell 0 reading `Nominee(s)`; it leaves the record empty outside data rows of nominee tables; otherwise it yields the record read from the cells and how many times it is appended |
| Overview.GetNomineeTable | code/main.py:200-251 | the table, row and cell loops return exactly `Overview.NomineeTable`: table by table the records of `TableRecords` (nothing unless row 0, cell 0 reads `Nominee(s)`), each data row adding its final record `Copies` times (`RowRecords`), or the first parse error |
| Overview.ReadTable | code/main.py:215-250 | the row loop of one table returns exactly `Overview.TableRecords` of it, or the first parse error |
| Overview.ReadRowFailureStays | code/main.py:225-247 | once a cell raises, the row's result is that error, whatever cells follow |
| Overview.ReadRowDirect | code/main.py:230-247 | reading the cells one by one gives the record read directly from cells 0 (nominees), 1 (nominators) and 2 (id), each only if it shows text |
| Overview.OnlyFirstThreeCellsRead | code/main.py:230 | cells after the third never change the record |
| Overview.CopiesClosedForm | code/main.py:249-250 | `Overview.RowRecords` appends a row's record `Overview.Copies` times: once if cell 0 alone gave nominees, plus once per later cell if the final record is non-empty |
| Overview.PrefixRecord | code/main.py:230-242 | in a row that reads without error, the record after the first cell already holds the row's final nominees, and after the second cell also its final nominators |
| Overview.RowRecordsNonEmpty | code/main.py:249-250 | every record a row adds has a nominee or a nominator |
| Overview.RecordsNonEmpty | code/main.py:211-251 | every record of a parsed page has a nominee or a nominator |
| Overview.NomineeTablesOf | code/main.py:227-228 | the nominee tables of a page are exactly its tables whose row 0, cell 0 reads `Nominee(s)` |
| Overview.OnlyNomineeTablesCount | code/main.py:214-230 | tables without the `Nominee(s)` header contribute nothing |
| Overview.OneNomineeRowGivesThreeCopies | code/main.py:221-250 | one data row with a nominee link, an empty nominator cell and an id link yields the same complete record three times (the appended dict is shared) |
| Overview.NomineeRowRecord | code/main.py:225-247 | a row of a nominee link, an empty cell and an id link reads as that nominee under that nomination id, with no nominators |
| Overview.NomineeRowCopies | code/main.py:249-250 | that row's record is appended three times, once after each cell |
| Detail.NormalizeRubric | code/main.py:255-256 | a normalised rubric holds no colon, comma, space or upper-case letter, and is no longer than the stripped text |
| Detail.NormalizeFieldName | code/main.py:255-256 | a clean field name normalises to itself |
| Detail.BirthYearLabel | code/main.py:255-256 | `normalize_rubr` turns the label `Year, Birth:` into the column name `year_birth` |
| Detail.GetNominationInfo | code/main.py:253-307 | the row loop and the grouping loop return exactly `Detail.NominationInfo`: the triples of `Detail.Entries` (at most one per row, by `Detail.RowEntries`) grouped by `Detail.Grouped`, or the error of a missing table or a missing value cell |
| Detail.EntriesFromHeaders | code/main.py:264-298 | every triple's subject is non-empty; it is the subject the rows started under, or the text of one of their bold headers with its colons removed and stripped; every field is a normalised name |
| Detail.EntriesAtMostRows | code/main.py:265-298 | a row emits at most one triple |
| Detail.RowEntriesShape | code/main.py:274-298 | a row emits a triple only under a non-empty subject, which the triple carries, with a field name free of colons, commas, spaces and upper-case letters |
| Detail.HeaderNames | code/main.py:270-272 | a bold `<name>:` names the subject `name` |
| Detail.CommentRow | code/main.py:287-289 | a one-cell row under a subject is a `comments` pair holding the row's stripped text |
| Detail.RubricRow | code/main.py:275-281 | a rubric row pairs the normalised rubric with the stripped second cell |
| Detail.HeaderRow | code/main.py:270-283 | a header row sets the subject and emits nothing |
| Detail.HeaderRubricAndComment | code/main.py:253-307 | a block of a header, a rubric row and a comment row gives one key holding the rubric pair and then the comment |
| Detail.TwoPairsOneKey | code/main.py:300-305 | two triples with one subject make one key whose list holds both pairs in order |
| Detail.SubjectIndex | code/main.py:303 | finds the key's position, with no earlier group under that key, or reports that the key is absent |
| Detail.AddEntryCases | code/main.py:302-305 | a new subject appends a key holding the one pair; a known subject extends its own list and changes nothing else |
| Detail.GroupedKeysAndSizes | code/main.py:300-307 | the keys are distinct, and the lists hold every triple exactly once |
| Detail.GroupedBySubject | code/main.py:300-307 | the keys of `Detail.Grouped` are the subjects in order of first appearance, and each list is the in-order pairs of its subject |
| Text.StripShape | code/main.py:227 | `strip()` returns the slice between the leading and the trailing white space |
| Text.StripEmpty | code/main.py:232 | the stripped text is empty exactly when the text is all white space |
| Text.ParseIntToString | code/main.py:206 | `int(str(n)) == n` |
| Text.SplitJoin | code/main.py:104-105 | splitting a `;`-joined list of parts free of `;` gives the parts back |
| Text.RemoveCharAppend | code/main.py:256 | deleting a character from a concatenation deletes it from each part |
| Store.NewRowId | code/main.py:49-50 | a row inserted with a NULL primary key gets a rowid no row has |
| Store.InsertNomination | code/main.py:91-96 | `INSERT OR IGNORE` keeps every existing row; a taken id leaves the table as it was; a free key gets the new unretrieved row; a NULL id gets the next rowid; at most one row is added |
| Store.IdListRoundTrip | code/main.py:104-105 | a non-empty id list splits at `;` into one piece per reference, and each piece reads back as that reference's id |
| Store.SavedAllKeeps | code/main.py:98-106 | `Store.SavedAll` (each record saved in turn by `INSERT OR IGNORE`) keeps the primary key and every existing row |
| Store.SavedAllGrows | code/main.py:98-106 | saving never removes a key |
| Store.SavedAllCovers | code/main.py:98-106 | every record with an id has a row under that id afterwards |
| Store.SavedAllNew | code/main.py:98-106 | every added row is an unretrieved row of this prize and year, holding the id lists of one of the records |
| Store.SavedAllPresent | code/main.py:91-106 | saving records whose ids all have rows already leaves the table as it was |
| Store.SavedAllTwice | code/main.py:91-106 | saving a page whose records all have ids a second time leaves the table of the first save |
| Store.NullIdAddsRow | code/main.py:91-96 | saving a record without an id adds one row each time: twice gives two new rows |
| Store.NullRowIdShadows | code/main.py:91-96 | the rowid a record without an id takes is then taken, so a nomination with that id saved later is ignored |
| Store.FirstValueIsFirst | code/main.py:120-122 | a column is NULL exactly when no pair names it, and otherwise takes the value of the first pair that does |
| Store.PersonRow | code/main.py:117-122 | the row written for a role has a value or NULL for every info column |
| Store.BirthYearColumn | code/main.py:117-122 | a value under the `Year, Birth:` label lands in the `year_birth` column of its role's row |
| Store.InfoSavedEffect | code/main.py:108-125 | `Store.InfoSaved` (one `Store.InsertPerson` per role, in dictionary order) keeps the existing rows in order and (nomination, role) unique; it leaves a row for every role of the info; every added row is the row of one of its roles |
| Store.InsertPersonEffect | code/main.py:124 | one `INSERT OR IGNORE` keeps the rows and (nomination, role) unique, leaves the role present, and adds at most that row |
| Store.InfoSavedColumns | code/main.py:108-125 | every row written has every info column |
| Store.InfoSavedFresh | code/main.py:108-125 | for a nomination with no rows yet, each role gets exactly the row made from its pairs, in dictionary order |
| Store.MarkedEffect | code/main.py:186-189 | `Store.Marked` keeps the keys and every other row, sets the flag, and takes exactly that row out of the pending rows |
| Store.KeyedDistinct | code/main.py:49-50 | rows of the table never share an id |
| Store.BeforeTotal | code/main.py:168 | two rows with different ids are ordered by (prize, year, id) one way or the other |
| Store.MinimumExists | code/main.py:168 | a non-empty table has a first row in (prize, year, id) order |
| Store.MinimumAdd | code/main.py:168 | adding a row to a set keeps its first row or makes the new row first |
| Store.Listing | code/main.py:168 | the query result is strictly sorted and holds exactly the selected rows |
| Store.SortedUnique | code/main.py:168 | only one strictly sorted listing of a set of rows exists |
| Store.ListingByPrizeAndYear | code/main.py:84 | the pending listing is ordered by prize then year, one entry per row |
| Store.InsertSorted | code/main.py:84 | insertion adds exactly the new row |
| Store.InsertSortedSorted | code/main.py:84 | insertion keeps a listing strictly sorted |
| Store.Nominators | code/main.py:176-178 | a nomination's nominators are rows of that nomination whose role contains `Nominator` |
| Store.Nominees | code/main.py:176-180 | a nomination's nominees are rows of that nomination whose role contains `Nominee` and not `Nominator` |
| Store.ClassifiedPeople | code/main.py:176-180 | a row of the nomination is among its nominators exactly when its role names a nominator, and among its nominees exactly when it names a nominee and no nominator |
| Store.RecordsOfRows | code/main.py:165-184 | `Store.RecordsOf` fails exactly when some row's prize is unknown; otherwise it gives one record per row, in query order, with that row's year, prize name, id and people |
| Export.FormatRowUnderHeader | code/main.py:129-149 | each value of `Export.FormatRow` (`format_row`: the role, then the person's columns) sits under the header cell naming its column |
| Export.EveryColumnExported | code/main.py:129-149 | every info column of the table is a header column |
| Export.PeopleLinesShape | code/main.py:154-161 | one line per person of the group, in order |
| Export.BodyLineCount | code/main.py:151-161 | the file has one line per nominee and per nominator of every record |
| Export.PersonLineReadsBack | code/main.py:153-157 | a line is as wide as the header; its url is the nomination's page for the id in the second cell, which reads back as the record's id; year, prize and role sit in place; every column is under its header cell |
| Export.RecordsOfColumns | code/main.py:165-184 | the people of the records carry every info column |
| Scraper.Years | code/main.py:312 | `range(min_year, max_year + 1)`: one page per year, in ascending order |
| Scraper.OverviewStepEffect | code/main.py:313-318 | `Scraper.OverviewStep` (fetch, parse, save one listing page) keeps the rows already there, and adds only unretrieved rows of that prize and year |
| Scraper.OverviewStepSaves | code/main.py:313-318 | a page never removes a key, and a page that goes through leaves a row for each of its records with an id |
| Scraper.OverviewRunEffect | code/main.py:309-318 | `Scraper.OverviewRun` (steps in page order, stopping at the first error) keeps the primary key and every existing row, and adds only unretrieved rows of crawled pages |
| Scraper.OverviewRunAppend | code/main.py:309-318 | crawling two lists of pages in turn is crawling the first, then the second only if the first went through |
| Scraper.OverviewRunFails | code/main.py:309-318 | a crawl that fails went through every page before one page whose step failed |
| Scraper.OverviewRunStopsAt | code/main.py:309-318 | a crawl failing at page i ends with that page's error and the table the pages before it left |
| Scraper.OverviewRunFailureAdds | code/main.py:309-318 | a crawl failing at page i added rows only for the pages before it, all unretrieved |
| Scraper.OverviewRunComplete | code/main.py:309-318 | a crawl that ends without error fetched and parsed every page, and saved a row for each of its records with an id |
| Scraper.DetailRunEffect | code/main.py:320-328 | `Scraper.DetailRun` (steps in listing order, stopping at the first error) keeps the table's keys and the existing people rows and their uniqueness; a row it marks retrieved had its page parsed and every role of it saved first |
| Scraper.DetailStepEffect | code/main.py:321-328 | `Scraper.DetailStep` (prize lookup, fetch, parse, save, mark) keeps the keys and people rows; on success its roles are saved and the rest are still pending; on failure nothing is marked |
| Scraper.DetailRunComplete | code/main.py:320-328 | a detail crawl that ends without error marks every listed row retrieved |
| Scraper.DetailRunMarks | code/main.py:186-189 | the detail crawl never clears a retrieved flag |
| Scraper.PendingToRetrieve | code/main.py:82-89 | the listing the detail crawl walks holds the current unretrieved rows, each once |
| Scraper.NothingLeftPending | code/main.py:320-328 | after a detail crawl that ends without error, no row is pending |
| Scraper.NobelScraper.constructor | code/main.py:24-38 | a year bound that is None or 0 keeps its default; the tables are those of the database |
| Scraper.NobelScraper.NextRowId | code/main.py:49-50 | the rowid the table gives a row inserted with a NULL id |
| Scraper.NobelScraper.SaveNomination | code/main.py:91-96 | the table becomes `Store.InsertNomination` of it; the primary key and the people table are kept |
| Scraper.NobelScraper.SaveNominations | code/main.py:98-106 | the table becomes `Store.SavedAll`: the records saved in order, with their id lists joined by `;` |
| Scraper.NobelScraper.PersonData | code/main.py:117-122 | the column loop builds exactly the specified row |
| Scraper.NobelScraper.SaveNominationInfo | code/main.py:108-125 | the people table becomes `Store.InfoSaved` of it, keeping uniqueness and every column |
| Scraper.NobelScraper.UpdateNomination | code/main.py:186-189 | the table becomes `Store.Marked` of it |
| Scraper.NobelScraper.Query | code/main.py:82-89 | the pending rows (or, for the query of `get_records`, all rows) in strict (prize, year, id) order |
| Scraper.NobelScraper.GetNewNominations | code/main.py:82-89 | the unretrieved rows, each once, by prize then year; every unretrieved row is listed |
| Scraper.NobelScraper.PeopleOf | code/main.py:175-180 | the loop over the people rows returns exactly the nomination's nominees and nominators, in table order |
| Scraper.NobelScraper.GetRecords | code/main.py:165-184 | exactly `Store.RecordsOf` the rows in (prize, year, id) order, or the unknown-prize error |
| Scraper.NobelScraper.WriteLines | code/main.py:154-161 | one group's lines appended in order |
| Scraper.NobelScraper.WriteRecord | code/main.py:153-161 | a record's nominee lines, then its nominator lines |
| Scraper.NobelScraper.WriteBody | code/main.py:152-161 | every record's lines, in record order |
| Scraper.NobelScraper.Export | code/main.py:127-163 | the header and then `Export.BodyLines` of the records (the `Export.PersonLine` of each nominee, then of each nominator); when `get_records` raises, only the header |
| Scraper.NobelScraper.ScrapePage | code/main.py:313-318 | exactly `Scraper.OverviewStep`: one listing page fetched, parsed and saved, or the error that ends the crawl |
| Scraper.NobelScraper.ScrapeOverview | code/main.py:309-318 | the table becomes `Scraper.OverviewRun` over prizes 1..5 and the year range (`Scraper.Schedule`), and the crawl returns its error |
| Scraper.NobelScraper.ScrapeNominations | code/main.py:320-328 | the tables become `Scraper.DetailRun` over the pending rows; after a run without error, no row is pending |

## Left out

- HTTP, HTML parsing and SQLite connections are left out. The page fetch is
  an oracle parameter. A parsed page is given as the parts of the document
  the parser reads. The database is given to the constructor as its two
  tables. `connect_db`'s error handling and logging are not modelled.
- Commits, `logging` calls, `argparse` and the `__main__` block are left
  out. The block only calls the three phases in turn.
- CSV quoting is left out. A line is its list of cells as text, with NULL
  as the empty string and an integer as its decimal text.
- `Text.Lower`: lower-cases ASCII letters only. Python's `str.lower` also
  folds non-ASCII letters.
- `Text.ParseInt`: reads an optional sign and ASCII decimal digits between
  white space. Python's `int()` also takes underscores between digits and
  non-ASCII digits.
- `Store.NewRowId`: does not model SQLite's random choice of rowid once the
  largest rowid is 9223372036854775807. Integers are unbounded here.
- `Store.Listing`: for `get_new_nominations`, ties within a prize and year
  are listed by id. The query leaves their order to SQLite. The model proves
  the order the query asks for (`ListingByPrizeAndYear`), and its run
  functions follow this one listing.
- `Store.Nominees` and `Store.Nominators`: the people of a nomination come
  in insertion order. The query has no `ORDER BY`, so SQLite may return them
  in another order.
- A NULL `nomination_id` is never written: `scrape_nominations` always passes
  a row's id. SQLite's rule that NULLs never clash under `unique` is not
  modelled.
- The records `get_nominee_table` appends are one shared dict per row. The
  model appends the row's final record as many times as the source appends
  it. The result is the same list of values, but object identity is not
  modelled.
- Where a page has several `<b>`, rubric spans or links, only what the
  parser reads is modelled: the first of each, and a link's first child
  when it is text.
- A listing row whose id cell shows text but has no link raises in the
  source (`None.get`). The model raises too (`MissingIdLink`). A row whose
  id cell is empty keeps the id NULL, and SQLite assigns a rowid.
- `Store.SavedAllTwice`: holds only for pages whose every record has an id.
  A record without an id gets a fresh rowid on every save, so each re-run
  of the overview crawl adds another row for it (`Store.NullIdAddsRow`).
  That rowid can also make a later nomination with the same id be ignored
  (`Store.NullRowIdShadows`).
