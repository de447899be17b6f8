/**
 * The `NobelScraper` object: the two tables of its SQLite connection, the
 * year range it crawls, and the methods that run the statements of module
 * Store one call at a time, export the CSV, and drive the two crawl phases.
 *
 * HTTP is given as two oracles from a URL to a page, `None` standing for a
 * status other than 200 (`get_page` raises ValueError).
 */
module Scraper {
  import opened Basics
  import opened Text
  import opened Store
  import Overview
  import Detail
  import Csv = Export

  /** What ends a crawl: a failed request, or an exception escaping a parser or a lookup. */
  datatype RunError =
    | HttpError(url: string)
    | OverviewError(overviewError: Overview.ParseError)
    | DetailError(detailError: Detail.ParseError)
    | LookupError(storeError: StoreError)

  /** A listing page given as its tables; a detail page as its bordered table, if it has one. */
  type OverviewFetch = string -> Option<seq<Overview.Table>>
  type DetailFetch = string -> Option<Option<seq<Detail.DetailRow>>>

  /** `base_url.format(prize=prize, year=year)`. */
  function ListUrl(prize: int, year: int): string {
    "https://www.nobelprize.org/nomination/archive/list.php?prize=" + IntToString(prize) + "&year=" + IntToString(year)
  }

  // ---------------------------------------------------------------------
  // What scrape_overview does
  // ---------------------------------------------------------------------

  /** `range(lo, hi + 1)` paired with `prize`. */
  function Years(prize: int, lo: int, hi: int): (r: seq<(int, int)>)
    ensures |r| == if lo <= hi then hi - lo + 1 else 0
    ensures forall i :: 0 <= i < |r| ==> r[i] == (prize, lo + i)
    decreases hi - lo
  {
    if lo > hi then [] else [(prize, lo)] + Years(prize, lo + 1, hi)
  }

  /** The (prize, year) pages in the order the two nested loops visit them. */
  function Schedule(prizes: seq<int>, lo: int, hi: int): seq<(int, int)> {
    if prizes == [] then [] else Years(prizes[0], lo, hi) + Schedule(prizes[1..], lo, hi)
  }

  /** One page of the overview crawl: fetch, parse, save. */
  ghost function OverviewStep(m: Nominations, page: (int, int), fetch: OverviewFetch): (Nominations, Option<RunError>) {
    var url := ListUrl(page.0, page.1);
    match fetch(url)
    case None => (m, Some(HttpError(url)))
    case Some(tables) =>
      match Overview.NomineeTable(tables)
      case Err(e) => (m, Some(OverviewError(e)))
      case Ok(records) => (SavedAll(m, page.0, page.1, records), None)
  }

  /** The overview crawl over a list of pages; the first failure ends it, the pages saved before it stay saved. */
  ghost function OverviewRun(m: Nominations, pages: seq<(int, int)>, fetch: OverviewFetch): (Nominations, Option<RunError>)
    decreases |pages|
  {
    if pages == [] then (m, None)
    else
      var (m1, err) := OverviewStep(m, pages[0], fetch);
      if err.Some? then (m1, err) else OverviewRun(m1, pages[1..], fetch)
  }

  /** A page keeps the rows already there, and the rows it adds are unretrieved rows of that page. */
  lemma OverviewStepEffect(m: Nominations, page: (int, int), fetch: OverviewFetch)
    requires Keyed(m)
    ensures var (r, err) := OverviewStep(m, page, fetch);
      Keyed(r) && (forall k :: k in m ==> k in r && r[k] == m[k]) &&
      (forall k :: k in r && k !in m ==> !r[k].retrieved && (r[k].prizeId, r[k].year) == page)
  {
    var url := ListUrl(page.0, page.1);
    if fetch(url).Some? && Overview.NomineeTable(fetch(url).value).Ok? {
      var records := Overview.NomineeTable(fetch(url).value).value;
      SavedAllKeeps(m, page.0, page.1, records);
      SavedAllNew(m, page.0, page.1, records);
    }
  }

  /** The records of a listing page, when it was fetched and parsed. */
  ghost function PageRecords(page: (int, int), fetch: OverviewFetch): Option<seq<Overview.NomRecord>> {
    var tables := fetch(ListUrl(page.0, page.1));
    if tables.Some? && Overview.NomineeTable(tables.value).Ok? then Some(Overview.NomineeTable(tables.value).value) else None
  }

  predicate RecordsSaved(m: Nominations, records: seq<Overview.NomRecord>) {
    forall rec :: rec in records && rec.id.Some? ==> rec.id.value in m
  }

  /** The page was fetched and parsed, and each of its records with an id has its row. */
  ghost predicate PageSaved(m: Nominations, page: (int, int), fetch: OverviewFetch) {
    PageRecords(page, fetch).Some? && RecordsSaved(m, PageRecords(page, fetch).value)
  }

  /**
   * The overview crawl never alters a row already in the table, and every row
   * it adds is an unretrieved row for one of the crawled pages.
   */
  lemma {:induction false} OverviewRunEffect(m: Nominations, pages: seq<(int, int)>, fetch: OverviewFetch)
    requires Keyed(m)
    ensures var r := OverviewRun(m, pages, fetch).0;
      Keyed(r) && (forall k :: k in m ==> k in r && r[k] == m[k]) &&
      forall k :: k in r && k !in m ==> !r[k].retrieved && (r[k].prizeId, r[k].year) in pages
    decreases |pages|
  {
    if pages != [] {
      var (m1, err) := OverviewStep(m, pages[0], fetch);
      OverviewStepEffect(m, pages[0], fetch);
      if err.None? {
        OverviewRunEffect(m1, pages[1..], fetch);
        var r := OverviewRun(m, pages, fetch).0;
        assert r == OverviewRun(m1, pages[1..], fetch).0;
        forall k | k in r && k !in m
          ensures (r[k].prizeId, r[k].year) in pages
        {
          if k !in m1 {
            assert (r[k].prizeId, r[k].year) in pages[1..];
          }
        }
      }
    }
  }

  /** Crawling `a` then `b` is crawling `a`, and then `b` only if `a` went through. */
  lemma {:induction false} OverviewRunAppend(m: Nominations, a: seq<(int, int)>, b: seq<(int, int)>, fetch: OverviewFetch)
    ensures var first := OverviewRun(m, a, fetch);
      OverviewRun(m, a + b, fetch) == if first.1.Some? then first else OverviewRun(first.0, b, fetch)
    decreases |a|
  {
    if a == [] {
      assert a + b == b;
    } else {
      assert (a + b)[0] == a[0] && (a + b)[1..] == a[1..] + b;
      OverviewRunFirst(m, a + b, fetch);
      OverviewRunFirst(m, a, fetch);
      var step := OverviewStep(m, a[0], fetch);
      if step.1.None? {
        OverviewRunAppend(step.0, a[1..], b, fetch);
      }
    }
  }

  /** The crawl went through the pages before page i, and page i failed. */
  ghost predicate FailsAt(m: Nominations, pages: seq<(int, int)>, fetch: OverviewFetch, i: nat) {
    i < |pages| && OverviewRun(m, pages[..i], fetch).1.None? &&
    OverviewStep(OverviewRun(m, pages[..i], fetch).0, pages[i], fetch).1.Some?
  }

  /** A crawl that fails has gone through every page before one whose step failed. */
  lemma {:induction false} OverviewRunFails(m: Nominations, pages: seq<(int, int)>, fetch: OverviewFetch)
    requires OverviewRun(m, pages, fetch).1.Some?
    ensures exists i :: FailsAt(m, pages, fetch, i)
    decreases |pages|
  {
    var step := OverviewStep(m, pages[0], fetch);
    OverviewRunFirst(m, pages, fetch);
    if step.1.Some? {
      assert pages[..0] == [];
      assert FailsAt(m, pages, fetch, 0);
    } else {
      OverviewRunFails(step.0, pages[1..], fetch);
      var j :| FailsAt(step.0, pages[1..], fetch, j);
      FailsAtShift(m, pages, fetch, j);
    }
  }

  lemma FailsAtShift(m: Nominations, pages: seq<(int, int)>, fetch: OverviewFetch, j: nat)
    requires pages != [] && OverviewStep(m, pages[0], fetch).1.None?
    requires FailsAt(OverviewStep(m, pages[0], fetch).0, pages[1..], fetch, j)
    ensures FailsAt(m, pages, fetch, j + 1)
  {
    var prefix := pages[..j + 1];
    assert prefix[0] == pages[0] && prefix[1..] == pages[1..][..j];
    OverviewRunFirst(m, prefix, fetch);
    assert pages[j + 1] == pages[1..][j];
  }

  /**
   * When the crawl fails at page i, it ends with the error of page i and
   * the table the pages before it left.
   */
  lemma OverviewRunStopsAt(m: Nominations, pages: seq<(int, int)>, fetch: OverviewFetch, i: nat)
    requires FailsAt(m, pages, fetch, i)
    ensures var before := OverviewRun(m, pages[..i], fetch).0;
      OverviewRun(m, pages, fetch) == (before, OverviewStep(before, pages[i], fetch).1)
  {
    var before := OverviewRun(m, pages[..i], fetch).0;
    var rest := pages[i..];
    assert pages == pages[..i] + rest && rest[0] == pages[i];
    OverviewRunAppend(m, pages[..i], rest, fetch);
    OverviewRunFirst(before, rest, fetch);
    OverviewStepFailureKeeps(before, pages[i], fetch);
  }

  /** A page that fails leaves the table as it was. */
  lemma OverviewStepFailureKeeps(m: Nominations, page: (int, int), fetch: OverviewFetch)
    requires OverviewStep(m, page, fetch).1.Some?
    ensures OverviewStep(m, page, fetch).0 == m
  {
  }

  /** A crawl that fails at page i has added rows only for the pages before it. */
  lemma OverviewRunFailureAdds(m: Nominations, pages: seq<(int, int)>, fetch: OverviewFetch, i: nat)
    requires Keyed(m) && FailsAt(m, pages, fetch, i)
    ensures var r := OverviewRun(m, pages, fetch).0;
      forall k :: k in r && k !in m ==> !r[k].retrieved && (r[k].prizeId, r[k].year) in pages[..i]
  {
    OverviewRunStopsAt(m, pages, fetch, i);
    OverviewRunEffect(m, pages[..i], fetch);
  }

  /** A page never removes a key, and a page that goes through is saved. */
  lemma OverviewStepSaves(m: Nominations, page: (int, int), fetch: OverviewFetch)
    ensures var step := OverviewStep(m, page, fetch);
      m.Keys <= step.0.Keys && (step.1.None? ==> PageSaved(step.0, page, fetch))
  {
    var url := ListUrl(page.0, page.1);
    if fetch(url).Some? && Overview.NomineeTable(fetch(url).value).Ok? {
      var records := Overview.NomineeTable(fetch(url).value).value;
      SavedAllGrows(m, page.0, page.1, records);
      SavedAllCovers(m, page.0, page.1, records);
    }
  }

  /** The overview crawl never removes a key. */
  lemma {:induction false} OverviewRunGrows(m: Nominations, pages: seq<(int, int)>, fetch: OverviewFetch)
    ensures m.Keys <= OverviewRun(m, pages, fetch).0.Keys
    decreases |pages|
  {
    if pages != [] {
      OverviewStepSaves(m, pages[0], fetch);
      OverviewRunGrows(OverviewStep(m, pages[0], fetch).0, pages[1..], fetch);
    }
  }

  /** A crawl that ends without error has fetched and parsed every page and saved a row for each record with an id. */
  lemma {:induction false} OverviewRunComplete(m: Nominations, pages: seq<(int, int)>, fetch: OverviewFetch, page: (int, int))
    requires OverviewRun(m, pages, fetch).1.None?
    requires page in pages
    ensures PageSaved(OverviewRun(m, pages, fetch).0, page, fetch)
    decreases |pages|
  {
    var step := OverviewStep(m, pages[0], fetch);
    var m1 := step.0;
    OverviewStepSaves(m, pages[0], fetch);
    OverviewRunFirst(m, pages, fetch);
    var r := OverviewRun(m1, pages[1..], fetch);
    assert step.1.None? && OverviewRun(m, pages, fetch) == r;
    if page == pages[0] {
      OverviewRunGrows(m1, pages[1..], fetch);
      PageSavedGrows(m1, r.0, page, fetch);
    } else {
      OverviewRunComplete(m1, pages[1..], fetch, page);
    }
  }

  lemma PageSavedGrows(m: Nominations, r: Nominations, page: (int, int), fetch: OverviewFetch)
    requires PageSaved(m, page, fetch)
    requires m.Keys <= r.Keys
    ensures PageSaved(r, page, fetch)
  {
    RecordsSavedGrows(m, r, PageRecords(page, fetch).value);
  }

  lemma RecordsSavedGrows(m: Nominations, r: Nominations, records: seq<Overview.NomRecord>)
    requires RecordsSaved(m, records)
    requires m.Keys <= r.Keys
    ensures RecordsSaved(r, records)
  {
  }

  lemma OverviewRunFirst(m: Nominations, pages: seq<(int, int)>, fetch: OverviewFetch)
    requires pages != []
    ensures var step := OverviewStep(m, pages[0], fetch);
      OverviewRun(m, pages, fetch) == if step.1.Some? then step else OverviewRun(step.0, pages[1..], fetch)
  {
  }

  lemma YearsFirst(prize: int, lo: int, hi: int, later: seq<(int, int)>)
    requires lo <= hi
    ensures var pages := Years(prize, lo, hi) + later;
      pages != [] && pages[0] == (prize, lo) && pages[1..] == Years(prize, lo + 1, hi) + later
  {
    assert Years(prize, lo, hi) == [(prize, lo)] + Years(prize, lo + 1, hi);
  }

  lemma ScheduleFirst(prizes: seq<int>, p: nat, lo: int, hi: int)
    requires p < |prizes|
    ensures Schedule(prizes[p..], lo, hi) == Years(prizes[p], lo, hi) + Schedule(prizes[p + 1..], lo, hi)
  {
    assert prizes[p..][1..] == prizes[p + 1..];
  }

  // ---------------------------------------------------------------------
  // What scrape_nominations does
  // ---------------------------------------------------------------------

  /** The tables a crawl works on. */
  datatype Tables = Tables(nominations: Nominations, people: seq<Person>)

  /**
   * One nomination of the detail crawl: the prize lookup of the log line,
   * fetch, parse, save the info, mark the row retrieved.
   */
  function DetailStep(t: Tables, n: Nomination, fetch: DetailFetch): (Tables, Option<RunError>) {
    var url := NominationUrl(n.id);
    if n.prizeId !in PRIZES then (t, Some(LookupError(UnknownPrize(n.prizeId))))
    else match fetch(url)
      case None => (t, Some(HttpError(url)))
      case Some(page) =>
        match Detail.NominationInfo(page)
        case Err(e) => (t, Some(DetailError(e)))
        case Ok(info) => (Tables(Marked(t.nominations, n.id), InfoSaved(t.people, n.id, info)), None)
  }

  /** The detail crawl over the rows it listed at its start; the first failure ends it. */
  function DetailRun(t: Tables, rows: seq<Nomination>, fetch: DetailFetch): (Tables, Option<RunError>)
    decreases |rows|
  {
    if rows == [] then (t, None)
    else
      var (t1, err) := DetailStep(t, rows[0], fetch);
      if err.Some? then (t1, err) else DetailRun(t1, rows[1..], fetch)
  }

  /** The rows still to retrieve, each the current row under its own id, no id twice. */
  predicate ToRetrieve(m: Nominations, rows: seq<Nomination>) {
    (forall i :: 0 <= i < |rows| ==> rows[i].id in m && m[rows[i].id] == rows[i] && !rows[i].retrieved) &&
    (forall i, j :: 0 <= i < j < |rows| ==> rows[i].id != rows[j].id)
  }

  predicate InfoStored(people: seq<Person>, id: int, info: seq<Detail.Group>) {
    forall g :: g in info ==> HasRole(people, id, g.subject)
  }

  /**
   * The detail crawl keeps the table's keys and its people rows (adding rows
   * behind them, unique per nomination and role), and a row it marks retrieved
   * is one whose page parsed and whose every role was saved first.
   */
  lemma {:induction false} DetailRunEffect(t: Tables, rows: seq<Nomination>, fetch: DetailFetch)
    requires Keyed(t.nominations) && UniqueRoles(t.people) && ToRetrieve(t.nominations, rows)
    ensures var r := DetailRun(t, rows, fetch).0;
      Keyed(r.nominations) && r.nominations.Keys == t.nominations.Keys &&
      UniqueRoles(r.people) && t.people <= r.people &&
      forall i :: 0 <= i < |rows| && r.nominations[rows[i].id].retrieved ==>
        var page := fetch(NominationUrl(rows[i].id));
        page.Some? && Detail.NominationInfo(page.value).Ok? &&
        InfoStored(r.people, rows[i].id, Detail.NominationInfo(page.value).value)
    decreases rows
  {
    if rows != [] {
      var n := rows[0];
      var (t1, err) := DetailStep(t, n, fetch);
      DetailStepEffect(t, rows, fetch);
      if err.None? {
        DetailRunEffect(t1, rows[1..], fetch);
        var r := DetailRun(t, rows, fetch).0;
        assert r == DetailRun(t1, rows[1..], fetch).0;
        forall i | 0 <= i < |rows| && r.nominations[rows[i].id].retrieved
          ensures InfoStored(r.people, rows[i].id, Detail.NominationInfo(fetch(NominationUrl(rows[i].id)).value).value)
        {
          if i == 0 {
            InfoStoredKept(t1.people, r.people, n.id, Detail.NominationInfo(fetch(NominationUrl(n.id)).value).value);
          } else {
            assert rows[i] == rows[1..][i - 1];
          }
        }
      }
    }
  }

  /**
   * One step of the detail crawl keeps the keys and the people rows; on
   * success the rest of the listing is still to retrieve and the step's roles
   * are saved; on failure nothing is marked.
   */
  lemma DetailStepEffect(t: Tables, rows: seq<Nomination>, fetch: DetailFetch)
    requires Keyed(t.nominations) && UniqueRoles(t.people) && ToRetrieve(t.nominations, rows) && rows != []
    ensures var (t1, err) := DetailStep(t, rows[0], fetch);
      Keyed(t1.nominations) && t1.nominations.Keys == t.nominations.Keys &&
      UniqueRoles(t1.people) && t.people <= t1.people &&
      (err.Some? ==> t1 == t && forall i :: 0 <= i < |rows| ==> !t.nominations[rows[i].id].retrieved) &&
      (err.None? ==>
        var page := fetch(NominationUrl(rows[0].id));
        page.Some? && Detail.NominationInfo(page.value).Ok? &&
        InfoStored(t1.people, rows[0].id, Detail.NominationInfo(page.value).value) &&
        ToRetrieve(t1.nominations, rows[1..]))
  {
    var n := rows[0];
    var (t1, err) := DetailStep(t, n, fetch);
    if err.None? {
      var info := Detail.NominationInfo(fetch(NominationUrl(n.id)).value).value;
      MarkedEffect(t.nominations, n.id);
      InfoSavedEffect(t.people, n.id, info);
      forall g | g in info ensures HasRole(t1.people, n.id, g.subject) {
        var k :| 0 <= k < |info| && info[k] == g;
      }
      forall i | 0 <= i < |rows[1..]|
        ensures rows[1..][i].id in t1.nominations && t1.nominations[rows[1..][i].id] == rows[1..][i]
      {
        assert rows[1..][i] == rows[i + 1];
      }
    }
  }

  lemma InfoStoredKept(a: seq<Person>, b: seq<Person>, id: int, info: seq<Detail.Group>)
    requires a <= b && InfoStored(a, id, info)
    ensures InfoStored(b, id, info)
  {
    forall g | g in info ensures HasRole(b, id, g.subject) {
      HasRoleKept(a, b, id, g.subject);
    }
  }

  /** A detail crawl that ends without error has marked every listed row retrieved. */
  lemma {:induction false} DetailRunComplete(t: Tables, rows: seq<Nomination>, fetch: DetailFetch)
    requires Keyed(t.nominations) && ToRetrieve(t.nominations, rows)
    requires DetailRun(t, rows, fetch).1.None?
    ensures forall i :: 0 <= i < |rows| ==>
      rows[i].id in DetailRun(t, rows, fetch).0.nominations &&
      DetailRun(t, rows, fetch).0.nominations[rows[i].id].retrieved
    decreases rows
  {
    if rows != [] {
      var n := rows[0];
      var (t1, err) := DetailStep(t, n, fetch);
      MarkedEffect(t.nominations, n.id);
      assert ToRetrieve(t1.nominations, rows[1..]) by {
        forall i | 0 <= i < |rows[1..]|
          ensures rows[1..][i].id in t1.nominations && t1.nominations[rows[1..][i].id] == rows[1..][i]
        {
          assert rows[1..][i] == rows[i + 1];
        }
      }
      DetailRunComplete(t1, rows[1..], fetch);
      DetailRunMarks(t1, rows[1..], fetch, n.id);
      forall i | 1 <= i < |rows|
        ensures DetailRun(t, rows, fetch).0.nominations[rows[i].id].retrieved
      {
        assert rows[i] == rows[1..][i - 1];
      }
    }
  }

  /** The detail crawl never clears a retrieved flag. */
  lemma {:induction false} DetailRunMarks(t: Tables, rows: seq<Nomination>, fetch: DetailFetch, id: int)
    requires id in t.nominations && t.nominations[id].retrieved
    ensures id in DetailRun(t, rows, fetch).0.nominations && DetailRun(t, rows, fetch).0.nominations[id].retrieved
    decreases rows
  {
    if rows != [] {
      var (t1, err) := DetailStep(t, rows[0], fetch);
      if err.None? {
        DetailRunMarks(t1, rows[1..], fetch, id);
      }
    }
  }

  /** The listing the detail crawl walks holds the rows still to retrieve. */
  lemma PendingToRetrieve(m: Nominations)
    requires Keyed(m)
    ensures DistinctIds(Pending(m))
    ensures ToRetrieve(m, Listing(Pending(m)))
  {
    KeyedDistinct(m);
    var rows := Listing(Pending(m));
    forall i | 0 <= i < |rows|
      ensures rows[i].id in m && m[rows[i].id] == rows[i] && !rows[i].retrieved
    {
      assert rows[i] in Pending(m);
    }
    forall i, j | 0 <= i < j < |rows| ensures rows[i].id != rows[j].id {
      assert Before(rows[i], rows[j]);
    }
  }

  /** After a detail crawl over the pending rows that ends without error, no row is pending. */
  lemma NothingLeftPending(t: Tables, fetch: DetailFetch)
    requires Keyed(t.nominations) && UniqueRoles(t.people)
    requires DetailRun(t, Listing(Pending(t.nominations)), fetch).1.None?
    ensures DistinctIds(Pending(t.nominations))
    ensures Pending(DetailRun(t, Listing(Pending(t.nominations)), fetch).0.nominations) == {}
  {
    var m := t.nominations;
    PendingToRetrieve(m);
    var rows := Listing(Pending(m));
    var r := DetailRun(t, rows, fetch).0.nominations;
    DetailRunEffect(t, rows, fetch);
    DetailRunComplete(t, rows, fetch);
    forall k | k in r ensures r[k].retrieved {
      if m[k].retrieved {
        DetailRunMarks(t, rows, fetch, k);
      } else {
        assert m[k] in Pending(m);
        var i :| 0 <= i < |rows| && rows[i] == m[k];
      }
    }
    assert forall x :: x !in Pending(r);
  }

  // ---------------------------------------------------------------------
  // The scraper object
  // ---------------------------------------------------------------------

  class NobelScraper {
    var minYear: int
    var maxYear: int
    var nominations: Nominations
    var people: seq<Person>

    /** The table constraints: the primary key, `unique(nomination_id, role)`, every column present. */
    ghost predicate Valid()
      reads this
    {
      Keyed(nominations) && UniqueRoles(people) && AllHaveColumns(people)
    }

    /**
     * `__init__` on a database holding the given tables (both empty for a new
     * or in-memory database); a year bound that is None or 0 keeps its default.
     */
    constructor(storedNominations: Nominations, storedPeople: seq<Person>, minYearArg: Option<int>, maxYearArg: Option<int>)
      requires Keyed(storedNominations) && UniqueRoles(storedPeople) && AllHaveColumns(storedPeople)
      ensures Valid()
      ensures nominations == storedNominations && people == storedPeople
      ensures minYear == if minYearArg.Some? && minYearArg.value != 0 then minYearArg.value else MIN_YEAR
      ensures maxYear == if maxYearArg.Some? && maxYearArg.value != 0 then maxYearArg.value else MAX_YEAR
    {
      minYear := MIN_YEAR;
      maxYear := MAX_YEAR;
      if minYearArg.Some? && minYearArg.value != 0 {
        minYear := minYearArg.value;
      }
      if maxYearArg.Some? && maxYearArg.value != 0 {
        maxYear := maxYearArg.value;
      }
      nominations := storedNominations;
      people := storedPeople;
    }

    /** SQLite's choice of rowid for a row inserted without one: it looks up the largest rowid. */
    method NextRowId() returns (r: int)
      ensures r == NewRowId(nominations)
    {
      if nominations == map[] {
        return 1;
      }
      var keys := nominations.Keys;
      assert (forall j :: j !in keys) ==> keys == {};
      var best :| best in keys;
      var rest := keys - {best};
      while rest != {}
        invariant rest <= keys && best in keys
        invariant forall j :: j in keys && j !in rest ==> j <= best
        decreases |rest|
      {
        assert (forall j :: j !in rest) ==> rest == {};
        var j :| j in rest;
        if j > best {
          best := j;
        }
        rest := rest - {j};
      }
      r := best + 1;
      assert MaxKey(keys) == best by {
        assert MaxKey(keys) <= best && best <= MaxKey(keys);
      }
    }

    /** `save_nomination`: one `INSERT OR IGNORE INTO nominations`. */
    method SaveNomination(id: Option<int>, prize: int, year: int, nominees: string, nominators: string)
      requires Valid()
      modifies this
      ensures Valid()
      ensures nominations == InsertNomination(old(nominations), id, prize, year, nominees, nominators)
      ensures people == old(people) && minYear == old(minYear) && maxYear == old(maxYear)
    {
      var key: int;
      if id.Some? {
        key := id.value;
      } else {
        key := NextRowId();
      }
      if key !in nominations {
        nominations := nominations[key := Nomination(key, prize, year, nominees, nominators, false)];
      }
    }

    /** `save_nominations`: the records of one page, in order. */
    method SaveNominations(prize: int, year: int, records: seq<Overview.NomRecord>)
      requires Valid()
      modifies this
      ensures Valid()
      ensures nominations == SavedAll(old(nominations), prize, year, records)
      ensures people == old(people) && minYear == old(minYear) && maxYear == old(maxYear)
    {
      for i := 0 to |records|
        invariant Valid()
        invariant nominations == SavedAll(old(nominations), prize, year, records[..i])
        invariant people == old(people) && minYear == old(minYear) && maxYear == old(maxYear)
      {
        assert records[..i + 1][..i] == records[..i];
        var rec := records[i];
        SaveNomination(rec.id, prize, year, IdList(rec.nominees), IdList(rec.nominators));
      }
      assert records[..|records|] == records;
    }

    /** The loop over `info_cols` that builds one row's values. */
    static method PersonData(nominationId: int, group: Detail.Group) returns (p: Person)
      ensures p == PersonRow(nominationId, group)
    {
      var attrs: map<string, Option<string>> := map[];
      for j := 0 to |INFO_COLUMNS|
        invariant attrs == map c | c in INFO_COLUMNS[..j] :: FirstValue(group.pairs, c)
      {
        var col := INFO_COLUMNS[j];
        var val := FirstValue(group.pairs, col);
        assert INFO_COLUMNS[..j + 1] == INFO_COLUMNS[..j] + [col];
        attrs := attrs[col := val];
      }
      assert INFO_COLUMNS[..|INFO_COLUMNS|] == INFO_COLUMNS;
      p := Person(nominationId, group.subject, attrs);
    }

    /** `save_nomination_info`: one `INSERT OR IGNORE INTO nomination_people` per key of the info. */
    method SaveNominationInfo(nominationId: int, info: seq<Detail.Group>)
      requires Valid()
      modifies this
      ensures Valid()
      ensures people == InfoSaved(old(people), nominationId, info)
      ensures nominations == old(nominations) && minYear == old(minYear) && maxYear == old(maxYear)
    {
      for i := 0 to |info|
        invariant people == InfoSaved(old(people), nominationId, info[..i])
        invariant nominations == old(nominations) && minYear == old(minYear) && maxYear == old(maxYear)
      {
        assert info[..i + 1][..i] == info[..i];
        var p := PersonData(nominationId, info[i]);
        if !HasRole(people, nominationId, p.role) {
          people := people + [p];
        }
      }
      assert info[..|info|] == info;
      InfoSavedEffect(old(people), nominationId, info);
      InfoSavedColumns(old(people), nominationId, info);
    }

    /** `update_nomination`: `update nominations set retrieved=1 where id = ?`. */
    method UpdateNomination(nominationId: int)
      requires Valid()
      modifies this
      ensures Valid()
      ensures nominations == Marked(old(nominations), nominationId)
      ensures people == old(people) && minYear == old(minYear) && maxYear == old(maxYear)
    {
      if nominationId in nominations {
        nominations := nominations[nominationId := nominations[nominationId].(retrieved := true)];
      }
      MarkedEffect(old(nominations), nominationId);
    }

    /** `select * from nominations [where retrieved=0] order by ...`: the rows, one at a time into the sorted result. */
    method Query(pendingOnly: bool) returns (rows: seq<Nomination>)
      requires Valid()
      ensures DistinctIds(Rows(nominations)) && DistinctIds(Pending(nominations))
      ensures rows == Listing(if pendingOnly then Pending(nominations) else Rows(nominations))
    {
      KeyedDistinct(nominations);
      rows := [];
      var rest := nominations.Keys;
      while rest != {}
        invariant rest <= nominations.Keys
        invariant StrictlySorted(rows)
        invariant forall y :: y in rows ==> y.id in nominations && y.id !in rest && nominations[y.id] == y && (pendingOnly ==> !y.retrieved)
        invariant forall k :: k in nominations && k !in rest && (pendingOnly ==> !nominations[k].retrieved) ==> nominations[k] in rows
        decreases |rest|
      {
        assert (forall j :: j !in rest) ==> rest == {};
        var k :| k in rest;
        var row := nominations[k];
        if !pendingOnly || !row.retrieved {
          InsertSortedSorted(rows, row);
          rows := InsertSorted(rows, row);
        }
        rest := rest - {k};
      }
      var selected := if pendingOnly then Pending(nominations) else Rows(nominations);
      forall x ensures x in rows <==> x in selected {
        if x in selected {
          var k :| k in nominations && nominations[k] == x;
        }
      }
      SortedUnique(rows, Listing(selected));
    }

    /** `get_new_nominations`: the rows not yet retrieved, by prize and year. */
    method GetNewNominations() returns (rows: seq<Nomination>)
      requires Valid()
      ensures DistinctIds(Pending(nominations))
      ensures rows == Listing(Pending(nominations))
      ensures SortedByPrizeAndYear(rows)
      ensures ToRetrieve(nominations, rows)
      ensures forall k :: k in nominations && !nominations[k].retrieved ==> nominations[k] in rows
    {
      rows := Query(true);
      ListingByPrizeAndYear(Pending(nominations));
      PendingToRetrieve(nominations);
    }

    /** The loop of `get_records` over a nomination's people rows, splitting them by role. */
    method PeopleOf(nominationId: int) returns (nominees: seq<Person>, nominators: seq<Person>)
      ensures nominees == Nominees(people, nominationId)
      ensures nominators == Nominators(people, nominationId)
    {
      nominees := [];
      nominators := [];
      for j := 0 to |people|
        invariant nominees == Nominees(people[..j], nominationId)
        invariant nominators == Nominators(people[..j], nominationId)
      {
        assert people[..j + 1][..j] == people[..j];
        var person := people[j];
        if person.nominationId == nominationId {
          if IsNominatorRole(person.role) {
            nominators := nominators + [person];
          } else if IsNomineeRole(person.role) {
            nominees := nominees + [person];
          }
        }
      }
      assert people[..|people|] == people;
    }

    /** `get_records`: every nomination, by prize, year and id, with its nominees and nominators. */
    method GetRecords() returns (r: Result<seq<Record>, StoreError>)
      requires Valid()
      ensures DistinctIds(Rows(nominations))
      ensures r == RecordsOf(Listing(Rows(nominations)), people)
    {
      var rows := Query(false);
      var records: seq<Record> := [];
      for i := 0 to |rows|
        invariant RecordsOf(rows, people) == Then(Ok(records), RecordsOf(rows[i..], people))
      {
        var row := rows[i];
        assert rows[i..][0] == row && rows[i..][1..] == rows[i + 1..];
        if row.prizeId !in PRIZES {
          return Err(UnknownPrize(row.prizeId));
        }
        var nominees, nominators := PeopleOf(row.id);
        var rec := Record(row.year, PRIZES[row.prizeId], row.id, nominees, nominators);
        ThenAssociative(Ok(records), Ok([rec]), RecordsOf(rows[i + 1..], people));
        records := records + [rec];
      }
      assert rows[|rows|..] == [] && records + [] == records;
      r := Ok(records);
    }

    /** The inner loop of `export` over one group of a record's people. */
    static method WriteLines(lines: seq<seq<string>>, rec: Record, ps: seq<Person>) returns (r: seq<seq<string>>)
      requires AllHaveColumns(ps)
      ensures r == lines + Csv.PeopleLines(rec, ps)
    {
      r := lines;
      for j := 0 to |ps|
        invariant r == lines + Csv.PeopleLines(rec, ps[..j])
      {
        assert ps[..j + 1][..j] == ps[..j] && ps[j] in ps;
        r := r + [Csv.PersonLine(rec, ps[j])];
      }
      assert ps[..|ps|] == ps;
    }

    /** One pass of the outer loop of `export`: a record's nominees, then its nominators. */
    static method WriteRecord(lines: seq<seq<string>>, rec: Record) returns (r: seq<seq<string>>)
      requires AllHaveColumns(rec.nominees) && AllHaveColumns(rec.nominators)
      ensures r == lines + Csv.RecordLines(rec)
    {
      r := WriteLines(lines, rec, rec.nominees);
      r := WriteLines(r, rec, rec.nominators);
    }

    /** The outer loop of `export`, record by record. */
    static method WriteBody(lines: seq<seq<string>>, records: seq<Record>) returns (r: seq<seq<string>>)
      requires Csv.RecordsHaveColumns(records)
      ensures r == lines + Csv.BodyLines(records)
    {
      r := lines;
      for i := 0 to |records|
        invariant r == lines + Csv.BodyLines(records[..i])
      {
        Csv.BodyLinesPrefix(records, i);
        r := WriteRecord(r, records[i]);
      }
      assert records[..|records|] == records;
    }

    /**
     * `export`: the header, then a line per nominee and per nominator of each
     * record; when `get_records` raises, the file holds the header alone.
     */
    method Export() returns (lines: seq<seq<string>>, err: Option<StoreError>)
      requires Valid()
      ensures DistinctIds(Rows(nominations))
      ensures var recs := RecordsOf(Listing(Rows(nominations)), people);
        (recs.Ok? ==> Csv.RecordsHaveColumns(recs.value)) && (lines, err) == Csv.ExportOf(recs)
    {
      lines := [Csv.HEADER];
      var result := GetRecords();
      if result.Err? {
        return lines, Some(result.error);
      }
      var records := result.value;
      Csv.RecordsOfColumns(Listing(Rows(nominations)), people);
      lines := WriteBody(lines, records);
      err := None;
    }

    /** One pass of the inner loop of `scrape_overview`: fetch a listing page, parse it, save its records. */
    method ScrapePage(prize: int, year: int, fetch: OverviewFetch) returns (err: Option<RunError>)
      requires Valid()
      modifies this
      ensures Valid()
      ensures (nominations, err) == OverviewStep(old(nominations), (prize, year), fetch)
      ensures people == old(people) && minYear == old(minYear) && maxYear == old(maxYear)
    {
      var url := ListUrl(prize, year);
      var page := fetch(url);
      if page.None? {
        return Some(HttpError(url));
      }
      var records := Overview.GetNomineeTable(page.value);
      if records.Err? {
        return Some(OverviewError(records.error));
      }
      SaveNominations(prize, year, records.value);
      err := None;
    }

    /** `scrape_overview`: every prize, every year of the range, page by page. */
    method ScrapeOverview(fetch: OverviewFetch) returns (err: Option<RunError>)
      requires Valid()
      modifies this
      ensures Valid()
      ensures (nominations, err) == OverviewRun(old(nominations), Schedule(PRIZE_IDS, minYear, maxYear), fetch)
      ensures people == old(people) && minYear == old(minYear) && maxYear == old(maxYear)
    {
      ghost var all := Schedule(PRIZE_IDS, minYear, maxYear);
      for p := 0 to |PRIZE_IDS|
        invariant Valid()
        invariant people == old(people) && minYear == old(minYear) && maxYear == old(maxYear)
        invariant OverviewRun(old(nominations), all, fetch) == OverviewRun(nominations, Schedule(PRIZE_IDS[p..], minYear, maxYear), fetch)
      {
        var prize := PRIZE_IDS[p];
        ScheduleFirst(PRIZE_IDS, p, minYear, maxYear);
        ghost var later := Schedule(PRIZE_IDS[p + 1..], minYear, maxYear);
        var year := minYear;
        while year <= maxYear
          invariant Valid()
          invariant people == old(people) && minYear == old(minYear) && maxYear == old(maxYear)
          invariant OverviewRun(old(nominations), all, fetch) == OverviewRun(nominations, Years(prize, year, maxYear) + later, fetch)
          decreases maxYear - year
        {
          YearsFirst(prize, year, maxYear, later);
          OverviewRunFirst(nominations, Years(prize, year, maxYear) + later, fetch);
          err := ScrapePage(prize, year, fetch);
          if err.Some? {
            return;
          }
          year := year + 1;
        }
        assert Years(prize, year, maxYear) + later == later;
      }
      assert PRIZE_IDS[|PRIZE_IDS|..] == [];
      err := None;
    }

    /** `scrape_nominations`: the rows not yet retrieved, one detail page each. */
    method ScrapeNominations(fetch: DetailFetch) returns (err: Option<RunError>)
      requires Valid()
      modifies this
      ensures Valid()
      ensures DistinctIds(Pending(old(nominations)))
      ensures (Tables(nominations, people), err) ==
        DetailRun(Tables(old(nominations), old(people)), Listing(Pending(old(nominations))), fetch)
      ensures err.None? ==> Pending(nominations) == {}
      ensures minYear == old(minYear) && maxYear == old(maxYear)
    {
      var rows := GetNewNominations();
      for i := 0 to |rows|
        invariant Valid()
        invariant minYear == old(minYear) && maxYear == old(maxYear)
        invariant DetailRun(Tables(old(nominations), old(people)), rows, fetch) == DetailRun(Tables(nominations, people), rows[i..], fetch)
      {
        var row := rows[i];
        assert rows[i..][0] == row && rows[i..][1..] == rows[i + 1..];
        if row.prizeId !in PRIZES {
          return Some(LookupError(UnknownPrize(row.prizeId)));
        }
        var url := NominationUrl(row.id);
        var page := fetch(url);
        if page.None? {
          return Some(HttpError(url));
        }
        var info := Detail.GetNominationInfo(page.value);
        if info.Err? {
          return Some(DetailError(info.error));
        }
        SaveNominationInfo(row.id, info.value);
        UpdateNomination(row.id);
      }
      err := None;
      NothingLeftPending(Tables(old(nominations), old(people)), fetch);
    }
  }
}
