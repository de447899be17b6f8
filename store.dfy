/**
 * The two SQLite tables the scraper keeps, as values, and the statements it
 * runs on them: `INSERT OR IGNORE` into `nominations` and into
 * `nomination_people`, the two `ORDER BY` queries, and the reading of a
 * nomination's people into nominees and nominators (`get_records`).
 *
 * The class in module Scraper holds the tables and runs these statements
 * step by step; the functions here say what each statement yields.
 */
module Store {
  import opened Basics
  import opened Text
  import Overview
  import Detail

  const MIN_YEAR := 1901
  const MAX_YEAR := 2023

  /** `prizes`: the prize ids the archive knows, with their names spelled as the scraper spells them. */
  const PRIZES: map<int, string> := map[
    1 := "Nobel Price in Physics",
    2 := "Nobel Price in Chemistry",
    3 := "Nobel Price in Physiology or Medicine",
    4 := "Nobel Price in Literature",
    5 := "Nobel Peace Price"]

  /** `nomination_url` up to the id. */
  const NOMINATION_URL := "https://www.nobelprize.org/nomination/archive/show.php?id="

  /** `nomination_url.format(id=id)`. */
  function NominationUrl(id: int): string {
    NOMINATION_URL + IntToString(id)
  }

  /** The keys of `prizes` in the order a loop over the dict visits them. */
  const PRIZE_IDS := [1, 2, 3, 4, 5]

  /** A row of `nominations`; `nominees` and `nominators` are `;`-joined person ids. */
  datatype Nomination = Nomination(id: int, prizeId: int, year: int, nominees: string, nominators: string, retrieved: bool)

  /** The `nominations` table by its `INTEGER PRIMARY KEY`. */
  type Nominations = map<int, Nomination>

  predicate Keyed(m: Nominations) {
    forall id :: id in m ==> m[id].id == id
  }

  /** The columns of `nomination_people` after `nomination_id` and `role`, in table order. */
  const INFO_COLUMNS := ["city", "comments", "country", "gender", "motivation", "name",
                         "profession", "state", "university", "year_birth", "year_death"]

  /** A row of `nomination_people`: the nomination, the role, and a value or NULL per info column. */
  datatype Person = Person(nominationId: int, role: string, attrs: map<string, Option<string>>)

  predicate HasColumns(p: Person) {
    forall c :: c in INFO_COLUMNS ==> c in p.attrs
  }

  predicate AllHaveColumns(people: seq<Person>) {
    forall p :: p in people ==> HasColumns(p)
  }

  /** `unique(nomination_id, role)`. */
  predicate UniqueRoles(people: seq<Person>) {
    forall i, j :: 0 <= i < j < |people| ==>
      people[i].nominationId != people[j].nominationId || people[i].role != people[j].role
  }

  predicate HasRole(people: seq<Person>, nominationId: int, role: string) {
    exists i :: 0 <= i < |people| && people[i].nominationId == nominationId && people[i].role == role
  }

  // ---------------------------------------------------------------------
  // INSERT OR IGNORE INTO nominations
  // ---------------------------------------------------------------------

  /** The largest rowid in a non-empty table. */
  ghost function MaxKey(keys: set<int>): (r: int)
    requires keys != {}
    ensures r in keys
    ensures forall k :: k in keys ==> k <= r
    decreases |keys|
  {
    assert (forall j :: j !in keys) ==> keys == {};
    var k :| k in keys;
    var rest := keys - {k};
    assert forall j :: j in keys ==> j == k || j in rest;
    if rest == {} then
      k
    else
      var m := MaxKey(rest);
      if k < m then m else k
  }

  /** The rowid SQLite gives a row inserted without one: one past the largest, or 1 in an empty table. */
  ghost function NewRowId(m: Nominations): (r: int)
    ensures r !in m
  {
    if m == map[] then 1 else MaxKey(m.Keys) + 1
  }

  /**
   * `INSERT OR IGNORE INTO nominations (id, prize_id, year, nominees, nominators)`:
   * a row whose key is taken is dropped, the first row saved under a key stays.
   */
  ghost function InsertNomination(m: Nominations, id: Option<int>, prize: int, year: int, nominees: string, nominators: string): (r: Nominations)
    ensures Keyed(m) ==> Keyed(r)
    ensures forall k :: k in m ==> k in r && r[k] == m[k]
    ensures id.Some? ==> id.value in r && (id.value !in m ==> r[id.value] == Nomination(id.value, prize, year, nominees, nominators, false))
    ensures id.Some? && id.value in m ==> r == m
    ensures id.None? ==> r == m[NewRowId(m) := Nomination(NewRowId(m), prize, year, nominees, nominators, false)]
    ensures forall k :: k in r && k !in m ==> r[k] == Nomination(k, prize, year, nominees, nominators, false)
    ensures |r| <= |m| + 1
  {
    var key := if id.Some? then id.value else NewRowId(m);
    if key in m then m else m[key := Nomination(key, prize, year, nominees, nominators, false)]
  }

  /** The ids of a reference list as decimal text. */
  function IdTexts(refs: seq<Overview.Ref>): (r: seq<string>)
    ensures |r| == |refs| && forall i :: 0 <= i < |refs| ==> r[i] == IntToString(refs[i].id)
  {
    if refs == [] then [] else [IntToString(refs[0].id)] + IdTexts(refs[1..])
  }

  /** `";".join([str(x[0]) for x in refs])`. */
  function IdList(refs: seq<Overview.Ref>): string {
    Join(IdTexts(refs), ';')
  }

  /** A non-empty id list splits back, at `;`, into the decimal texts of the ids, in order. */
  lemma IdListRoundTrip(refs: seq<Overview.Ref>)
    requires |refs| >= 1
    ensures |Split(IdList(refs), ';')| == |refs|
    ensures forall i :: 0 <= i < |refs| ==> ParseInt(Split(IdList(refs), ';')[i]) == Some(refs[i].id)
  {
    var texts := IdTexts(refs);
    SplitJoin(texts, ';');
    forall i | 0 <= i < |refs|
      ensures ParseInt(Split(IdList(refs), ';')[i]) == Some(refs[i].id)
    {
      ParseIntToString(refs[i].id);
    }
  }

  /** The row `save_nominations` makes of one record. */
  ghost function SaveRecord(m: Nominations, prize: int, year: int, rec: Overview.NomRecord): Nominations {
    InsertNomination(m, rec.id, prize, year, IdList(rec.nominees), IdList(rec.nominators))
  }

  /** `nominations` after `save_nominations(prize, year, records)`. */
  ghost function SavedAll(m: Nominations, prize: int, year: int, records: seq<Overview.NomRecord>): Nominations {
    if records == [] then m
    else SaveRecord(SavedAll(m, prize, year, records[..|records| - 1]), prize, year, records[|records| - 1])
  }

  /** Saving a page's records keeps every row already there, under its own key. */
  lemma {:induction false} SavedAllKeeps(m: Nominations, prize: int, year: int, records: seq<Overview.NomRecord>)
    requires Keyed(m)
    ensures var r := SavedAll(m, prize, year, records);
      Keyed(r) && forall k :: k in m ==> k in r && r[k] == m[k]
  {
    if records != [] {
      SavedAllKeeps(m, prize, year, records[..|records| - 1]);
    }
  }

  /** Saving never removes a key, whatever the table holds. */
  lemma {:induction false} SavedAllGrows(m: Nominations, prize: int, year: int, records: seq<Overview.NomRecord>)
    ensures m.Keys <= SavedAll(m, prize, year, records).Keys
  {
    if records != [] {
      SavedAllGrows(m, prize, year, records[..|records| - 1]);
    }
  }

  /** Every record that carries an id has a row under that id afterwards. */
  lemma {:induction false} SavedAllCovers(m: Nominations, prize: int, year: int, records: seq<Overview.NomRecord>)
    ensures forall i :: 0 <= i < |records| && records[i].id.Some? ==> records[i].id.value in SavedAll(m, prize, year, records)
  {
    if records != [] {
      var n := |records| - 1;
      var prefix := records[..n];
      SavedAllCovers(m, prize, year, prefix);
      assert forall i :: 0 <= i < n ==> prefix[i] == records[i];
    }
  }

  /**
   * The rows saving adds are unretrieved rows of this prize and year, each
   * holding the id lists of one of the records.
   */
  lemma {:induction false} SavedAllNew(m: Nominations, prize: int, year: int, records: seq<Overview.NomRecord>)
    ensures var r := SavedAll(m, prize, year, records);
      forall k :: k in r && k !in m ==>
        r[k].id == k && r[k].prizeId == prize && r[k].year == year && !r[k].retrieved &&
        exists i :: 0 <= i < |records| && r[k].nominees == IdList(records[i].nominees) && r[k].nominators == IdList(records[i].nominators)
  {
    if records != [] {
      var n := |records| - 1;
      var prefix := records[..n];
      SavedAllNew(m, prize, year, prefix);
      var before := SavedAll(m, prize, year, prefix);
      var r := SavedAll(m, prize, year, records);
      forall k | k in r && k !in m
        ensures exists i :: 0 <= i < |records| && r[k].nominees == IdList(records[i].nominees) && r[k].nominators == IdList(records[i].nominators)
      {
        if k in before {
          var i :| 0 <= i < |prefix| && before[k].nominees == IdList(prefix[i].nominees) && before[k].nominators == IdList(prefix[i].nominators);
          assert prefix[i] == records[i];
        } else {
          assert r[k].nominees == IdList(records[n].nominees);
        }
      }
    }
  }

  /** Saving a page whose records all have their rows already changes nothing. */
  lemma {:induction false} SavedAllPresent(m: Nominations, prize: int, year: int, records: seq<Overview.NomRecord>)
    requires forall i :: 0 <= i < |records| ==> records[i].id.Some? && records[i].id.value in m
    ensures SavedAll(m, prize, year, records) == m
  {
    if records != [] {
      var n := |records| - 1;
      assert forall i :: 0 <= i < n ==> records[..n][i] == records[i];
      SavedAllPresent(m, prize, year, records[..n]);
    }
  }

  /** Saving a page twice, when every record of it has an id, leaves the table of the first save. */
  lemma SavedAllTwice(m: Nominations, prize: int, year: int, records: seq<Overview.NomRecord>)
    requires forall i :: 0 <= i < |records| ==> records[i].id.Some?
    ensures SavedAll(SavedAll(m, prize, year, records), prize, year, records) == SavedAll(m, prize, year, records)
  {
    SavedAllCovers(m, prize, year, records);
    SavedAllPresent(SavedAll(m, prize, year, records), prize, year, records);
  }

  /**
   * A record without an id gets a fresh rowid on every save, so saving it
   * twice leaves two rows for it.
   */
  lemma NullIdAddsRow(m: Nominations, prize: int, year: int, rec: Overview.NomRecord)
    requires rec.id.None?
    ensures var once := SavedAll(m, prize, year, [rec]);
      |once| == |m| + 1 && |SavedAll(once, prize, year, [rec])| == |m| + 2
  {
    NullIdSavedOnce(m, prize, year, rec);
    NullIdSavedOnce(SavedAll(m, prize, year, [rec]), prize, year, rec);
  }

  lemma NullIdSavedOnce(m: Nominations, prize: int, year: int, rec: Overview.NomRecord)
    requires rec.id.None?
    ensures |SavedAll(m, prize, year, [rec])| == |m| + 1
  {
    var k := NewRowId(m);
    var once := SavedAll(m, prize, year, [rec]);
    assert [rec][..0] == [] && SavedAll(m, prize, year, []) == m;
    assert once == SaveRecord(m, prize, year, rec);
    assert once == InsertNomination(m, None, prize, year, IdList(rec.nominees), IdList(rec.nominators));
    assert once.Keys == m.Keys + {k};
  }

  /**
   * The rowid a record without an id takes is then taken: a nomination with
   * that id saved later is ignored.
   */
  lemma NullRowIdShadows(m: Nominations, prize: int, year: int, rec: Overview.NomRecord, later: Overview.NomRecord, prize2: int, year2: int)
    requires rec.id.None? && later.id == Some(NewRowId(m))
    ensures var once := SavedAll(m, prize, year, [rec]);
      NewRowId(m) in once && once[NewRowId(m)].nominees == IdList(rec.nominees) &&
      SavedAll(once, prize2, year2, [later]) == once
  {
    assert [rec][..0] == [] && [later][..0] == [];
  }

  // ---------------------------------------------------------------------
  // INSERT OR IGNORE INTO nomination_people
  // ---------------------------------------------------------------------

  /** `[x[1] for x in pairs if x[0] == col]`, first element, or None. */
  function FirstValue(pairs: seq<(string, string)>, col: string): Option<string> {
    if pairs == [] then None
    else if pairs[0].0 == col then Some(pairs[0].1)
    else FirstValue(pairs[1..], col)
  }

  /** A column takes the value of the first pair for it, and is NULL when no pair names it. */
  lemma {:induction false} FirstValueIsFirst(pairs: seq<(string, string)>, col: string)
    ensures FirstValue(pairs, col).None? <==> forall i :: 0 <= i < |pairs| ==> pairs[i].0 != col
    ensures FirstValue(pairs, col).Some? ==>
      exists i :: 0 <= i < |pairs| && pairs[i] == (col, FirstValue(pairs, col).value) &&
        (forall j :: 0 <= j < i ==> pairs[j].0 != col)
  {
    if pairs != [] && pairs[0].0 != col {
      FirstValueIsFirst(pairs[1..], col);
      if FirstValue(pairs, col).Some? {
        var i :| 0 <= i < |pairs| - 1 && pairs[1..][i] == (col, FirstValue(pairs, col).value) &&
          forall j :: 0 <= j < i ==> pairs[1..][j].0 != col;
        assert pairs[i + 1] == pairs[1..][i];
        assert forall j :: 1 <= j < i + 1 ==> pairs[j] == pairs[1..][j - 1];
      } else {
        assert forall i :: 1 <= i < |pairs| ==> pairs[i] == pairs[1..][i - 1];
      }
    }
  }

  /** The row `save_nomination_info` writes for one key of the info dict. */
  function PersonRow(nominationId: int, group: Detail.Group): (p: Person)
    ensures HasColumns(p)
  {
    Person(nominationId, group.subject, map c | c in INFO_COLUMNS :: FirstValue(group.pairs, c))
  }

  /** A value under the birth-year label is written to the `year_birth` column of its role's row. */
  lemma BirthYearColumn(nominationId: int, role: string, year: string)
    ensures var p := PersonRow(nominationId, Detail.Group(role, [(Detail.NormalizeRubric("Year, Birth:"), year)]));
      "year_birth" in p.attrs && p.attrs["year_birth"] == Some(year) && p.role == role
  {
    Detail.BirthYearLabel();
    assert "year_birth" in INFO_COLUMNS;
  }

  /** `INSERT OR IGNORE` of one person row: dropped when its (nomination, role) is taken. */
  function InsertPerson(people: seq<Person>, p: Person): seq<Person> {
    if HasRole(people, p.nominationId, p.role) then people else people + [p]
  }

  /** `nomination_people` after `save_nomination_info(nomination_id, info)`, the keys taken in dict order. */
  function InfoSaved(people: seq<Person>, nominationId: int, info: seq<Detail.Group>): seq<Person> {
    if info == [] then people
    else InsertPerson(InfoSaved(people, nominationId, info[..|info| - 1]), PersonRow(nominationId, info[|info| - 1]))
  }

  /**
   * Saving a nomination's info keeps the table's rows and their order, keeps
   * (nomination, role) unique, and leaves a row for every key of the info;
   * the rows it adds are those of keys whose role was new.
   */
  lemma {:induction false} InfoSavedEffect(people: seq<Person>, nominationId: int, info: seq<Detail.Group>)
    requires UniqueRoles(people)
    ensures var r := InfoSaved(people, nominationId, info);
      UniqueRoles(r) && people <= r &&
      (forall i :: 0 <= i < |info| ==> HasRole(r, nominationId, info[i].subject)) &&
      (forall j :: |people| <= j < |r| ==>
        exists i :: 0 <= i < |info| && r[j] == PersonRow(nominationId, info[i]))
  {
    if info != [] {
      var n := |info| - 1;
      var prefix := info[..n];
      InfoSavedEffect(people, nominationId, prefix);
      var before := InfoSaved(people, nominationId, prefix);
      var p := PersonRow(nominationId, info[n]);
      var r := InfoSaved(people, nominationId, info);
      assert r == InsertPerson(before, p);
      InsertPersonEffect(before, p);
      forall i | 0 <= i < |info|
        ensures HasRole(r, nominationId, info[i].subject)
      {
        if i < n {
          assert prefix[i] == info[i];
          HasRoleKept(before, r, nominationId, info[i].subject);
        }
      }
      forall j | |people| <= j < |r|
        ensures exists i :: 0 <= i < |info| && r[j] == PersonRow(nominationId, info[i])
      {
        if j < |before| {
          var i :| 0 <= i < |prefix| && before[j] == PersonRow(nominationId, prefix[i]);
          assert prefix[i] == info[i] && r[j] == before[j];
        } else {
          assert r[j] == PersonRow(nominationId, info[n]);
        }
      }
    }
  }

  /** One `INSERT OR IGNORE` of a person row. */
  lemma InsertPersonEffect(people: seq<Person>, p: Person)
    requires UniqueRoles(people)
    ensures var r := InsertPerson(people, p);
      UniqueRoles(r) && people <= r && HasRole(r, p.nominationId, p.role) &&
      forall j :: |people| <= j < |r| ==> r[j] == p
  {
    var r := InsertPerson(people, p);
    if !HasRole(people, p.nominationId, p.role) {
      assert r[|people|] == p;
    }
  }

  lemma HasRoleKept(a: seq<Person>, b: seq<Person>, nominationId: int, role: string)
    requires a <= b && HasRole(a, nominationId, role)
    ensures HasRole(b, nominationId, role)
  {
    var j :| 0 <= j < |a| && a[j].nominationId == nominationId && a[j].role == role;
    assert b[j] == a[j];
  }

  /** Every row written has every info column. */
  lemma {:induction false} InfoSavedColumns(people: seq<Person>, nominationId: int, info: seq<Detail.Group>)
    requires AllHaveColumns(people)
    ensures AllHaveColumns(InfoSaved(people, nominationId, info))
  {
    if info != [] {
      InfoSavedColumns(people, nominationId, info[..|info| - 1]);
    }
  }

  /**
   * When the nomination had no people rows yet and the info's keys are
   * distinct (as a dict's are), every key gets exactly the row made from its
   * pairs.
   */
  lemma {:induction false} InfoSavedFresh(people: seq<Person>, nominationId: int, info: seq<Detail.Group>)
    requires forall i :: 0 <= i < |people| ==> people[i].nominationId != nominationId
    requires forall i, j :: 0 <= i < j < |info| ==> info[i].subject != info[j].subject
    ensures InfoSaved(people, nominationId, info) == people + seq(|info|, i requires 0 <= i < |info| => PersonRow(nominationId, info[i]))
  {
    if info != [] {
      var n := |info| - 1;
      var prefix := info[..n];
      InfoSavedFresh(people, nominationId, prefix);
      var before := InfoSaved(people, nominationId, prefix);
      assert before == people + seq(n, i requires 0 <= i < n => PersonRow(nominationId, info[i]));
      assert !HasRole(before, nominationId, info[n].subject) by {
        forall j | 0 <= j < |before| && before[j].nominationId == nominationId
          ensures before[j].role != info[n].subject
        {
          assert before[j] == PersonRow(nominationId, info[j - |people|]);
        }
      }
    }
  }

  // ---------------------------------------------------------------------
  // update nominations set retrieved=1
  // ---------------------------------------------------------------------

  /** `nominations` after `update nominations set retrieved=1 where id = ?`. */
  function Marked(m: Nominations, id: int): Nominations {
    if id in m then m[id := m[id].(retrieved := true)] else m
  }

  /**
   * Marking keeps the table's keys and every other row, and takes exactly the
   * marked row out of the rows still to retrieve.
   */
  lemma MarkedEffect(m: Nominations, id: int)
    requires Keyed(m)
    ensures Keyed(Marked(m, id)) && Marked(m, id).Keys == m.Keys
    ensures forall k :: k in m && k != id ==> Marked(m, id)[k] == m[k]
    ensures id in m ==> Marked(m, id)[id].retrieved
    ensures Pending(Marked(m, id)) == Pending(m) - (if id in m then {m[id]} else {})
  {
    var r := Marked(m, id);
    forall x | x in Pending(r) ensures x in Pending(m) && (id in m ==> x != m[id]) {
      var k :| k in r && !r[k].retrieved && r[k] == x;
    }
    forall x | x in Pending(m) && (id in m ==> x != m[id]) ensures x in Pending(r) {
      var k :| k in m && !m[k].retrieved && m[k] == x;
      assert r[k] == x;
    }
  }

  // ---------------------------------------------------------------------
  // The two ORDER BY queries
  // ---------------------------------------------------------------------

  /** `ORDER BY prize_id, year, id`, strictly. */
  predicate Before(a: Nomination, b: Nomination) {
    a.prizeId < b.prizeId ||
    (a.prizeId == b.prizeId && (a.year < b.year || (a.year == b.year && a.id < b.id)))
  }

  predicate StrictlySorted(s: seq<Nomination>) {
    forall i, j :: 0 <= i < j < |s| ==> Before(s[i], s[j])
  }

  /** `ORDER BY prize_id, year`: what `get_new_nominations` asks for. */
  predicate SortedByPrizeAndYear(s: seq<Nomination>) {
    forall i, j :: 0 <= i < j < |s| ==>
      s[i].prizeId < s[j].prizeId || (s[i].prizeId == s[j].prizeId && s[i].year <= s[j].year)
  }

  /** Rows of one table: no two share a primary key. */
  predicate DistinctIds(rows: set<Nomination>) {
    forall a, b :: a in rows && b in rows && a.id == b.id ==> a == b
  }

  function Rows(m: Nominations): set<Nomination> {
    set k | k in m :: m[k]
  }

  /** `where retrieved=0`. */
  function Pending(m: Nominations): set<Nomination> {
    set k | k in m && !m[k].retrieved :: m[k]
  }

  lemma KeyedDistinct(m: Nominations)
    requires Keyed(m)
    ensures DistinctIds(Rows(m)) && DistinctIds(Pending(m))
  {
    forall a, b | a in Rows(m) && b in Rows(m) && a.id == b.id
      ensures a == b
    {
      var ka :| ka in m && m[ka] == a;
      var kb :| kb in m && m[kb] == b;
    }
  }

  /** Two rows with different ids are ordered one way or the other. */
  lemma BeforeTotal(a: Nomination, b: Nomination)
    requires a.id != b.id
    ensures Before(a, b) || Before(b, a)
  {
  }

  lemma BeforeTransitive(a: Nomination, b: Nomination, c: Nomination)
    requires Before(a, b) && Before(b, c)
    ensures Before(a, c)
  {
  }

  /** `x` comes before every other row of `rows`. */
  predicate IsMinimum(x: Nomination, rows: set<Nomination>) {
    x in rows && forall y :: y in rows && y != x ==> Before(x, y)
  }

  lemma {:induction false} MinimumExists(rows: set<Nomination>)
    requires rows != {} && DistinctIds(rows)
    ensures exists x :: IsMinimum(x, rows)
    decreases |rows|
  {
    assert (forall y :: y !in rows) ==> rows == {};
    var z :| z in rows;
    var rest := rows - {z};
    if rest == {} {
      assert rows == {z};
      assert IsMinimum(z, rows);
    } else {
      assert DistinctIds(rest);
      MinimumExists(rest);
      var x :| IsMinimum(x, rest);
      assert rows == rest + {z};
      MinimumAdd(x, z, rest);
    }
  }

  /** Adding a row to a set keeps its minimum or makes the new row the minimum. */
  lemma MinimumAdd(x: Nomination, z: Nomination, rest: set<Nomination>)
    requires IsMinimum(x, rest) && z !in rest && x.id != z.id
    ensures IsMinimum(x, rest + {z}) || IsMinimum(z, rest + {z})
  {
    BeforeTotal(x, z);
    if Before(z, x) {
      forall y | y in rest + {z} && y != z ensures Before(z, y) {
        if y != x {
          BeforeTransitive(z, x, y);
        }
      }
    }
  }

  /** The rows listed in the order the query returns them. */
  ghost function Listing(rows: set<Nomination>): (r: seq<Nomination>)
    requires DistinctIds(rows)
    ensures StrictlySorted(r)
    ensures forall x :: x in r <==> x in rows
    decreases |rows|
  {
    if rows == {} then []
    else
      MinimumExists(rows);
      var x :| IsMinimum(x, rows);
      var rest := rows - {x};
      assert DistinctIds(rest);
      var tail := Listing(rest);
      SortedCons(x, tail);
      [x] + tail
  }

  lemma SortedCons(x: Nomination, tail: seq<Nomination>)
    requires StrictlySorted(tail)
    requires forall i :: 0 <= i < |tail| ==> Before(x, tail[i])
    ensures StrictlySorted([x] + tail)
  {
    var s := [x] + tail;
    forall i, j | 0 <= i < j < |s|
      ensures Before(s[i], s[j])
    {
      assert s[j] == tail[j - 1];
      if i > 0 {
        assert s[i] == tail[i - 1];
      }
    }
  }

  /** A strictly sorted listing of a set of rows is the only one. */
  lemma {:induction false} SortedUnique(a: seq<Nomination>, b: seq<Nomination>)
    requires StrictlySorted(a) && StrictlySorted(b)
    requires forall x :: x in a <==> x in b
    ensures a == b
  {
    var rows := set x | x in a;
    DistinctCount(a, rows);
    DistinctCount(b, rows);
    if a != [] {
      assert b[0] in a && a[0] in b;
      var i :| 0 <= i < |a| && a[i] == b[0];
      var j :| 0 <= j < |b| && b[j] == a[0];
      assert !Before(a[0], b[0]) || !Before(b[0], a[0]);
      assert a[0] == b[0];
      forall x
        ensures x in a[1..] <==> x in b[1..]
      {
        if x in a[1..] {
          var k :| 1 <= k < |a| && a[k] == x;
          assert Before(a[0], a[k]) && x in b;
          var l :| 0 <= l < |b| && b[l] == x;
          assert b[1..][l - 1] == x;
        }
        if x in b[1..] {
          var l :| 1 <= l < |b| && b[l] == x;
          assert Before(b[0], b[l]) && x in a;
          var k :| 0 <= k < |a| && a[k] == x;
          assert a[1..][k - 1] == x;
        }
      }
      SortedUnique(a[1..], b[1..]);
    }
  }

  /** The listing the scraper walks: ordered by prize then year, as its query asks. */
  lemma ListingByPrizeAndYear(rows: set<Nomination>)
    requires DistinctIds(rows)
    ensures SortedByPrizeAndYear(Listing(rows))
    ensures |Listing(rows)| == |rows|
  {
    var r := Listing(rows);
    assert forall i, j :: 0 <= i < j < |r| ==> Before(r[i], r[j]);
    DistinctCount(r, rows);
  }

  lemma {:induction false} DistinctCount(r: seq<Nomination>, rows: set<Nomination>)
    requires StrictlySorted(r)
    requires forall x :: x in r <==> x in rows
    ensures |r| == |rows|
  {
    if r != [] {
      assert forall x :: x in r[1..] <==> x in rows - {r[0]} by {
        forall x | x in r[1..] ensures x != r[0] {
          var i :| 1 <= i < |r| && r[i] == x;
          assert Before(r[0], r[i]);
        }
      }
      DistinctCount(r[1..], rows - {r[0]});
    }
  }

  /** Insertion into a strictly sorted listing (the query's sort, one row at a time). */
  function InsertSorted(s: seq<Nomination>, x: Nomination): (r: seq<Nomination>)
    ensures forall y :: y in r <==> y == x || y in s
  {
    if s == [] then [x]
    else if Before(x, s[0]) then [x] + s
    else [s[0]] + InsertSorted(s[1..], x)
  }

  lemma {:induction false} InsertSortedSorted(s: seq<Nomination>, x: Nomination)
    requires StrictlySorted(s)
    requires forall y :: y in s ==> y.id != x.id
    ensures StrictlySorted(InsertSorted(s, x))
  {
    if s != [] && !Before(x, s[0]) {
      assert s[0].id != x.id;
      InsertSortedSorted(s[1..], x);
      var r := InsertSorted(s, x);
      forall j | 1 <= j < |r| ensures Before(s[0], r[j]) {
        assert r[j] in InsertSorted(s[1..], x);
        if r[j] != x {
          var k :| 0 <= k < |s| - 1 && s[1..][k] == r[j];
          assert s[k + 1] == r[j];
        }
      }
    }
  }

  // ---------------------------------------------------------------------
  // get_records
  // ---------------------------------------------------------------------

  /** `role.find('Nominator') != -1`. */
  predicate IsNominatorRole(role: string) {
    Contains(role, "Nominator")
  }

  /** The `elif`: a role naming a nominee that is not a nominator's. */
  predicate IsNomineeRole(role: string) {
    !Contains(role, "Nominator") && Contains(role, "Nominee")
  }

  /** The nominators of a nomination, in table order. */
  function Nominators(people: seq<Person>, nominationId: int): (r: seq<Person>)
    ensures forall p :: p in r ==> p in people && p.nominationId == nominationId && IsNominatorRole(p.role)
  {
    if people == [] then []
    else
      var p := people[|people| - 1];
      Nominators(people[..|people| - 1], nominationId) +
        if p.nominationId == nominationId && IsNominatorRole(p.role) then [p] else []
  }

  /** The nominees of a nomination, in table order. */
  function Nominees(people: seq<Person>, nominationId: int): (r: seq<Person>)
    ensures forall p :: p in r ==> p in people && p.nominationId == nominationId && IsNomineeRole(p.role)
  {
    if people == [] then []
    else
      var p := people[|people| - 1];
      Nominees(people[..|people| - 1], nominationId) +
        if p.nominationId == nominationId && IsNomineeRole(p.role) then [p] else []
  }

  /**
   * Every row of the nomination whose role names a nominator is among its
   * nominators, every other one naming a nominee among its nominees; rows
   * naming neither are in neither list, and no row is in both.
   */
  lemma {:induction false} ClassifiedPeople(people: seq<Person>, nominationId: int)
    ensures forall p :: p in people && p.nominationId == nominationId ==>
      (p in Nominators(people, nominationId) <==> IsNominatorRole(p.role)) &&
      (p in Nominees(people, nominationId) <==> IsNomineeRole(p.role))
  {
    if people != [] {
      var prefix := people[..|people| - 1];
      ClassifiedPeople(prefix, nominationId);
      assert forall p :: p in people ==> p in prefix || p == people[|people| - 1];
    }
  }

  /** A nomination as `get_records` returns it. */
  datatype Record = Record(year: int, prize: string, id: int, nominees: seq<Person>, nominators: seq<Person>)

  /** `self.prizes[row['prize_id']]` raising KeyError. */
  datatype StoreError = UnknownPrize(prizeId: int)

  function RecordOf(n: Nomination, people: seq<Person>): Result<Record, StoreError> {
    if n.prizeId !in PRIZES then Err(UnknownPrize(n.prizeId))
    else Ok(Record(n.year, PRIZES[n.prizeId], n.id, Nominees(people, n.id), Nominators(people, n.id)))
  }

  /** `get_records` over the rows in query order: the first unknown prize aborts the whole call. */
  function RecordsOf(rows: seq<Nomination>, people: seq<Person>): Result<seq<Record>, StoreError> {
    if rows == [] then Ok([])
    else
      var rec :- RecordOf(rows[0], people);
      Then(Ok([rec]), RecordsOf(rows[1..], people))
  }

  /**
   * The records follow the rows one for one, each carrying its row's id and
   * year, its prize's name and its people; they fail exactly when some row's
   * prize is unknown.
   */
  lemma {:induction false} RecordsOfRows(rows: seq<Nomination>, people: seq<Person>)
    ensures RecordsOf(rows, people).Ok? <==> forall i :: 0 <= i < |rows| ==> rows[i].prizeId in PRIZES
    ensures RecordsOf(rows, people).Ok? ==>
      |RecordsOf(rows, people).value| == |rows| &&
      forall i :: 0 <= i < |rows| ==>
        RecordsOf(rows, people).value[i] ==
          Record(rows[i].year, PRIZES[rows[i].prizeId], rows[i].id, Nominees(people, rows[i].id), Nominators(people, rows[i].id))
  {
    if rows != [] {
      RecordsOfRows(rows[1..], people);
      assert forall i :: 1 <= i < |rows| ==> rows[i] == rows[1..][i - 1];
    }
  }
}
