/**
 * The test_cases side of `Database` (src/database.py): bulk import with
 * upsert and collection-name inference, the normalising reads, the
 * by-collection query and the collection-name listing.
 */
module Cases {
  import opened Wrappers
  import opened Text
  import opened Seqs
  import opened Store

  /** One imported case: column header to cell text, as the spreadsheet parser yields it. */
  type Row = map<string, string>

  const ID_KEY := "用例ID"
  const SCENARIO_KEY := "测试场景"
  const STEPS_KEY := "测试步骤"
  const PRECONDITION_KEY := "前置条件"
  const EXPECTED_KEY := "预期结果"
  const PRIORITY_KEY := "优先级"
  const COLLECTION_KEY := "案例集名称"

  /** `row.get(key)`. */
  function Get(row: Row, key: string): Option<string> {
    if key in row then Some(row[key]) else None
  }

  /** `row.get(key, default)`. */
  function GetOr(row: Row, key: string, default: string): string {
    if key in row then row[key] else default
  }

  function RowId(row: Row): string {
    GetOr(row, ID_KEY, "")
  }

  // ---------------------------------------------------------------- reads

  /** A case as every read returns it: test_steps normalised against precondition. */
  function ReadCase(c: TestCase): (r: TestCase)
    ensures r.testSteps.None? || Truthy(r.testSteps)
    ensures Truthy(c.testSteps) ==> r.testSteps == c.testSteps
    ensures !Truthy(c.testSteps) && Truthy(c.precondition) ==> r.testSteps == c.precondition
    ensures !Truthy(c.testSteps) && !Truthy(c.precondition) ==> r.testSteps.None?
    ensures r.(testSteps := c.testSteps) == c
  {
    c.(testSteps := NormalizedSteps(c))
  }

  /** Normalising is idempotent: a normalised row needs no fallback. */
  lemma ReadCaseIdempotent(c: TestCase)
    ensures ReadCase(ReadCase(c)) == ReadCase(c)
  {
  }

  /** Every row of a result set, normalised, in the order the rows were read. */
  function ReadAll(cases: seq<TestCase>): (r: seq<TestCase>)
    ensures |r| == |cases|
    ensures forall i :: 0 <= i < |r| ==> r[i] == ReadCase(cases[i])
  {
    seq(|cases|, i requires 0 <= i < |cases| => ReadCase(cases[i]))
  }

  /** `get_all_test_cases`. */
  function GetAllTestCases(s: Store): (r: seq<TestCase>)
    ensures |r| == |s.cases|
    ensures forall i :: 0 <= i < |r| ==> r[i] == ReadCase(s.cases[i])
  {
    ReadAll(s.cases)
  }

  /** `get_test_case`. */
  function GetTestCase(s: Store, id: string): (r: Option<TestCase>)
    ensures r.None? <==> forall c :: c in s.cases ==> c.caseId != id
    ensures r.Some? ==> r.value.caseId == id && exists c :: c in s.cases && r.value == ReadCase(c)
  {
    match FindCase(s.cases, id)
    case Some(c) => Some(ReadCase(c))
    case None => None
  }

  function InCollection(name: string): TestCase -> bool {
    (c: TestCase) => c.collection == Some(name)
  }

  /**
   * `get_cases_by_collection`: `WHERE case_collection_name = ?`. A `None`
   * argument compares with NULL, which matches no row.
   */
  function GetCasesByCollection(s: Store, name: Option<string>): (r: seq<TestCase>)
    ensures name.None? ==> r == []
    ensures forall c :: c in r ==> c.collection == name
    ensures forall i :: 0 <= i < |r| ==> ReadOfMember(s, name, r[i])
    ensures name.Some? ==> forall c :: c in s.cases && c.collection == name ==> ReadCase(c) in r
    ensures name.Some? ==> |r| == Count(s.cases, InCollection(name.value))
  {
    if name.None? then []
    else
      var members := Filter(s.cases, InCollection(name.value));
      var r := ReadAll(members);
      MembersRead(s, name.value, members, r);
      r
  }

  /** `c` is what a read returns for some stored row of collection `name`. */
  ghost predicate ReadOfMember(s: Store, name: Option<string>, c: TestCase) {
    exists d :: d in s.cases && d.collection == name && c == ReadCase(d)
  }

  lemma MembersRead(s: Store, name: string, members: seq<TestCase>, r: seq<TestCase>)
    requires members == Filter(s.cases, InCollection(name)) && r == ReadAll(members)
    ensures forall c :: c in r ==> c.collection == Some(name)
    ensures forall i :: 0 <= i < |r| ==> ReadOfMember(s, Some(name), r[i])
    ensures forall c :: c in s.cases && c.collection == Some(name) ==> ReadCase(c) in r
  {
    forall i | 0 <= i < |r|
      ensures ReadOfMember(s, Some(name), r[i]) && r[i].collection == Some(name)
    {
      assert members[i] in s.cases && InCollection(name)(members[i]);
    }
    forall c | c in s.cases && c.collection == Some(name)
      ensures ReadCase(c) in r
    {
      assert InCollection(name)(c);
      FilterMembers(s.cases, InCollection(name));
      var k :| 0 <= k < |members| && members[k] == c;
      assert r[k] == ReadCase(c);
    }
  }

  /**
   * Selecting by collection and then reading is the same as reading every
   * case and keeping the collection's: normalising never touches the
   * collection name.
   */
  lemma {:induction false} ReadAllFilterCommute(cases: seq<TestCase>, name: string)
    ensures ReadAll(Filter(cases, InCollection(name))) == Filter(ReadAll(cases), InCollection(name))
  {
    if |cases| > 0 {
      var keep := InCollection(name);
      var all := ReadAll(cases);
      ReadAllFilterCommute(cases[1..], name);
      assert all[1..] == ReadAll(cases[1..]);
      assert keep(all[0]) == keep(cases[0]);
      var head := if keep(cases[0]) then [cases[0]] else [];
      var tail := Filter(cases[1..], keep);
      assert Filter(all, keep) == (if keep(all[0]) then [all[0]] else []) + Filter(all[1..], keep);
      assert Filter(cases, keep) == head + tail;
      ReadAllConcat(head, tail);
    }
  }

  lemma ReadAllConcat(a: seq<TestCase>, b: seq<TestCase>)
    ensures ReadAll(a + b) == ReadAll(a) + ReadAll(b)
  {
  }

  /** `get_cases_by_collection(n)` lists exactly the rows of `get_all_test_cases` whose collection is `n`, in the same order. */
  lemma ByCollectionIsFilteredAll(s: Store, name: string)
    ensures GetCasesByCollection(s, Some(name)) == Filter(GetAllTestCases(s), InCollection(name))
  {
    ReadAllFilterCommute(s.cases, name);
  }

  // ---------------------------------------------------- collection names

  ghost predicate StrictlySorted(names: seq<string>) {
    forall i, j :: 0 <= i < j < |names| ==> LexLess(names[i], names[j])
  }

  function InsertName(names: seq<string>, x: string): (r: seq<string>)
    requires StrictlySorted(names)
    ensures StrictlySorted(r)
    ensures forall y :: y in r <==> y in names || y == x
  {
    if |names| == 0 then [x]
    else if x == names[0] then names
    else if LexLess(x, names[0]) then
      assert forall k :: 0 <= k < |names| ==> LexLess(x, names[k]) by {
        forall k | 0 <= k < |names|
          ensures LexLess(x, names[k])
        {
          if k > 0 { LexLessTransitive(x, names[0], names[k]); }
        }
      }
      [x] + names
    else
      LexLessTotal(x, names[0]);
      assert StrictlySorted(names[1..]);
      var rest := InsertName(names[1..], x);
      assert forall k :: 0 <= k < |rest| ==> LexLess(names[0], rest[k]) by {
        forall k | 0 <= k < |rest|
          ensures LexLess(names[0], rest[k])
        {
          assert rest[k] in rest;
          if rest[k] != x {
            var j :| 0 <= j < |names[1..]| && names[1..][j] == rest[k];
            assert names[j + 1] == rest[k];
          }
        }
      }
      assert names == [names[0]] + names[1..];
      [names[0]] + rest
  }

  predicate NamedCollection(c: TestCase, name: string) {
    Truthy(c.collection) && c.collection.value == name
  }

  function CollectionNamesOf(cases: seq<TestCase>): (r: seq<string>)
    ensures StrictlySorted(r)
    ensures forall y :: y in r <==> exists c :: c in cases && NamedCollection(c, y)
  {
    if |cases| == 0 then []
    else
      var rest := CollectionNamesOf(cases[1..]);
      var r := if Truthy(cases[0].collection) then InsertName(rest, cases[0].collection.value) else rest;
      assert forall y :: y in r <==> exists c :: c in cases && NamedCollection(c, y) by {
        forall y
          ensures y in r <==> exists c :: c in cases && NamedCollection(c, y)
        {
          if y in r {
            if y in rest {
              var c :| c in cases[1..] && NamedCollection(c, y);
              assert c in cases;
            } else {
              assert NamedCollection(cases[0], y);
            }
          }
          if exists c :: c in cases && NamedCollection(c, y) {
            var c :| c in cases && NamedCollection(c, y);
            if c != cases[0] {
              var k :| 0 <= k < |cases| && cases[k] == c;
              assert cases[1..][k - 1] == c;
            }
          }
        }
      }
      r
  }

  /**
   * `get_all_collection_names`: `SELECT DISTINCT ... WHERE name IS NOT NULL
   * AND name != '' ORDER BY name`.
   */
  function GetAllCollectionNames(s: Store): (r: seq<string>)
    ensures StrictlySorted(r)
    ensures forall y :: y in r <==> exists c :: c in s.cases && NamedCollection(c, y)
    ensures forall i :: 0 <= i < |r| ==> |r[i]| > 0
  {
    var r := CollectionNamesOf(s.cases);
    assert forall i :: 0 <= i < |r| ==> |r[i]| > 0 by {
      forall i | 0 <= i < |r|
        ensures |r[i]| > 0
      {
        assert r[i] in r;
      }
    }
    r
  }

  /** Every listed collection name selects at least one case. */
  lemma {:induction false} ListedCollectionsAreNonEmpty(s: Store, name: string)
    requires name in GetAllCollectionNames(s)
    ensures |GetCasesByCollection(s, Some(name))| > 0
  {
    var c :| c in s.cases && NamedCollection(c, name);
    assert ReadCase(c) in GetCasesByCollection(s, Some(name));
  }

  // --------------------------------------------------------------- import

  /** The stored collection name of a case id; NULL when no such case exists. */
  function StoredCollection(cases: seq<TestCase>, id: string): Option<string> {
    match FindCase(cases, id)
    case Some(c) => c.collection
    case None => None
  }

  /** Row i is the first, in input order, whose case has a stored non-empty collection name. */
  ghost predicate FirstStoredAt(cases: seq<TestCase>, rows: seq<Row>, i: int) {
    && 0 <= i < |rows|
    && Truthy(StoredCollection(cases, RowId(rows[i])))
    && forall j :: 0 <= j < i ==> !Truthy(StoredCollection(cases, RowId(rows[j])))
  }

  /**
   * The first scan of `import_test_cases`: the collection name stored for the
   * first row, in input order, whose case already exists with a non-empty
   * collection name.
   */
  function FirstStoredCollection(cases: seq<TestCase>, rows: seq<Row>): (r: Option<string>)
    ensures r.None? <==> forall i :: 0 <= i < |rows| ==> !Truthy(StoredCollection(cases, RowId(rows[i])))
    ensures r.Some? ==> Truthy(r) && exists i :: FirstStoredAt(cases, rows, i) && StoredCollection(cases, RowId(rows[i])) == r
  {
    if |rows| == 0 then None
    else
      var here := StoredCollection(cases, RowId(rows[0]));
      if Truthy(here) then here
      else
        var r := FirstStoredCollection(cases, rows[1..]);
        assert forall i :: 1 <= i < |rows| ==> rows[1..][i - 1] == rows[i];
        if r.Some? then
          assert exists i :: FirstStoredAt(cases, rows, i) && StoredCollection(cases, RowId(rows[i])) == r by {
            var i :| FirstStoredAt(cases, rows[1..], i) && StoredCollection(cases, RowId(rows[1..][i])) == r;
            assert FirstStoredAt(cases, rows, i + 1);
          }
          r
        else r
  }

  /**
   * The fallback collection of a batch. Without the collection column the
   * lookup raises, and the source skips the row, so nothing is found.
   */
  function ExistingCollection(s: Store, rows: seq<Row>): (r: Option<string>)
    ensures COLLECTION_COLUMN !in s.caseColumns ==> r.None?
    ensures COLLECTION_COLUMN in s.caseColumns ==>
      (r.None? <==> forall i :: 0 <= i < |rows| ==> !Truthy(StoredCollection(s.cases, RowId(rows[i]))))
    ensures r.Some? ==> Truthy(r) && exists i :: FirstStoredAt(s.cases, rows, i) && StoredCollection(s.cases, RowId(rows[i])) == r
  {
    if COLLECTION_COLUMN in s.caseColumns then FirstStoredCollection(s.cases, rows) else None
  }

  /** The INSERT OR REPLACE tuple of one row, given the batch's fallback collection. */
  function BuildCase(row: Row, fallback: Option<string>): (c: TestCase)
    ensures c.caseId == RowId(row) && c.precondition.None?
    ensures Truthy(Get(row, STEPS_KEY)) ==> c.testSteps == Get(row, STEPS_KEY)
    ensures !Truthy(Get(row, STEPS_KEY)) && Truthy(Get(row, PRECONDITION_KEY)) ==> c.testSteps == Get(row, PRECONDITION_KEY)
    ensures !Truthy(Get(row, STEPS_KEY)) && !Truthy(Get(row, PRECONDITION_KEY)) ==> c.testSteps == Some("")
    ensures c.collection == (if Truthy(Get(row, COLLECTION_KEY)) then Get(row, COLLECTION_KEY) else fallback)
    ensures ReadCase(c) == c <==> Truthy(c.testSteps)
  {
    TestCase(
      caseId := RowId(row),
      scenario := GetOr(row, SCENARIO_KEY, ""),
      testSteps := Some(OrEmpty(Or(Get(row, STEPS_KEY), Get(row, PRECONDITION_KEY)))),
      expectedResult := GetOr(row, EXPECTED_KEY, ""),
      priority := Some(GetOr(row, PRIORITY_KEY, "")),
      collection := Or(Get(row, COLLECTION_KEY), fallback),
      precondition := None)
  }

  function CaseKey(): TestCase -> string {
    (c: TestCase) => c.caseId
  }

  /**
   * INSERT OR REPLACE: the conflicting row is deleted, the new one appended;
   * every other row keeps its place.
   */
  function Upsert(cases: seq<TestCase>, c: TestCase): (r: seq<TestCase>)
    ensures FindCase(r, c.caseId) == Some(c)
    ensures forall id :: id != c.caseId ==> FindCase(r, id) == FindCase(cases, id)
  {
    if |cases| == 0 then [c]
    else if cases[0].caseId == c.caseId then Upsert(cases[1..], c)
    else [cases[0]] + Upsert(cases[1..], c)
  }

  /** After an upsert each row is the new case or a row that was stored before. */
  lemma {:induction false} UpsertRows(cases: seq<TestCase>, c: TestCase)
    ensures forall k :: 0 <= k < |Upsert(cases, c)| ==> Upsert(cases, c)[k] == c || Upsert(cases, c)[k] in cases
  {
    if |cases| > 0 {
      UpsertRows(cases[1..], c);
      var rest := Upsert(cases[1..], c);
      forall k | 0 <= k < |rest| && rest[k] != c
        ensures rest[k] in cases
      {
        var i :| 0 <= i < |cases[1..]| && cases[1..][i] == rest[k];
        assert cases[i + 1] == rest[k];
      }
    }
  }

  /** INSERT OR REPLACE keeps the primary key: case ids stay unique. */
  lemma {:induction false} UpsertKeepsUnique(cases: seq<TestCase>, c: TestCase)
    requires CaseIdsUnique(cases)
    ensures CaseIdsUnique(Upsert(cases, c))
  {
    if |cases| > 0 {
      var tail := cases[1..];
      assert CaseIdsUnique(tail);
      UpsertKeepsUnique(tail, c);
      if cases[0].caseId != c.caseId {
        var rest := Upsert(tail, c);
        UpsertRows(tail, c);
        forall k | 0 <= k < |rest|
          ensures rest[k].caseId != cases[0].caseId
        {
          if rest[k] != c {
            var i :| 0 <= i < |tail| && tail[i] == rest[k];
            assert cases[i + 1] == rest[k];
          }
        }
        PrependUnique(cases[0], rest);
      }
    }
  }

  /** A row whose id no other row carries can go in front without breaking the key. */
  lemma PrependUnique(c: TestCase, rest: seq<TestCase>)
    requires CaseIdsUnique(rest)
    requires forall k :: 0 <= k < |rest| ==> rest[k].caseId != c.caseId
    ensures CaseIdsUnique([c] + rest)
  {
    var r := [c] + rest;
    forall i, j | 0 <= i < j < |r|
      ensures r[i].caseId != r[j].caseId
    {
      assert r[j] == rest[j - 1];
      if i > 0 {
        assert r[i] == rest[i - 1];
      }
    }
  }


  /** The INSERT OR REPLACE tuples of a whole batch, in row order. */
  function BuildAll(rows: seq<Row>, fallback: Option<string>): (built: seq<TestCase>)
    ensures |built| == |rows|
    ensures forall k :: 0 <= k < |rows| ==> built[k] == BuildCase(rows[k], fallback)
  {
    seq(|rows|, k requires 0 <= k < |rows| => BuildCase(rows[k], fallback))
  }

  /** The second loop of `import_test_cases`: the first m tuples written in order. */
  function WriteRows(cases: seq<TestCase>, built: seq<TestCase>, m: nat, rejected: set<int>): seq<TestCase>
    requires m <= |built|
  {
    if m == 0 then cases
    else
      var before := WriteRows(cases, built, m - 1, rejected);
      if m - 1 in rejected then before else Upsert(before, built[m - 1])
  }

  /** The import loop keeps the primary key: case ids stay unique. */
  lemma {:induction false} WriteRowsUnique(cases: seq<TestCase>, built: seq<TestCase>, m: nat, rejected: set<int>)
    requires CaseIdsUnique(cases) && m <= |built|
    ensures CaseIdsUnique(WriteRows(cases, built, m, rejected))
  {
    if m > 0 {
      WriteRowsUnique(cases, built, m - 1, rejected);
      if m - 1 !in rejected {
        UpsertKeepsUnique(WriteRows(cases, built, m - 1, rejected), built[m - 1]);
      }
    }
  }

  /** Every row after the import loop was stored before or built from the batch. */
  lemma {:induction false} WriteRowsFrom(cases: seq<TestCase>, built: seq<TestCase>, m: nat, rejected: set<int>)
    requires m <= |built|
    ensures forall c :: c in WriteRows(cases, built, m, rejected) ==> c in cases || c in built
  {
    if m > 0 {
      WriteRowsFrom(cases, built, m - 1, rejected);
      if m - 1 !in rejected {
        UpsertRows(WriteRows(cases, built, m - 1, rejected), built[m - 1]);
      }
    }
  }

  /** The positions among the first n rows whose INSERT the engine accepts. */
  function AcceptedPositions(n: nat, rejected: set<int>): set<int> {
    set i | 0 <= i < n && i !in rejected
  }

  /** One more row adds its own position unless it is rejected. */
  lemma AcceptedPositionsStep(n: nat, rejected: set<int>)
    requires n > 0
    ensures n - 1 !in AcceptedPositions(n - 1, rejected)
    ensures AcceptedPositions(n, rejected)
         == AcceptedPositions(n - 1, rejected) + (if n - 1 in rejected then {} else {n - 1})
  {
  }

  /** How many of the first n rows the engine accepts: the number of positions not rejected. */
  function Accepted(n: nat, rejected: set<int>): (k: nat)
    ensures k <= n
    ensures k == |AcceptedPositions(n, rejected)|
  {
    if n == 0 then
      assert AcceptedPositions(0, rejected) == {};
      0
    else
      AcceptedPositionsStep(n, rejected);
      Accepted(n - 1, rejected) + (if n - 1 in rejected then 0 else 1)
  }

  /** Whether INSERT into test_cases can succeed: both newer columns exist. */
  predicate CanInsertCases(s: Store) {
    STEPS_COLUMN in s.caseColumns && COLLECTION_COLUMN in s.caseColumns
  }

  datatype ImportResult = ImportResult(store: Store, successCount: nat, totalCount: nat)

  /**
   * `import_test_cases(cases_data, case_collection_name)`. `rejected` holds the
   * positions of rows whose INSERT the engine refuses; such a failure is
   * logged and the batch goes on.
   */
  function ImportCases(s: Store, rows: seq<Row>, explicit: Option<string>, rejected: set<int>)
    : (r: ImportResult)
    ensures r.totalCount == |rows|
    ensures r.successCount <= r.totalCount
    ensures rejected == {} && CanInsertCases(s) ==> r.successCount == r.totalCount
    ensures CanInsertCases(s) ==> r.successCount == |AcceptedPositions(|rows|, rejected)|
    ensures !CanInsertCases(s) ==> r.successCount == 0 && r.store == s
    ensures CaseIdsUnique(s.cases) ==> CaseIdsUnique(r.store.cases)
    ensures Valid(s) ==> Valid(r.store)
    ensures r.store == s.(cases := r.store.cases)
  {
    if !CanInsertCases(s) then ImportResult(s, 0, |rows|)
    else
      var fallback := Or(explicit, ExistingCollection(s, rows));
      AcceptedAll(|rows|, rejected);
      var built := BuildAll(rows, fallback);
      assert CaseIdsUnique(s.cases) ==> CaseIdsUnique(WriteRows(s.cases, built, |rows|, rejected)) by {
        if CaseIdsUnique(s.cases) {
          WriteRowsUnique(s.cases, built, |rows|, rejected);
        }
      }
      WriteRowsFrom(s.cases, built, |rows|, rejected);
      ImportResult(s.(cases := WriteRows(s.cases, built, |rows|, rejected)),
                   Accepted(|rows|, rejected), |rows|)
  }

  lemma {:induction false} AcceptedAll(n: nat, rejected: set<int>)
    ensures rejected == {} ==> Accepted(n, rejected) == n
  {
    if n > 0 { AcceptedAll(n - 1, rejected); }
  }

  /** The case stored under `id` once the first m tuples are written. */
  ghost function ReadAfter(cases: seq<TestCase>, built: seq<TestCase>, m: nat, rejected: set<int>, id: string)
    : Option<TestCase>
    requires m <= |built|
  {
    FindCase(WriteRows(cases, built, m, rejected), id)
  }

  /** A case id that none of the first m accepted tuples carries keeps its stored row. */
  lemma {:induction false} WriteRowsUntouched(cases: seq<TestCase>, built: seq<TestCase>, m: nat,
                                              rejected: set<int>, id: string, read: Option<TestCase>)
    requires m <= |built|
    requires forall k :: 0 <= k < m && k !in rejected ==> built[k].caseId != id
    requires FindCase(cases, id) == read
    ensures ReadAfter(cases, built, m, rejected, id) == read
  {
    if m > 0 {
      WriteRowsUntouched(cases, built, m - 1, rejected, id, read);
      WriteStepElsewhere(cases, built, m, rejected, id, read);
    }
  }

  /** Last write wins: the stored row is the last accepted tuple with that id. */
  lemma {:induction false} WriteRowsLastWins(cases: seq<TestCase>, built: seq<TestCase>, m: nat,
                                             rejected: set<int>, j: int)
    requires m <= |built|
    requires 0 <= j < m && j !in rejected
    requires forall k :: j < k < m && k !in rejected ==> built[k].caseId != built[j].caseId
    ensures ReadAfter(cases, built, m, rejected, built[j].caseId) == Some(built[j])
  {
    if j < m - 1 {
      WriteRowsLastWins(cases, built, m - 1, rejected, j);
      WriteStepElsewhere(cases, built, m, rejected, built[j].caseId, Some(built[j]));
    }
  }

  /** Tuple m-1, when rejected or carrying another id, leaves the case read for `id` alone. */
  lemma WriteStepElsewhere(cases: seq<TestCase>, built: seq<TestCase>, m: nat, rejected: set<int>, id: string,
                           read: Option<TestCase>)
    requires 0 < m <= |built|
    requires m - 1 !in rejected ==> built[m - 1].caseId != id
    requires ReadAfter(cases, built, m - 1, rejected, id) == read
    ensures ReadAfter(cases, built, m, rejected, id) == read
  {
    var before := WriteRows(cases, built, m - 1, rejected);
    if m - 1 in rejected {
      assert WriteRows(cases, built, m, rejected) == before;
    } else {
      assert WriteRows(cases, built, m, rejected) == Upsert(before, built[m - 1]);
    }
  }

  /**
   * After an import, the case of the last accepted row with a given id reads
   * back with that row's fields, `test_steps` falling back to the legacy
   * precondition key and then to NULL, and the collection name taken from the
   * row, else the explicit argument, else the first stored name found scanning
   * the batch in order, else NULL.
   */
  lemma ImportStoresLastRow(s: Store, rows: seq<Row>, explicit: Option<string>, rejected: set<int>, j: int)
    requires CaseIdsUnique(s.cases) && CanInsertCases(s)
    requires 0 <= j < |rows| && j !in rejected
    requires forall k :: j < k < |rows| && k !in rejected ==> RowId(rows[k]) != RowId(rows[j])
    ensures var got := GetTestCase(ImportCases(s, rows, explicit, rejected).store, RowId(rows[j]));
      && got.Some?
      && got.value.scenario == GetOr(rows[j], SCENARIO_KEY, "")
      && got.value.expectedResult == GetOr(rows[j], EXPECTED_KEY, "")
      && got.value.priority == Some(GetOr(rows[j], PRIORITY_KEY, ""))
      && got.value.testSteps == Or(Get(rows[j], STEPS_KEY), Or(Get(rows[j], PRECONDITION_KEY), None))
      && got.value.collection == Or(Get(rows[j], COLLECTION_KEY), Or(explicit, FirstStoredCollection(s.cases, rows)))
  {
    var built := BuildAll(rows, Or(explicit, ExistingCollection(s, rows)));
    assert built[j].caseId == RowId(rows[j]);
    assert forall k :: j < k < |rows| && k !in rejected ==> built[k].caseId != built[j].caseId by {
      forall k | j < k < |rows| && k !in rejected
        ensures built[k].caseId != built[j].caseId
      {
        assert built[k].caseId == RowId(rows[k]);
      }
    }
    WriteRowsLastWins(s.cases, built, |rows|, rejected, j);
  }

  /** An import leaves every case no accepted row names as it was. */
  lemma ImportKeepsOtherCases(s: Store, rows: seq<Row>, explicit: Option<string>, rejected: set<int>, id: string)
    requires CaseIdsUnique(s.cases)
    requires forall k :: 0 <= k < |rows| && k !in rejected ==> RowId(rows[k]) != id
    ensures GetTestCase(ImportCases(s, rows, explicit, rejected).store, id) == GetTestCase(s, id)
  {
    if CanInsertCases(s) {
      var built := BuildAll(rows, Or(explicit, ExistingCollection(s, rows)));
      assert forall k :: 0 <= k < |rows| && k !in rejected ==> built[k].caseId != id by {
        forall k | 0 <= k < |rows| && k !in rejected
          ensures built[k].caseId != id
        {
          assert built[k].caseId == RowId(rows[k]);
        }
      }
      WriteRowsUntouched(s.cases, built, |rows|, rejected, id, FindCase(s.cases, id));
    }
  }
}
