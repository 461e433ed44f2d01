/**
 * The read queries over execution records (src/database.py:330-485): the
 * filtered, newest-first record list, the date-window statistics and the
 * latest record of every case.
 */
module Queries {
  import opened Wrappers
  import opened Text
  import opened Seqs
  import opened Store
  import opened Records

  /** The four statuses the statistics count. */
  const PASSED := "通过"
  const FAILED := "失败"
  const BLOCKED := "阻塞"
  const SKIPPED := "跳过"

  /**
   * The optional filters of `get_test_records`. The source tests each with
   * truthiness, so `""` and `0` mean the same as `None`.
   */
  datatype RecordFilter = RecordFilter(
    caseId: Option<string>,
    status: Option<string>,
    startDate: Option<int>,
    endDate: Option<int>)

  /** `timestamp >= start` and `timestamp <= end`, each only when its bound is truthy. */
  predicate InWindow(r: TestRecord, startDate: Option<int>, endDate: Option<int>) {
    && (TruthyInt(startDate) ==> r.timestamp >= startDate.value)
    && (TruthyInt(endDate) ==> r.timestamp <= endDate.value)
  }

  /** The WHERE clause `get_test_records` assembles. */
  predicate Admits(f: RecordFilter, r: TestRecord) {
    && (Truthy(f.caseId) ==> r.caseId == f.caseId.value)
    && (Truthy(f.status) ==> r.status == f.status.value)
    && InWindow(r, f.startDate, f.endDate)
  }

  /** One entry of the `conditions` list `get_test_records` collects. */
  datatype Condition =
    | CaseIdIs(caseId: string)
    | StatusIs(status: string)
    | NotBefore(start: int)
    | NotAfter(end: int)

  predicate Holds(c: Condition, r: TestRecord) {
    match c
    case CaseIdIs(id) => r.caseId == id
    case StatusIs(st) => r.status == st
    case NotBefore(t) => r.timestamp >= t
    case NotAfter(t) => r.timestamp <= t
  }

  /** The conditions in the order the source appends them, one per truthy filter. */
  function Conditions(f: RecordFilter): (cs: seq<Condition>)
    ensures |cs| <= 4
  {
    (if Truthy(f.caseId) then [CaseIdIs(f.caseId.value)] else [])
    + (if Truthy(f.status) then [StatusIs(f.status.value)] else [])
    + (if TruthyInt(f.startDate) then [NotBefore(f.startDate.value)] else [])
    + (if TruthyInt(f.endDate) then [NotAfter(f.endDate.value)] else [])
  }

  /**
   * `Admits` is the query the source assembles: the conditions joined with
   * AND, and no WHERE clause at all (every row) when the list is empty.
   */
  lemma AdmitsIsWhereClause(f: RecordFilter, r: TestRecord)
    ensures Admits(f, r) <==> forall i :: 0 <= i < |Conditions(f)| ==> Holds(Conditions(f)[i], r)
    ensures Conditions(f) == [] ==> Admits(f, r)
  {
    var a := if Truthy(f.caseId) then [CaseIdIs(f.caseId.value)] else [];
    var b := if Truthy(f.status) then [StatusIs(f.status.value)] else [];
    var c := if TruthyInt(f.startDate) then [NotBefore(f.startDate.value)] else [];
    var d := if TruthyInt(f.endDate) then [NotAfter(f.endDate.value)] else [];
    var cs := Conditions(f);
    assert cs == a + b + c + d;
    assert forall x :: x in cs <==> x in a || x in b || x in c || x in d;
    if forall i :: 0 <= i < |cs| ==> Holds(cs[i], r) {
      assert Truthy(f.caseId) ==> CaseIdIs(f.caseId.value) in cs;
      assert Truthy(f.status) ==> StatusIs(f.status.value) in cs;
      assert TruthyInt(f.startDate) ==> NotBefore(f.startDate.value) in cs;
      assert TruthyInt(f.endDate) ==> NotAfter(f.endDate.value) in cs;
    }
    if Admits(f, r) {
      forall i | 0 <= i < |cs|
        ensures Holds(cs[i], r)
      {
        assert cs[i] in a || cs[i] in b || cs[i] in c || cs[i] in d;
      }
    }
  }

  function Admitting(f: RecordFilter): TestRecord -> bool {
    (r: TestRecord) => Admits(f, r)
  }

  /** `ORDER BY timestamp DESC` as an ascending sort on the negated key. */
  function NewestFirst(): TestRecord -> int {
    (r: TestRecord) => -r.timestamp
  }

  function RecordsOf(views: seq<RecordView>): (r: seq<TestRecord>)
    ensures |r| == |views|
    ensures forall i :: 0 <= i < |views| ==> r[i] == views[i].record
  {
    seq(|views|, i requires 0 <= i < |views| => views[i].record)
  }

  /** Each record with its ordered image paths, in the given order. */
  function ViewAll(s: Store, rs: seq<TestRecord>): (r: seq<RecordView>)
    ensures RecordsOf(r) == rs
    ensures |r| == |rs|
    ensures forall i :: 0 <= i < |r| ==> r[i].record == rs[i] && r[i].images == RecordImagePaths(s, rs[i].recordId)
  {
    seq(|rs|, i requires 0 <= i < |rs| => View(s, rs[i]))
  }

  /**
   * `get_test_records(case_id, status, start_date, end_date)`: exactly the
   * records the truthy filters admit, newest first, each with its ordered
   * image paths.
   */
  function GetTestRecords(s: Store, f: RecordFilter): (r: seq<RecordView>)
    ensures forall i, j :: 0 <= i < j < |r| ==> r[i].record.timestamp >= r[j].record.timestamp
    ensures multiset(RecordsOf(r)) == multiset(Filter(s.records, Admitting(f)))
    ensures forall i :: 0 <= i < |r| ==>
      && r[i].record in s.records && Admits(f, r[i].record)
      && r[i].images == RecordImagePaths(s, r[i].record.recordId)
  {
    var admitted := Filter(s.records, Admitting(f));
    var sorted := SortBy(admitted, NewestFirst());
    SortedAdmitted(s, f, sorted);
    NewestFirstDescends(sorted);
    ViewAll(s, sorted)
  }

  /** The sorted admitted records are stored records the filter admits. */
  lemma SortedAdmitted(s: Store, f: RecordFilter, sorted: seq<TestRecord>)
    requires sorted == SortBy(Filter(s.records, Admitting(f)), NewestFirst())
    ensures forall i :: 0 <= i < |sorted| ==> sorted[i] in s.records && Admits(f, sorted[i])
  {
    var admitted := Filter(s.records, Admitting(f));
    SortMembers(admitted, NewestFirst());
    forall i | 0 <= i < |sorted|
      ensures sorted[i] in s.records && Admits(f, sorted[i])
    {
      var j :| 0 <= j < |admitted| && admitted[j] == sorted[i];
      assert Admitting(f)(admitted[j]);
    }
  }

  /** Ascending on the negated timestamp is newest first. */
  lemma NewestFirstDescends(sorted: seq<TestRecord>)
    requires SortedBy(sorted, NewestFirst())
    ensures forall i, j :: 0 <= i < j < |sorted| ==> sorted[i].timestamp >= sorted[j].timestamp
  {
    forall i, j | 0 <= i < j < |sorted|
      ensures sorted[i].timestamp >= sorted[j].timestamp
    {
      assert NewestFirst()(sorted[i]) <= NewestFirst()(sorted[j]);
    }
  }

  /** Every record the filters admit is listed. */
  lemma AdmittedIsListed(s: Store, f: RecordFilter, rec: TestRecord)
    requires rec in s.records && Admits(f, rec)
    ensures exists i :: 0 <= i < |GetTestRecords(s, f)| && GetTestRecords(s, f)[i].record == rec
  {
    var r := GetTestRecords(s, f);
    var admitted := Filter(s.records, Admitting(f));
    var listed := RecordsOf(r);
    var j :| 0 <= j < |s.records| && s.records[j] == rec;
    assert Admitting(f)(s.records[j]);
    assert rec in admitted;
    RearrangedMember(rec, admitted, listed);
    var i :| 0 <= i < |listed| && listed[i] == rec;
    assert r[i].record == rec;
  }

  lemma RearrangedMember<T>(x: T, a: seq<T>, b: seq<T>)
    requires x in a && multiset(a) == multiset(b)
    ensures x in b
  {
    assert x in multiset(a);
  }

  /** Falsy filters (`""`, `0`) are not applied: every record comes back. */
  lemma FalsyFiltersSelectAll(s: Store)
    ensures |GetTestRecords(s, RecordFilter(Some(""), Some(""), Some(0), Some(0)))| == |s.records|
  {
    var f := RecordFilter(Some(""), Some(""), Some(0), Some(0));
    FilterAll(s.records, Admitting(f));
    var r := GetTestRecords(s, f);
    assert |multiset(RecordsOf(r))| == |multiset(s.records)|;
  }

  // ----------------------------------------------------------- statistics

  /** Records in the window whose status is `status` (any status when None), counted one by one. */
  function CountWhere(records: seq<TestRecord>, startDate: Option<int>, endDate: Option<int>, status: Option<string>): nat {
    if |records| == 0 then 0
    else
      var r := records[|records| - 1];
      CountWhere(records[..|records| - 1], startDate, endDate, status)
      + (if InWindow(r, startDate, endDate) && (status.Some? ==> r.status == status.value) then 1 else 0)
  }

  datatype Statistics = Statistics(total: nat, passed: nat, failed: nat, blocked: nat, skipped: nat)

  /**
   * `get_statistics(start_date, end_date)`: the number of records in the
   * window and, within the same window, of each of the four statuses.
   */
  function GetStatistics(s: Store, startDate: Option<int>, endDate: Option<int>): (st: Statistics)
    ensures st.passed + st.failed + st.blocked + st.skipped <= st.total
    ensures |s.records| == 0 ==> st == Statistics(0, 0, 0, 0, 0)
  {
    StatusCountsBounded(s.records, startDate, endDate);
    Statistics(
      CountWhere(s.records, startDate, endDate, None),
      CountWhere(s.records, startDate, endDate, Some(PASSED)),
      CountWhere(s.records, startDate, endDate, Some(FAILED)),
      CountWhere(s.records, startDate, endDate, Some(BLOCKED)),
      CountWhere(s.records, startDate, endDate, Some(SKIPPED)))
  }

  /** The four statuses are distinct, so their counts add up to at most the total. */
  lemma {:induction false} StatusCountsBounded(records: seq<TestRecord>, startDate: Option<int>, endDate: Option<int>)
    ensures CountWhere(records, startDate, endDate, Some(PASSED)) + CountWhere(records, startDate, endDate, Some(FAILED))
            + CountWhere(records, startDate, endDate, Some(BLOCKED)) + CountWhere(records, startDate, endDate, Some(SKIPPED))
            <= CountWhere(records, startDate, endDate, None)
    decreases |records|
  {
    if |records| > 0 {
      StatusCountsBounded(records[..|records| - 1], startDate, endDate);
    }
  }

  /**
   * The pass rate `passed / total * 100`, and 0 for an empty window. Kept as
   * an exact rational where the source computes a float.
   */
  function PassRate(st: Statistics): (rate: real)
    ensures st.total == 0 ==> rate == 0.0
    ensures st.total > 0 ==> rate * (st.total as real) == (st.passed as real) * 100.0
    ensures st.passed <= st.total ==> 0.0 <= rate <= 100.0
  {
    if st.total > 0 then (st.passed as real) / (st.total as real) * 100.0 else 0.0
  }

  lemma CountWhereIsFilter(records: seq<TestRecord>, startDate: Option<int>, endDate: Option<int>,
                            status: Option<string>)
    requires status.None? || status.value != ""
    ensures CountWhere(records, startDate, endDate, status)
            == |Filter(records, Admitting(RecordFilter(None, status, startDate, endDate)))|
  {
    CountMatches(records, startDate, endDate, status);
  }

  ghost predicate CountAgrees(records: seq<TestRecord>, startDate: Option<int>, endDate: Option<int>,
                              status: Option<string>) {
    CountWhere(records, startDate, endDate, status)
      == |Filter(records, Admitting(RecordFilter(None, status, startDate, endDate)))|
  }

  lemma {:induction false} CountMatches(records: seq<TestRecord>, startDate: Option<int>, endDate: Option<int>,
                                        status: Option<string>)
    requires status.None? || status.value != ""
    ensures CountAgrees(records, startDate, endDate, status)
    decreases |records|
  {
    if |records| > 0 {
      var n := |records| - 1;
      var keep := Admitting(RecordFilter(None, status, startDate, endDate));
      CountMatches(records[..n], startDate, endDate, status);
      assert records == records[..n] + [records[n]];
      FilterConcat(records[..n], [records[n]], keep);
      assert |Filter([records[n]], keep)| == if keep(records[n]) then 1 else 0;
    }
  }

  /**
   * The statistics agree with the record query over the same window: the
   * total is the number of records listed, each status count the number
   * listed with that status filter.
   */
  lemma StatisticsAgreeWithQuery(s: Store, startDate: Option<int>, endDate: Option<int>)
    ensures var st := GetStatistics(s, startDate, endDate);
      && st.total == |GetTestRecords(s, RecordFilter(None, None, startDate, endDate))|
      && st.passed == |GetTestRecords(s, RecordFilter(None, Some(PASSED), startDate, endDate))|
      && st.failed == |GetTestRecords(s, RecordFilter(None, Some(FAILED), startDate, endDate))|
      && st.blocked == |GetTestRecords(s, RecordFilter(None, Some(BLOCKED), startDate, endDate))|
      && st.skipped == |GetTestRecords(s, RecordFilter(None, Some(SKIPPED), startDate, endDate))|
  {
    forall status: Option<string> | status.None? || status.value != ""
      ensures CountWhere(s.records, startDate, endDate, status)
              == |GetTestRecords(s, RecordFilter(None, status, startDate, endDate))|
    {
      var f := RecordFilter(None, status, startDate, endDate);
      CountWhereIsFilter(s.records, startDate, endDate, status);
      var r := GetTestRecords(s, f);
      assert |multiset(RecordsOf(r))| == |multiset(Filter(s.records, Admitting(f)))|;
    }
    assert PASSED != "" && FAILED != "" && BLOCKED != "" && SKIPPED != "";
  }

  // -------------------------------------------------------------- latest

  /**
   * The latest record of every case, folding the records in scan order: a
   * later row replaces the current one when its timestamp is not smaller,
   * which is what the join on MAX(timestamp) followed by the dictionary
   * assignment keeps.
   */
  function LatestByCase(records: seq<TestRecord>): (m: map<string, TestRecord>)
    ensures forall k :: k in m ==> m[k] in records && m[k].caseId == k
    ensures forall i :: 0 <= i < |records| ==>
      records[i].caseId in m && records[i].timestamp <= m[records[i].caseId].timestamp
  {
    LatestUpTo(records, |records|)
  }

  /** The fold over the first `n` records. */
  function LatestUpTo(records: seq<TestRecord>, n: nat): (m: map<string, TestRecord>)
    requires n <= |records|
    ensures forall k :: k in m ==> m[k] in records && m[k].caseId == k
    ensures forall i :: 0 <= i < n ==>
      records[i].caseId in m && records[i].timestamp <= m[records[i].caseId].timestamp
  {
    if n == 0 then map[] else Keep(LatestUpTo(records, n - 1), records[n - 1])
  }

  /** One step of the fold: `r` becomes its case's latest unless that one is newer. */
  function Keep(latest: map<string, TestRecord>, r: TestRecord): map<string, TestRecord> {
    if r.caseId !in latest || latest[r.caseId].timestamp <= r.timestamp then latest[r.caseId := r]
    else latest
  }

  /**
   * Ties on the maximum timestamp go to the row scanned last, which under
   * AUTOINCREMENT is the highest record_id.
   */
  lemma LatestBreaksTiesByRecordId(records: seq<TestRecord>, k: string, r: TestRecord)
    requires forall i, j :: 0 <= i < j < |records| ==> records[i].recordId < records[j].recordId
    requires k in LatestByCase(records)
    requires r in records && r.caseId == k && r.timestamp == LatestByCase(records)[k].timestamp
    ensures r.recordId <= LatestByCase(records)[k].recordId
  {
    var i :| 0 <= i < |records| && records[i] == r;
    assert LatestAfter(records, |records|, k) == Some(LatestByCase(records)[k]);
    LatestTieAt(records, |records|, k, i, LatestByCase(records)[k]);
  }

  /** The entry of `k` once the first `n` records are folded. */
  ghost function LatestAfter(records: seq<TestRecord>, n: nat, k: string): Option<TestRecord>
    requires n <= |records|
  {
    var latest := LatestUpTo(records, n);
    if k in latest then Some(latest[k]) else None
  }

  /** One fold step seen from the entry of `k`. */
  lemma LatestStep(records: seq<TestRecord>, n: nat, k: string)
    requires 0 < n <= |records|
    ensures var before := LatestAfter(records, n - 1, k);
      var last := records[n - 1];
      LatestAfter(records, n, k)
        == if last.caseId == k && (before.None? || before.value.timestamp <= last.timestamp) then Some(last)
           else before
  {
    assert LatestUpTo(records, n) == Keep(LatestUpTo(records, n - 1), records[n - 1]);
  }

  lemma {:induction false} LatestTieAt(records: seq<TestRecord>, n: nat, k: string, i: int, e: TestRecord)
    requires 0 <= i < n <= |records| && records[i].caseId == k
    requires LatestAfter(records, n, k) == Some(e)
    requires records[i].timestamp == e.timestamp
    requires forall j :: i < j < |records| ==> records[i].recordId < records[j].recordId
    ensures records[i].recordId <= e.recordId
    decreases n
  {
    var before := LatestAfter(records, n - 1, k);
    var last := records[n - 1];
    LatestStep(records, n, k);
    if last.caseId == k && (before.None? || before.value.timestamp <= last.timestamp) {
      if i < n - 1 {
        assert records[i].recordId < last.recordId;
      }
    } else {
      assert before == Some(e);
      if i == n - 1 {
        assert false;
      } else {
        LatestTieAt(records, n - 1, k, i, e);
      }
    }
  }

  /** `get_latest_records`: case id to its latest record with the record's images. */
  function GetLatestRecords(s: Store): (m: map<string, RecordView>)
    ensures forall k :: k in m ==>
      && m[k].record in s.records && m[k].record.caseId == k
      && m[k].images == RecordImagePaths(s, m[k].record.recordId)
    ensures forall i :: 0 <= i < |s.records| ==>
      s.records[i].caseId in m && s.records[i].timestamp <= m[s.records[i].caseId].record.timestamp
  {
    var latest := LatestByCase(s.records);
    map k | k in latest :: View(s, latest[k])
  }
}
