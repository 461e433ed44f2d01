/**
 * The export projection (src/database.py:547-602): the filtered record list
 * joined with its case, narrowed by collection and by the history screen's
 * search rule.
 */
module Export {
  import opened Wrappers
  import opened Text
  import opened Seqs
  import opened Store
  import opened Cases
  import opened Records
  import opened Queries
  import opened Deletion

  /** One exported line: the case's columns followed by the record's. */
  datatype ExportRow = ExportRow(
    caseId: string,
    scenario: string,
    testSteps: Option<string>,
    expectedResult: string,
    priority: Option<string>,
    status: string,
    actualResult: Option<string>,
    notes: Option<string>,
    timestamp: int,
    images: seq<string>)

  /**
   * The search rule: a text containing a CJK ideograph must occur in the
   * case's (non-empty) scenario, any other text in the record's case id,
   * both compared after lower-casing.
   */
  predicate SearchMatches(search: string, c: TestCase, r: TestRecord) {
    if HasCjk(search) then c.scenario != "" && IsSubstring(Lower(search), Lower(c.scenario))
    else IsSubstring(Lower(search), Lower(r.caseId))
  }

  /**
   * The search looks at one field only: with a CJK ideograph in the text the
   * record's case id never matters, without one the case's scenario never
   * matters.
   */
  lemma SearchUsesOneField(search: string, c: TestCase, c2: TestCase, r: TestRecord, r2: TestRecord)
    ensures HasCjk(search) && c2.scenario == c.scenario ==>
      (SearchMatches(search, c, r) <==> SearchMatches(search, c2, r2))
    ensures !HasCjk(search) && r2.caseId == r.caseId ==>
      (SearchMatches(search, c, r) <==> SearchMatches(search, c2, r2))
  {
  }

  /** The checks applied to one listed record, given its case (read through `get_test_case`). */
  predicate KeepsRow(c: TestCase, r: TestRecord, collection: Option<string>, search: Option<string>) {
    && (Truthy(collection) ==> OrEmpty(c.collection) == collection.value)
    && (Truthy(search) ==> SearchMatches(search.value, c, r))
  }

  /** A record is exported when its case is stored and the case passes the checks. */
  predicate Exported(s: Store, r: TestRecord, collection: Option<string>, search: Option<string>) {
    match GetTestCase(s, r.caseId)
    case None => false
    case Some(c) => KeepsRow(c, r, collection, search)
  }

  function ExportedView(s: Store, collection: Option<string>, search: Option<string>): RecordView -> bool {
    (v: RecordView) => Exported(s, v.record, collection, search)
  }

  /** The stored records the filter admits and the checks keep: one export line each. */
  function ExportedRecord(s: Store, f: RecordFilter, collection: Option<string>, search: Option<string>)
    : TestRecord -> bool
  {
    (r: TestRecord) => Admits(f, r) && Exported(s, r, collection, search)
  }

  function RowOf(c: TestCase, v: RecordView): ExportRow {
    ExportRow(c.caseId, c.scenario, c.testSteps, c.expectedResult, c.priority,
              v.record.status, v.record.actualResult, v.record.notes, v.record.timestamp, v.images)
  }

  /** The row of a record whose case is stored. */
  function RowFor(s: Store, v: RecordView): ExportRow
    requires GetTestCase(s, v.record.caseId).Some?
  {
    RowOf(GetTestCase(s, v.record.caseId).value, v)
  }

  function RowsOf(s: Store, kept: seq<RecordView>): (rows: seq<ExportRow>)
    requires forall i :: 0 <= i < |kept| ==> GetTestCase(s, kept[i].record.caseId).Some?
    ensures |rows| == |kept|
    ensures forall i :: 0 <= i < |kept| ==> rows[i] == RowFor(s, kept[i])
  {
    seq(|kept|, i requires 0 <= i < |kept| => RowFor(s, kept[i]))
  }

  /** The listed records that survive the collection and search checks. */
  function KeptViews(s: Store, f: RecordFilter, collection: Option<string>, search: Option<string>)
    : (kept: seq<RecordView>)
    ensures forall i :: 0 <= i < |kept| ==> GetTestCase(s, kept[i].record.caseId).Some?
  {
    var kept := Filter(GetTestRecords(s, f), ExportedView(s, collection, search));
    assert forall i :: 0 <= i < |kept| ==> ExportedView(s, collection, search)(kept[i]);
    kept
  }

  /** `row` is the export line of a stored record the filter admits and the checks keep. */
  ghost predicate IsExportedRow(s: Store, f: RecordFilter, collection: Option<string>, search: Option<string>,
                                row: ExportRow)
  {
    exists r :: (&& r in s.records && Admits(f, r) && Exported(s, r, collection, search)
                 && row == RowFor(s, View(s, r)))
  }

  /**
   * `export_test_records(start_date, end_date, case_id, status,
   * collection_name, search_text)`: the rows of exactly those listed records
   * whose case is stored and passes the collection and search checks,
   * newest first.
   */
  function ExportTestRecords(s: Store, startDate: Option<int>, endDate: Option<int>, caseId: Option<string>,
                             status: Option<string>, collection: Option<string>, search: Option<string>)
    : (rows: seq<ExportRow>)
    ensures forall i, j :: 0 <= i < j < |rows| ==> rows[i].timestamp >= rows[j].timestamp
    ensures forall i :: 0 <= i < |rows| ==>
      IsExportedRow(s, RecordFilter(caseId, status, startDate, endDate), collection, search, rows[i])
    ensures forall r ::
      (&& r in s.records && Admits(RecordFilter(caseId, status, startDate, endDate), r)
       && Exported(s, r, collection, search)) ==> RowFor(s, View(s, r)) in rows
    ensures |rows| == Count(s.records, ExportedRecord(s, RecordFilter(caseId, status, startDate, endDate), collection, search))
    ensures multiset(rows) == multiset(QualifyingRows(s, RecordFilter(caseId, status, startDate, endDate), collection, search))
  {
    var f := RecordFilter(caseId, status, startDate, endDate);
    var kept := KeptViews(s, f, collection, search);
    ExportKeepsOrder(GetTestRecords(s, f), kept, ExportedView(s, collection, search));
    ExportedRowsAreListed(s, f, collection, search, RowsOf(s, kept));
    ListedRowsAreExported(s, f, collection, search);
    ExportCount(s, f, collection, search);
    ExportIsRearrangement(s, f, collection, search);
    RowsOf(s, kept)
  }

  /** One line per exported record: none dropped, none repeated. */
  lemma ExportCount(s: Store, f: RecordFilter, collection: Option<string>, search: Option<string>)
    ensures |KeptViews(s, f, collection, search)| == Count(s.records, ExportedRecord(s, f, collection, search))
  {
    var listed := GetTestRecords(s, f);
    var admitted := Filter(s.records, Admitting(f));
    var keep := ExportedRecord(s, f, collection, search);
    forall i | 0 <= i < |listed|
      ensures ExportedView(s, collection, search)(listed[i]) == keep(listed[i].record)
    {
      assert Admits(f, listed[i].record);
    }
    FilterViewsCount(listed, ExportedView(s, collection, search), keep);
    FilterPermutation(RecordsOf(listed), admitted, keep);
    FilterOfFilter(s.records, Admitting(f), keep);
  }

  /** Filtering views by a test on their record keeps as many as filtering the records. */
  lemma {:induction false} FilterViewsCount(views: seq<RecordView>, keepView: RecordView -> bool,
                                            keep: TestRecord -> bool)
    requires forall i :: 0 <= i < |views| ==> keepView(views[i]) == keep(views[i].record)
    ensures |Filter(views, keepView)| == |Filter(RecordsOf(views), keep)|
  {
    if |views| > 0 {
      FilterViewsCount(views[1..], keepView, keep);
      assert RecordsOf(views)[1..] == RecordsOf(views[1..]);
    }
  }

  /** The export line of a record whose case is stored. */
  function RowMaker(s: Store): TestRecord --> ExportRow {
    (r: TestRecord) requires GetTestCase(s, r.caseId).Some? => RowFor(s, View(s, r))
  }

  function RecordOf(): RecordView -> TestRecord {
    (v: RecordView) => v.record
  }

  /**
   * The export lines of the stored records, in scan order, that the filter
   * admits and the checks keep: the reference the export is a rearrangement of.
   */
  function QualifyingRows(s: Store, f: RecordFilter, collection: Option<string>, search: Option<string>)
    : (rows: seq<ExportRow>)
    ensures |rows| == Count(s.records, ExportedRecord(s, f, collection, search))
  {
    var recs := Filter(s.records, ExportedRecord(s, f, collection, search));
    assert forall i :: 0 <= i < |recs| ==> ExportedRecord(s, f, collection, search)(recs[i]);
    Map(recs, RowMaker(s))
  }

  /** The kept entries' records are the listed records that qualify, in listing order. */
  lemma KeptRecords(s: Store, f: RecordFilter, collection: Option<string>, search: Option<string>)
    ensures RecordsOf(KeptViews(s, f, collection, search))
         == Filter(RecordsOf(GetTestRecords(s, f)), ExportedRecord(s, f, collection, search))
  {
    var listed := GetTestRecords(s, f);
    var kept := KeptViews(s, f, collection, search);
    var keep := ExportedRecord(s, f, collection, search);
    forall i | 0 <= i < |listed|
      ensures ExportedView(s, collection, search)(listed[i]) == keep(RecordOf()(listed[i]))
    {
      assert Admits(f, listed[i].record);
    }
    MapFilter(listed, RecordOf(), ExportedView(s, collection, search), keep);
    assert RecordsOf(kept) == Map(kept, RecordOf());
    assert RecordsOf(listed) == Map(listed, RecordOf());
  }

  /** The export lines are the kept entries' records' lines. */
  lemma KeptRows(s: Store, f: RecordFilter, collection: Option<string>, search: Option<string>)
    ensures var kept := KeptViews(s, f, collection, search);
      forall i :: 0 <= i < |kept| ==> RowMaker(s).requires(RecordsOf(kept)[i])
    ensures var kept := KeptViews(s, f, collection, search);
      RowsOf(s, kept) == Map(RecordsOf(kept), RowMaker(s))
  {
    KeptAreViews(s, f, collection, search);
  }

  /** The kept entries' records are the qualifying stored records, rearranged. */
  lemma KeptRecordsRearranged(s: Store, f: RecordFilter, collection: Option<string>, search: Option<string>)
    ensures multiset(RecordsOf(KeptViews(s, f, collection, search)))
         == multiset(Filter(s.records, ExportedRecord(s, f, collection, search)))
  {
    var keep := ExportedRecord(s, f, collection, search);
    KeptRecords(s, f, collection, search);
    FilterPermutation(RecordsOf(GetTestRecords(s, f)), Filter(s.records, Admitting(f)), keep);
    FilterOfFilter(s.records, Admitting(f), keep);
  }

  /** The export lines are exactly the qualifying records' lines, each as often as its record occurs. */
  lemma ExportIsRearrangement(s: Store, f: RecordFilter, collection: Option<string>, search: Option<string>)
    ensures multiset(RowsOf(s, KeptViews(s, f, collection, search))) == multiset(QualifyingRows(s, f, collection, search))
  {
    var keep := ExportedRecord(s, f, collection, search);
    var qual := Filter(s.records, keep);
    assert forall i :: 0 <= i < |qual| ==> keep(qual[i]);
    KeptRecordsRearranged(s, f, collection, search);
    KeptRows(s, f, collection, search);
    MapPermutation(RecordsOf(KeptViews(s, f, collection, search)), qual, RowMaker(s));
  }

  /** Each kept entry is the view of its own record. */
  lemma KeptAreViews(s: Store, f: RecordFilter, collection: Option<string>, search: Option<string>)
    ensures var kept := KeptViews(s, f, collection, search);
      forall i :: 0 <= i < |kept| ==> kept[i] == View(s, kept[i].record)
  {
    var listed := GetTestRecords(s, f);
    var kept := KeptViews(s, f, collection, search);
    forall i | 0 <= i < |kept|
      ensures kept[i] == View(s, kept[i].record)
    {
      var k :| 0 <= k < |listed| && listed[k] == kept[i];
    }
  }

  lemma ExportedRowsAreListed(s: Store, f: RecordFilter, collection: Option<string>, search: Option<string>,
                              rows: seq<ExportRow>)
    requires rows == RowsOf(s, KeptViews(s, f, collection, search))
    ensures forall i :: 0 <= i < |rows| ==> IsExportedRow(s, f, collection, search, rows[i])
  {
    forall i | 0 <= i < |rows|
      ensures IsExportedRow(s, f, collection, search, rows[i])
    {
      ExportedRowIsListed(s, f, collection, search, i);
    }
  }

  lemma ExportedRowIsListed(s: Store, f: RecordFilter, collection: Option<string>, search: Option<string>, i: int)
    requires 0 <= i < |KeptViews(s, f, collection, search)|
    ensures IsExportedRow(s, f, collection, search, RowsOf(s, KeptViews(s, f, collection, search))[i])
  {
    var listed := GetTestRecords(s, f);
    var kept := KeptViews(s, f, collection, search);
    assert kept == Filter(listed, ExportedView(s, collection, search));
    assert ExportedView(s, collection, search)(kept[i]);
    var k :| 0 <= k < |listed| && listed[k] == kept[i];
    var r := listed[k].record;
    assert kept[i] == View(s, r);
    assert r in s.records && Admits(f, r) && Exported(s, r, collection, search);
    assert RowsOf(s, kept)[i] == RowFor(s, View(s, r));
  }

  lemma ListedRowsAreExported(s: Store, f: RecordFilter, collection: Option<string>, search: Option<string>)
    ensures forall r ::
      (r in s.records && Admits(f, r) && Exported(s, r, collection, search)) ==>
        RowFor(s, View(s, r)) in RowsOf(s, KeptViews(s, f, collection, search))
  {
    var listed := GetTestRecords(s, f);
    var kept := KeptViews(s, f, collection, search);
    var rows := RowsOf(s, kept);
    forall r | r in s.records && Admits(f, r) && Exported(s, r, collection, search)
      ensures RowFor(s, View(s, r)) in rows
    {
      AdmittedIsListed(s, f, r);
      var k :| 0 <= k < |listed| && listed[k].record == r;
      assert listed[k] == View(s, r);
      assert ExportedView(s, collection, search)(listed[k]);
      var i :| 0 <= i < |kept| && kept[i] == listed[k];
      assert rows[i] == RowFor(s, View(s, r));
    }
  }

  /** The filter keeps the list's newest-first order. */
  lemma {:induction false} ExportKeepsOrder(listed: seq<RecordView>, kept: seq<RecordView>, keep: RecordView -> bool)
    requires forall i, j :: 0 <= i < j < |listed| ==> listed[i].record.timestamp >= listed[j].record.timestamp
    requires kept == Filter(listed, keep)
    ensures forall i, j :: 0 <= i < j < |kept| ==> kept[i].record.timestamp >= kept[j].record.timestamp
    decreases |listed|
  {
    if |listed| > 0 {
      var rest := Filter(listed[1..], keep);
      ExportKeepsOrder(listed[1..], rest, keep);
      assert forall j :: 0 <= j < |rest| ==> rest[j] in listed[1..];
    }
  }

  /** Every exported row names a case that is stored. */
  lemma ExportedRowsHaveTheirCase(s: Store, startDate: Option<int>, endDate: Option<int>, caseId: Option<string>,
                                  status: Option<string>, collection: Option<string>, search: Option<string>,
                                  row: ExportRow)
    requires row in ExportTestRecords(s, startDate, endDate, caseId, status, collection, search)
    ensures exists c :: c in s.cases && c.caseId == row.caseId
  {
    var rows := ExportTestRecords(s, startDate, endDate, caseId, status, collection, search);
    var i :| 0 <= i < |rows| && rows[i] == row;
    var r :| r in s.records && Exported(s, r, collection, search) && rows[i] == RowFor(s, View(s, r));
  }

  /** Once a case is deleted, the export has no row for it. */
  lemma ExportOmitsDeletedCase(s: Store, id: string, startDate: Option<int>, endDate: Option<int>,
                               caseId: Option<string>, status: Option<string>, collection: Option<string>,
                               search: Option<string>)
    ensures forall row ::
      row in ExportTestRecords(RemoveCase(s, id), startDate, endDate, caseId, status, collection, search) ==>
        row.caseId != id
  {
    var t := RemoveCase(s, id);
    forall row | row in ExportTestRecords(t, startDate, endDate, caseId, status, collection, search)
      ensures row.caseId != id
    {
      ExportedRowsHaveTheirCase(t, startDate, endDate, caseId, status, collection, search, row);
    }
  }

  /** An empty collection name or search text filters nothing, as in the source's truthiness tests. */
  lemma EmptyExportFiltersIgnored(s: Store, startDate: Option<int>, endDate: Option<int>, caseId: Option<string>,
                                  status: Option<string>)
    ensures ExportTestRecords(s, startDate, endDate, caseId, status, Some(""), Some(""))
         == ExportTestRecords(s, startDate, endDate, caseId, status, None, None)
  {
    var f := RecordFilter(caseId, status, startDate, endDate);
    var listed := GetTestRecords(s, f);
    FilterSameKeep(listed, ExportedView(s, Some(""), Some("")), ExportedView(s, None, None));
    assert KeptViews(s, f, Some(""), Some("")) == KeptViews(s, f, None, None);
  }
}
