/**
 * The abstract SQLite store behind `Database` (src/database.py): the three
 * tables test_cases, test_records and record_images, the column sets of the
 * two tables whose shape changed between versions, and the AUTOINCREMENT
 * counters. Rows are kept in rowid order, which is the order an unordered
 * SELECT scans them in.
 */
module Store {
  import opened Wrappers
  import opened Text
  import opened Seqs

  const STEPS_COLUMN := "test_steps"
  const PRECONDITION_COLUMN := "precondition"
  const COLLECTION_COLUMN := "case_collection_name"
  const LEGACY_IMAGE_COLUMN := "image_path"

  /** Columns of test_cases as `CREATE TABLE` makes them today. */
  const CASE_COLUMNS: set<string> :=
    {"case_id", "scenario", STEPS_COLUMN, "expected_result", "priority", COLLECTION_COLUMN}

  /** Columns of test_records as `CREATE TABLE` makes them today. */
  const RECORD_COLUMNS: set<string> :=
    {"record_id", "case_id", "status", "actual_result", "notes", "executor", "timestamp"}

  /**
   * A test_cases row. `precondition` is the legacy column, present only in
   * stores created by an old version; a field whose column is absent is None.
   */
  datatype TestCase = TestCase(
    caseId: string,
    scenario: string,
    testSteps: Option<string>,
    expectedResult: string,
    priority: Option<string>,
    collection: Option<string>,
    precondition: Option<string>)

  /** A test_records row; `legacyImage` is the old single-image column. */
  datatype TestRecord = TestRecord(
    recordId: int,
    caseId: string,
    status: string,
    actualResult: Option<string>,
    notes: Option<string>,
    executor: Option<string>,
    timestamp: int,
    legacyImage: Option<string>)

  /** A record_images row. */
  datatype RecordImage = RecordImage(imageId: int, recordId: int, path: string, orderIndex: int)

  datatype Store = Store(
    caseColumns: set<string>,
    recordColumns: set<string>,
    cases: seq<TestCase>,
    records: seq<TestRecord>,
    nextRecordId: int,
    images: seq<RecordImage>,
    nextImageId: int)

  /** A database file opened for the first time: all three tables created empty. */
  function Empty(): Store {
    Store(CASE_COLUMNS, RECORD_COLUMNS, [], [], 1, [], 1)
  }

  /** `case_id` is the PRIMARY KEY of test_cases. */
  ghost predicate CaseIdsUnique(cases: seq<TestCase>) {
    forall i, j :: 0 <= i < j < |cases| ==> cases[i].caseId != cases[j].caseId
  }

  /** AUTOINCREMENT ids: ascending in rowid order, never reaching the next id to hand out. */
  ghost predicate RecordIdsAscending(records: seq<TestRecord>, next: int) {
    && (forall i, j :: 0 <= i < j < |records| ==> records[i].recordId < records[j].recordId)
    && (forall i :: 0 <= i < |records| ==> records[i].recordId < next)
  }

  ghost predicate ImageIdsAscending(images: seq<RecordImage>, next: int) {
    && (forall i, j :: 0 <= i < j < |images| ==> images[i].imageId < images[j].imageId)
    && (forall i :: 0 <= i < |images| ==> images[i].imageId < next)
  }

  /** Rows appended with ids handed out from the counter keep the ids ascending. */
  lemma AppendFreshImages(images: seq<RecordImage>, added: seq<RecordImage>, next: int)
    requires ImageIdsAscending(images, next)
    requires forall k :: 0 <= k < |added| ==> added[k].imageId == next + k
    ensures ImageIdsAscending(images + added, next + |added|)
  {
    var all := images + added;
    forall i, j | 0 <= i < j < |all|
      ensures all[i].imageId < all[j].imageId
    {
      if j >= |images| {
        assert all[j] == added[j - |images|];
        if i >= |images| {
          assert all[i] == added[i - |images|];
        }
      }
    }
  }

  /** A field whose column the table lacks reads as NULL. */
  ghost predicate AbsentColumnsNull(s: Store) {
    && (STEPS_COLUMN !in s.caseColumns ==> forall c :: c in s.cases ==> c.testSteps.None?)
    && (PRECONDITION_COLUMN !in s.caseColumns ==> forall c :: c in s.cases ==> c.precondition.None?)
    && (COLLECTION_COLUMN !in s.caseColumns ==> forall c :: c in s.cases ==> c.collection.None?)
    && (LEGACY_IMAGE_COLUMN !in s.recordColumns ==> forall r :: r in s.records ==> r.legacyImage.None?)
  }

  ghost predicate Valid(s: Store) {
    && CaseIdsUnique(s.cases)
    && RecordIdsAscending(s.records, s.nextRecordId)
    && ImageIdsAscending(s.images, s.nextImageId)
    && AbsentColumnsNull(s)
  }

  predicate HasRecord(s: Store, rid: int) {
    exists r :: r in s.records && r.recordId == rid
  }

  /** Every image row belongs to a record that exists. */
  ghost predicate NoOrphanImages(s: Store) {
    forall im :: im in s.images ==> HasRecord(s, im.recordId)
  }

  /** `SELECT * FROM test_cases WHERE case_id = ?`, first row in scan order. */
  function FindCase(cases: seq<TestCase>, id: string): (r: Option<TestCase>)
    ensures r.Some? ==> r.value in cases && r.value.caseId == id
    ensures r.None? <==> forall i :: 0 <= i < |cases| ==> cases[i].caseId != id
  {
    if |cases| == 0 then None
    else if cases[0].caseId == id then Some(cases[0])
    else FindCase(cases[1..], id)
  }

  /** Under the primary key, the case found is the one row with that id. */
  lemma {:induction false} FindCaseUnique(cases: seq<TestCase>, c: TestCase)
    requires CaseIdsUnique(cases)
    requires c in cases
    ensures FindCase(cases, c.caseId) == Some(c)
  {
    if cases[0] != c {
      assert CaseIdsUnique(cases[1..]);
      FindCaseUnique(cases[1..], c);
    }
  }

  /** `SELECT * FROM test_records WHERE record_id = ?`. */
  function FindRecord(records: seq<TestRecord>, rid: int): (r: Option<TestRecord>)
    ensures r.Some? ==> r.value in records && r.value.recordId == rid
    ensures r.None? <==> forall i :: 0 <= i < |records| ==> records[i].recordId != rid
  {
    if |records| == 0 then None
    else if records[0].recordId == rid then Some(records[0])
    else FindRecord(records[1..], rid)
  }

  function OfRecord(rid: int): RecordImage -> bool {
    (im: RecordImage) => im.recordId == rid
  }

  function NotOfRecord(rid: int): RecordImage -> bool {
    (im: RecordImage) => im.recordId != rid
  }

  function ById(): TestRecord -> int {
    (r: TestRecord) => r.recordId
  }

  function ByImageId(): RecordImage -> int {
    (im: RecordImage) => im.imageId
  }

  function ByOrderIndex(): RecordImage -> int {
    (im: RecordImage) => im.orderIndex
  }

  function Paths(images: seq<RecordImage>): (r: seq<string>)
    ensures |r| == |images|
    ensures forall k :: 0 <= k < |images| ==> r[k] == images[k].path
  {
    seq(|images|, k requires 0 <= k < |images| => images[k].path)
  }

  lemma PathsCons(im: RecordImage, images: seq<RecordImage>)
    ensures Paths([im] + images) == [im.path] + Paths(images)
  {
  }

  /**
   * `get_record_images`: the record's image paths, ascending by order_index
   * (ties, which the engine leaves unordered, in scan order).
   */
  function RecordImagePaths(s: Store, rid: int): (r: seq<string>)
    ensures |r| == Count(s.images, OfRecord(rid))
    ensures forall k :: 0 <= k < |r| ==>
      exists im :: im in s.images && im.recordId == rid && im.path == r[k]
    ensures InOrderIndexOrder(s, rid, r)
  {
    var sorted := SortBy(Filter(s.images, OfRecord(rid)), ByOrderIndex());
    SortedImagesOfRecord(s, rid, sorted);
    assert OrderedImagesWith(s, rid, sorted, Paths(sorted));
    Paths(sorted)
  }

  /**
   * `xs` is the record's image rows rearranged into ascending order_index,
   * and `r` their paths in that order.
   */
  ghost predicate OrderedImagesWith(s: Store, rid: int, xs: seq<RecordImage>, r: seq<string>) {
    && multiset(xs) == multiset(Filter(s.images, OfRecord(rid)))
    && SortedBy(xs, ByOrderIndex())
    && r == Paths(xs)
  }

  /** The paths are those of some ordering of the record's image rows by order_index. */
  ghost predicate InOrderIndexOrder(s: Store, rid: int, r: seq<string>) {
    exists xs :: OrderedImagesWith(s, rid, xs, r)
  }

  lemma SortedImagesOfRecord(s: Store, rid: int, sorted: seq<RecordImage>)
    requires sorted == SortBy(Filter(s.images, OfRecord(rid)), ByOrderIndex())
    ensures forall k :: 0 <= k < |sorted| ==> sorted[k] in s.images && sorted[k].recordId == rid
  {
    SortMembers(Filter(s.images, OfRecord(rid)), ByOrderIndex());
    FilterMembers(s.images, OfRecord(rid));
  }

  /** A record with a single image row reads back as that one path. */
  lemma SingleImageRead(s: Store, rid: int, im: RecordImage)
    requires Filter(s.images, OfRecord(rid)) == [im]
    ensures RecordImagePaths(s, rid) == [im.path]
  {
    SortSorted([im], ByOrderIndex());
  }

  /**
   * Rows stored out of order come back by order_index, not in the order they
   * were inserted.
   */
  lemma TwoImagesReadByOrderIndex(s: Store, rid: int, late: RecordImage, early: RecordImage)
    requires Filter(s.images, OfRecord(rid)) == [late, early]
    requires early.orderIndex < late.orderIndex
    ensures RecordImagePaths(s, rid) == [early.path, late.path]
  {
    SortSwapsPair(late, early, ByOrderIndex());
    PathsOfPair(early, late);
  }

  lemma PathsOfPair(a: RecordImage, b: RecordImage)
    ensures Paths([a, b]) == [a.path, b.path]
  {
  }

  /**
   * The read-path fallback of every case query:
   * `test_steps or precondition or None`.
   */
  function NormalizedSteps(c: TestCase): Option<string> {
    Or(c.testSteps, Or(c.precondition, None))
  }
}
