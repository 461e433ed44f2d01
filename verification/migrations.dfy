/**
 * The startup migrations of `Database.create_tables` (src/database.py:75-136),
 * each a guarded transformation of the column sets and rows. A migration that
 * the engine refuses is skipped and the store stays usable.
 */
module Migrations {
  import opened Wrappers
  import opened Text
  import opened Seqs
  import opened Store
  import opened Cases

  function HasLegacyImage(): TestRecord -> bool {
    (r: TestRecord) => Truthy(r.legacyImage)
  }

  /**
   * The image rows the first migration inserts: one per record whose legacy
   * image_path is neither NULL nor empty, in scan order, with order_index 0.
   */
  function LegacyImageRows(records: seq<TestRecord>, next: int): (r: seq<RecordImage>)
    ensures forall k :: 0 <= k < |r| ==> r[k].imageId == next + k && r[k].orderIndex == 0
    ensures forall k :: 0 <= k < |r| ==>
      exists rec :: rec in records && rec.recordId == r[k].recordId && Truthy(rec.legacyImage)
                    && rec.legacyImage.value == r[k].path
  {
    var carrying := Filter(records, HasLegacyImage());
    assert forall k :: 0 <= k < |carrying| ==> carrying[k] in records && Truthy(carrying[k].legacyImage);
    seq(|carrying|, k requires 0 <= k < |carrying| =>
      RecordImage(next + k, carrying[k].recordId, carrying[k].legacyImage.value, 0))
  }

  function DropLegacyImage(records: seq<TestRecord>): (r: seq<TestRecord>)
    ensures |r| == |records|
    ensures forall i :: 0 <= i < |r| ==> r[i] == records[i].(legacyImage := None)
  {
    seq(|records|, i requires 0 <= i < |records| => records[i].(legacyImage := None))
  }

  /** The legacy image paths copied into record_images, the column still in place. */
  function CopyLegacyImages(s: Store): Store {
    var moved := LegacyImageRows(s.records, s.nextImageId);
    s.(images := s.images + moved, nextImageId := s.nextImageId + |moved|)
  }

  /** Copy the legacy paths, then `ALTER TABLE test_records DROP COLUMN image_path`. */
  function MoveLegacyImages(s: Store): Store {
    var copied := CopyLegacyImages(s);
    copied.(recordColumns := s.recordColumns - {LEGACY_IMAGE_COLUMN},
            records := DropLegacyImage(s.records))
  }

  /**
   * `_migrate_old_image_data` as the source runs it. `dropSupported` says
   * whether the engine accepts DROP COLUMN (SQLite before 3.35 does not). When
   * it refuses, the error is caught but the inserted image rows stay in the
   * open transaction, which the next commit on the connection makes durable,
   * and the legacy column stays.
   */
  function MigrateLegacyImagesAsWritten(s: Store, dropSupported: bool): (t: Store)
    ensures LEGACY_IMAGE_COLUMN !in s.recordColumns ==> t == s
    ensures LEGACY_IMAGE_COLUMN in s.recordColumns ==>
      t.images == s.images + LegacyImageRows(s.records, s.nextImageId)
    ensures LEGACY_IMAGE_COLUMN in t.recordColumns <==> LEGACY_IMAGE_COLUMN in s.recordColumns && !dropSupported
    ensures t.cases == s.cases && t.caseColumns == s.caseColumns
    ensures LEGACY_IMAGE_COLUMN in s.recordColumns && dropSupported ==>
      |t.records| == |s.records| && forall i :: 0 <= i < |s.records| ==> t.records[i] == s.records[i].(legacyImage := None)
    ensures LEGACY_IMAGE_COLUMN !in s.recordColumns || !dropSupported ==> t.records == s.records
  {
    if LEGACY_IMAGE_COLUMN !in s.recordColumns then s
    else if dropSupported then MoveLegacyImages(s)
    else CopyLegacyImages(s)
  }

  /** The first migration as a unit: when the column cannot be dropped, nothing changes. */
  function MigrateLegacyImages(s: Store, dropSupported: bool): (t: Store)
    ensures !dropSupported ==> t == s
    ensures dropSupported ==> LEGACY_IMAGE_COLUMN !in t.recordColumns
    ensures t.cases == s.cases && t.caseColumns == s.caseColumns
    ensures LEGACY_IMAGE_COLUMN !in s.recordColumns ==> t == s
    ensures LEGACY_IMAGE_COLUMN in s.recordColumns && dropSupported ==>
      && t.images == s.images + LegacyImageRows(s.records, s.nextImageId)
      && |t.records| == |s.records|
      && forall i :: 0 <= i < |s.records| ==> t.records[i] == s.records[i].(legacyImage := None)
  {
    if LEGACY_IMAGE_COLUMN !in s.recordColumns || !dropSupported then s
    else MoveLegacyImages(s)
  }

  /**
   * `_migrate_precondition_to_test_steps`: when test_cases has precondition but
   * no test_steps, add test_steps (NULL everywhere) and copy precondition into
   * every row whose test_steps is NULL.
   */
  function MigrateSteps(s: Store): (t: Store)
    ensures STEPS_COLUMN in t.caseColumns || PRECONDITION_COLUMN !in t.caseColumns
    ensures t.records == s.records && t.images == s.images && t.recordColumns == s.recordColumns
    ensures |t.cases| == |s.cases|
    ensures forall i :: 0 <= i < |s.cases| ==> t.cases[i].caseId == s.cases[i].caseId
    ensures STEPS_COLUMN !in s.caseColumns && PRECONDITION_COLUMN in s.caseColumns ==>
      && t.caseColumns == s.caseColumns + {STEPS_COLUMN}
      && forall i :: 0 <= i < |s.cases| ==> t.cases[i] == s.cases[i].(testSteps := s.cases[i].precondition)
    ensures STEPS_COLUMN in s.caseColumns || PRECONDITION_COLUMN !in s.caseColumns ==> t == s
  {
    if STEPS_COLUMN !in s.caseColumns && PRECONDITION_COLUMN in s.caseColumns then
      s.(caseColumns := s.caseColumns + {STEPS_COLUMN},
         cases := seq(|s.cases|, i requires 0 <= i < |s.cases| =>
           CopyPrecondition(s.cases[i].(testSteps := None))))
    else s
  }

  /** `UPDATE test_cases SET test_steps = precondition WHERE test_steps IS NULL`, on one row. */
  function CopyPrecondition(c: TestCase): TestCase {
    if c.testSteps.None? then c.(testSteps := c.precondition) else c
  }

  /** `_migrate_add_case_collection_name`: add the nullable collection column if missing. */
  function MigrateCollection(s: Store): (t: Store)
    ensures COLLECTION_COLUMN in t.caseColumns
    ensures t.records == s.records && t.images == s.images && t.recordColumns == s.recordColumns
    ensures |t.cases| == |s.cases|
    ensures forall i :: 0 <= i < |s.cases| ==> t.cases[i].caseId == s.cases[i].caseId
    ensures STEPS_COLUMN in s.caseColumns ==> STEPS_COLUMN in t.caseColumns
    ensures PRECONDITION_COLUMN in t.caseColumns ==> PRECONDITION_COLUMN in s.caseColumns
    ensures t.caseColumns == s.caseColumns + {COLLECTION_COLUMN}
    ensures forall i :: 0 <= i < |s.cases| ==> t.cases[i].(collection := s.cases[i].collection) == s.cases[i]
    ensures AbsentColumnsNull(s) ==> t.cases == s.cases
  {
    if COLLECTION_COLUMN !in s.caseColumns then
      s.(caseColumns := s.caseColumns + {COLLECTION_COLUMN},
         cases := seq(|s.cases|, i requires 0 <= i < |s.cases| => s.cases[i].(collection := None)))
    else s
  }

  /** Where the engine accepts DROP COLUMN, the first migration as written and as a unit agree. */
  lemma AsWrittenAgreesWhenDropped(s: Store)
    ensures MigrateLegacyImagesAsWritten(s, true) == MigrateLegacyImages(s, true)
  {
  }

  /**
   * What opening the store does after `CREATE TABLE IF NOT EXISTS`, with the
   * corrected first migration: the three migrations in order. The case table
   * ends with the collection column and, unless it only ever had precondition,
   * test_steps; no case row is added or lost. `OpenAsWritten` opens with the
   * first migration as written.
   */
  function Open(s: Store, dropSupported: bool): (t: Store)
    ensures COLLECTION_COLUMN in t.caseColumns
    ensures STEPS_COLUMN in t.caseColumns || PRECONDITION_COLUMN !in t.caseColumns
    ensures dropSupported ==> LEGACY_IMAGE_COLUMN !in t.recordColumns
    ensures !dropSupported ==> t.records == s.records && t.images == s.images && t.recordColumns == s.recordColumns
    ensures |t.cases| == |s.cases|
    ensures forall i :: 0 <= i < |s.cases| ==> t.cases[i].caseId == s.cases[i].caseId
    ensures AbsentColumnsNull(s) ==> forall i :: 0 <= i < |s.cases| ==>
      && ReadCase(t.cases[i]) == ReadCase(s.cases[i])
      && t.cases[i].(testSteps := s.cases[i].testSteps) == s.cases[i]
    ensures dropSupported && LEGACY_IMAGE_COLUMN in s.recordColumns ==>
      && t.images == s.images + LegacyImageRows(s.records, s.nextImageId)
      && |t.records| == |s.records|
      && forall i :: 0 <= i < |s.records| ==> t.records[i] == s.records[i].(legacyImage := None)
    ensures !dropSupported || LEGACY_IMAGE_COLUMN !in s.recordColumns ==> t.records == s.records && t.images == s.images
  {
    OpenKeepsCases(s, dropSupported);
    MigrateCollection(MigrateSteps(MigrateLegacyImages(s, dropSupported)))
  }

  /**
   * Opening with the first migration as written: the copied legacy image rows
   * are kept whether or not the drop succeeds, because the later migrations'
   * commits make them durable.
   */
  function OpenAsWritten(s: Store, dropSupported: bool): (t: Store)
    ensures LEGACY_IMAGE_COLUMN in s.recordColumns ==>
      t.images == s.images + LegacyImageRows(s.records, s.nextImageId)
    ensures LEGACY_IMAGE_COLUMN in s.recordColumns && !dropSupported ==>
      LEGACY_IMAGE_COLUMN in t.recordColumns && t.records == s.records
    ensures dropSupported || LEGACY_IMAGE_COLUMN !in s.recordColumns ==> t == Open(s, dropSupported)
    ensures COLLECTION_COLUMN in t.caseColumns
    ensures |t.cases| == |s.cases|
  {
    AsWrittenAgreesWhenDropped(s);
    MigrateCollection(MigrateSteps(MigrateLegacyImagesAsWritten(s, dropSupported)))
  }

  /** What opening does to the case rows of a well-formed store: only test_steps may change, and no read does. */
  lemma OpenKeepsCases(s: Store, dropSupported: bool)
    ensures var t := MigrateCollection(MigrateSteps(MigrateLegacyImages(s, dropSupported)));
      AbsentColumnsNull(s) ==> forall i :: 0 <= i < |s.cases| ==>
        && ReadCase(t.cases[i]) == ReadCase(s.cases[i])
        && t.cases[i].(testSteps := s.cases[i].testSteps) == s.cases[i]
  {
    var a := MigrateLegacyImages(s, dropSupported);
    var b := MigrateSteps(a);
    if AbsentColumnsNull(s) {
      assert a.cases == s.cases && a.caseColumns == s.caseColumns;
      MigrateStepsPreservesReads(a);
      assert AbsentColumnsNull(b) by {
        forall c | c in b.cases && COLLECTION_COLUMN !in b.caseColumns
          ensures c.collection.None?
        {
          var i :| 0 <= i < |b.cases| && b.cases[i] == c;
          assert b.cases[i].collection == a.cases[i].collection;
        }
      }
    }
  }

  /** Each migration checks for its target state first, so running it again changes nothing. */
  lemma MigrationsIdempotent(s: Store, dropSupported: bool)
    ensures MigrateLegacyImages(MigrateLegacyImages(s, dropSupported), dropSupported)
            == MigrateLegacyImages(s, dropSupported)
    ensures MigrateSteps(MigrateSteps(s)) == MigrateSteps(s)
    ensures MigrateCollection(MigrateCollection(s)) == MigrateCollection(s)
  {
  }

  /** Opening an already opened store is a no-op: migrations never run twice. */
  lemma OpenIdempotent(s: Store, dropSupported: bool)
    ensures Open(Open(s, dropSupported), dropSupported) == Open(s, dropSupported)
  {
    var a := MigrateLegacyImages(s, dropSupported);
    var b := MigrateSteps(a);
    var c := MigrateCollection(b);
    assert MigrateLegacyImages(c, dropSupported) == c;
    assert MigrateSteps(c) == c;
  }

  /** After opening, the case table has every column the queries write. */
  lemma OpenSchema(s: Store, dropSupported: bool)
    requires STEPS_COLUMN in s.caseColumns || PRECONDITION_COLUMN in s.caseColumns
    ensures var t := Open(s, dropSupported);
      && STEPS_COLUMN in t.caseColumns
      && COLLECTION_COLUMN in t.caseColumns
      && (dropSupported ==> LEGACY_IMAGE_COLUMN !in t.recordColumns)
  {
  }

  /** Moving test_steps out of precondition changes nothing a reader of a case sees. */
  lemma MigrateStepsPreservesReads(s: Store)
    requires AbsentColumnsNull(s)
    ensures var t := MigrateSteps(s);
      forall i :: 0 <= i < |s.cases| ==> ReadCase(t.cases[i]) == ReadCase(s.cases[i])
  {
  }

  /** The first migration keeps the store well formed and adds no orphan image. */
  lemma MigrateLegacyImagesValid(s: Store, dropSupported: bool)
    requires Valid(s) && NoOrphanImages(s)
    ensures Valid(MigrateLegacyImages(s, dropSupported))
    ensures NoOrphanImages(MigrateLegacyImages(s, dropSupported))
  {
    if LEGACY_IMAGE_COLUMN in s.recordColumns && dropSupported {
      var t := MoveLegacyImages(s);
      var moved := LegacyImageRows(s.records, s.nextImageId);
      assert t.images == s.images + moved && t.nextImageId == s.nextImageId + |moved|;
      AppendFreshImages(s.images, moved, s.nextImageId);
      assert RecordIdsAscending(t.records, t.nextRecordId) by {
        assert forall i :: 0 <= i < |t.records| ==> t.records[i].recordId == s.records[i].recordId;
      }
      MovedImagesHaveRecords(s, t, moved);
    }
  }

  /** Every image row after the move, old or new, belongs to a record still stored. */
  lemma MovedImagesHaveRecords(s: Store, t: Store, moved: seq<RecordImage>)
    requires NoOrphanImages(s)
    requires moved == LegacyImageRows(s.records, s.nextImageId)
    requires t.images == s.images + moved && t.records == DropLegacyImage(s.records)
    ensures NoOrphanImages(t)
  {
    forall im | im in t.images
      ensures HasRecord(s, im.recordId)
    {
      if im !in s.images {
        var k :| 0 <= k < |moved| && moved[k] == im;
      }
    }
    forall im | im in t.images
      ensures HasRecord(t, im.recordId)
    {
      SameIdsHaveRecords(s, t, im.recordId);
    }
  }

  /** A record id stored before the column drop is stored after it. */
  lemma SameIdsHaveRecords(s: Store, t: Store, rid: int)
    requires HasRecord(s, rid)
    requires t.records == DropLegacyImage(s.records)
    ensures HasRecord(t, rid)
  {
    var r :| r in s.records && r.recordId == rid;
    var i :| 0 <= i < |s.records| && s.records[i] == r;
    assert t.records[i].recordId == rid;
  }

  /** Opening keeps the store well formed. */
  lemma OpenValid(s: Store, dropSupported: bool)
    requires Valid(s) && NoOrphanImages(s)
    ensures Valid(Open(s, dropSupported)) && NoOrphanImages(Open(s, dropSupported))
  {
    MigrateLegacyImagesValid(s, dropSupported);
    var a := MigrateLegacyImages(s, dropSupported);
    var b := MigrateSteps(a);
    assert CaseIdsUnique(b.cases);
    var c := MigrateCollection(b);
    assert CaseIdsUnique(c.cases);
    assert forall im :: im in c.images ==> HasRecord(c, im.recordId) by {
      assert c.records == a.records && c.images == a.images;
    }
  }

  /** Exactly one moved row belongs to a record carrying a legacy image. */
  lemma {:induction false} MovedRowOfRecord(records: seq<TestRecord>, next: int, rec: TestRecord)
    requires StrictlyAscending(records, ById())
    requires rec in records && Truthy(rec.legacyImage)
    ensures var mine := Filter(LegacyImageRows(records, next), OfRecord(rec.recordId));
      |mine| == 1 && mine[0].path == rec.legacyImage.value && mine[0].orderIndex == 0
  {
    var moved := LegacyImageRows(records, next);
    var carrying := Filter(records, HasLegacyImage());
    var of := OfRecord(rec.recordId);
    FilterKeepsAscending(records, HasLegacyImage(), ById());
    var ri :| 0 <= ri < |records| && records[ri] == rec;
    assert HasLegacyImage()(records[ri]);
    var k :| 0 <= k < |carrying| && carrying[k] == rec;
    assert moved[k].recordId == rec.recordId;
    forall j | 0 <= j < |moved| && j != k
      ensures !of(moved[j])
    {
      assert moved[j].recordId == carrying[j].recordId;
      if j < k {
        assert ById()(carrying[j]) < ById()(carrying[k]);
      } else {
        assert ById()(carrying[k]) < ById()(carrying[j]);
      }
    }
    FilterSingle(moved, of, k);
  }

  /**
   * After a successful first migration a record's legacy image is what
   * `get_record_images` returns for it.
   */
  lemma {:induction false} MigratedImageIsRead(s: Store, rec: TestRecord)
    requires RecordIdsAscending(s.records, s.nextRecordId)
    requires LEGACY_IMAGE_COLUMN in s.recordColumns
    requires rec in s.records && Truthy(rec.legacyImage)
    requires Count(s.images, OfRecord(rec.recordId)) == 0
    ensures RecordImagePaths(MigrateLegacyImages(s, true), rec.recordId) == [rec.legacyImage.value]
  {
    var t := MoveLegacyImages(s);
    assert MigrateLegacyImages(s, true) == t;
    var moved := LegacyImageRows(s.records, s.nextImageId);
    var of := OfRecord(rec.recordId);
    assert t.images == s.images + moved;
    assert Filter(s.images, of) == [];
    FilterConcat(s.images, moved, of);
    assert StrictlyAscending(s.records, ById());
    MovedRowOfRecord(s.records, s.nextImageId, rec);
    var mine := Filter(moved, of);
    assert Filter(t.images, of) == [mine[0]];
    SingleImageRead(t, rec.recordId, mine[0]);
  }

  /**
   * The first migration as the source runs it is not idempotent when the
   * engine refuses DROP COLUMN: every start copies the legacy images again.
   */
  lemma {:induction false} AsWrittenDuplicatesOnRestart(s: Store, rec: TestRecord)
    requires LEGACY_IMAGE_COLUMN in s.recordColumns
    requires rec in s.records && Truthy(rec.legacyImage)
    ensures var once := MigrateLegacyImagesAsWritten(s, false);
      var twice := MigrateLegacyImagesAsWritten(once, false);
      |s.images| < |once.images| < |twice.images|
  {
    var ri :| 0 <= ri < |s.records| && s.records[ri] == rec;
    assert HasLegacyImage()(s.records[ri]);
    assert rec in Filter(s.records, HasLegacyImage());
  }

  /**
   * Without DROP COLUMN, every start of the program as written adds image rows
   * for a record still carrying a legacy image, while the corrected opening
   * adds none.
   */
  lemma {:induction false} OpenAsWrittenDuplicatesOnRestart(s: Store, rec: TestRecord)
    requires LEGACY_IMAGE_COLUMN in s.recordColumns
    requires rec in s.records && Truthy(rec.legacyImage)
    ensures Open(s, false).images == s.images
    ensures var once := OpenAsWritten(s, false);
      var twice := OpenAsWritten(once, false);
      |s.images| < |once.images| < |twice.images|
  {
    var ri :| 0 <= ri < |s.records| && s.records[ri] == rec;
    assert HasLegacyImage()(s.records[ri]);
    assert rec in Filter(s.records, HasLegacyImage());
    var once := OpenAsWritten(s, false);
    assert rec in once.records;
    assert rec in Filter(once.records, HasLegacyImage());
  }
}
