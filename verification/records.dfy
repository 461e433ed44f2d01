/**
 * The test_records / record_images side of `Database` (src/database.py:214-393):
 * creating and updating execution records with their ordered screenshots, and
 * reading one record back with its image list.
 */
module Records {
  import opened Wrappers
  import opened Seqs
  import opened Store

  /** A record as the queries return it: its row plus `images`, the ordered paths. */
  datatype RecordView = RecordView(record: TestRecord, images: seq<string>)

  function View(s: Store, r: TestRecord): RecordView {
    RecordView(r, RecordImagePaths(s, r.recordId))
  }

  function NonEmpty(): string -> bool {
    (p: string) => p != ""
  }

  /**
   * The image rows inserted for `paths` starting at list position `pos`: one
   * row per non-empty path, whose order_index is its position in the list, so
   * empty paths leave gaps. Image ids are handed out from `nextId`.
   */
  function PositionedImages(rid: int, paths: seq<string>, pos: int, nextId: int): (r: seq<RecordImage>)
    ensures forall k :: 0 <= k < |r| ==> r[k].recordId == rid && r[k].imageId == nextId + k
    ensures forall k :: 0 <= k < |r| ==> pos <= r[k].orderIndex < pos + |paths|
    ensures StrictlyAscending(r, ByOrderIndex())
    decreases |paths|
  {
    if |paths| == 0 then []
    else
      var rest := PositionedImages(rid, paths[1..], pos + 1, if paths[0] != "" then nextId + 1 else nextId);
      if paths[0] != "" then
        var r := [RecordImage(nextId, rid, paths[0], pos)] + rest;
        assert StrictlyAscending(r, ByOrderIndex()) by {
          forall i, j | 0 <= i < j < |r|
            ensures ByOrderIndex()(r[i]) < ByOrderIndex()(r[j])
          {
            assert r[j] == rest[j - 1];
            if i > 0 {
              assert r[i] == rest[i - 1];
            }
          }
        }
        r
      else rest
  }

  /** The inserted rows carry exactly the non-empty paths, in list order. */
  lemma PositionedPaths(rid: int, paths: seq<string>, pos: int, nextId: int)
    ensures Paths(PositionedImages(rid, paths, pos, nextId)) == Filter(paths, NonEmpty())
  {
    PositionedPathsHold(rid, paths, pos, nextId);
  }

  ghost predicate PathsKept(rid: int, paths: seq<string>, pos: int, nextId: int) {
    Paths(PositionedImages(rid, paths, pos, nextId)) == Filter(paths, NonEmpty())
  }

  lemma {:induction false} PositionedPathsHold(rid: int, paths: seq<string>, pos: int, nextId: int)
    ensures PathsKept(rid, paths, pos, nextId)
    decreases |paths|
  {
    if |paths| > 0 {
      var next := if paths[0] != "" then nextId + 1 else nextId;
      PositionedPathsHold(rid, paths[1..], pos + 1, next);
      var rest := PositionedImages(rid, paths[1..], pos + 1, next);
      assert Paths(rest) == Filter(paths[1..], NonEmpty());
      var keep := NonEmpty();
      var r := PositionedImages(rid, paths, pos, nextId);
      assert Filter(paths, keep) == (if keep(paths[0]) then [paths[0]] else []) + Filter(paths[1..], keep);
      if paths[0] != "" {
        assert r == [RecordImage(nextId, rid, paths[0], pos)] + rest;
        PathsCons(RecordImage(nextId, rid, paths[0], pos), rest);
      } else {
        assert r == rest;
      }
    }
  }

  /** Each row's path is the one at its order_index in `paths`, counted from `pos`. */
  ghost predicate AtPositions(r: seq<RecordImage>, paths: seq<string>, pos: int) {
    forall k :: 0 <= k < |r| ==>
      pos <= r[k].orderIndex < pos + |paths| && paths[r[k].orderIndex - pos] == r[k].path
  }

  /** Rows placed against the tail of a list, one position on, are placed against the whole list. */
  lemma AtPositionsShift(r: seq<RecordImage>, paths: seq<string>, pos: int)
    requires |paths| > 0 && AtPositions(r, paths[1..], pos + 1)
    ensures AtPositions(r, paths, pos)
  {
    forall k | 0 <= k < |r|
      ensures pos <= r[k].orderIndex < pos + |paths| && paths[r[k].orderIndex - pos] == r[k].path
    {
      var o := r[k].orderIndex;
      assert paths[1..][o - (pos + 1)] == r[k].path;
    }
  }

  /** Each inserted row's order_index is the position of its path in the list. */
  lemma PositionedIndexes(rid: int, paths: seq<string>, pos: int, nextId: int)
    ensures AtPositions(PositionedImages(rid, paths, pos, nextId), paths, pos)
  {
    PositionedIndexesHold(rid, paths, pos, nextId);
  }

  ghost predicate IndexesKept(rid: int, paths: seq<string>, pos: int, nextId: int) {
    AtPositions(PositionedImages(rid, paths, pos, nextId), paths, pos)
  }

  lemma {:induction false} PositionedIndexesHold(rid: int, paths: seq<string>, pos: int, nextId: int)
    ensures IndexesKept(rid, paths, pos, nextId)
    decreases |paths|
  {
    if |paths| > 0 {
      var next := if paths[0] != "" then nextId + 1 else nextId;
      PositionedIndexesHold(rid, paths[1..], pos + 1, next);
      var rest := PositionedImages(rid, paths[1..], pos + 1, next);
      assert AtPositions(rest, paths[1..], pos + 1);
      AtPositionsShift(rest, paths, pos);
      if paths[0] != "" {
        AtPositionsCons(RecordImage(nextId, rid, paths[0], pos), rest, paths, pos);
      }
    }
  }

  /** A row for the list's head at `pos`, in front of rows already placed, is placed too. */
  lemma AtPositionsCons(head: RecordImage, rest: seq<RecordImage>, paths: seq<string>, pos: int)
    requires |paths| > 0 && head.orderIndex == pos && head.path == paths[0]
    requires AtPositions(rest, paths, pos)
    ensures AtPositions([head] + rest, paths, pos)
  {
    var r := [head] + rest;
    forall k | 0 <= k < |r|
      ensures pos <= r[k].orderIndex < pos + |paths| && paths[r[k].orderIndex - pos] == r[k].path
    {
      if k > 0 {
        assert r[k] == rest[k - 1];
      }
    }
  }

  /** Image rows for a whole list, positions from 0. */
  function ImagesFor(rid: int, paths: seq<string>, nextId: int): seq<RecordImage> {
    PositionedImages(rid, paths, 0, nextId)
  }

  /** A record whose image rows are already in order_index order reads back in scan order. */
  lemma SortedImagesRead(s: Store, rid: int, xs: seq<RecordImage>)
    requires Filter(s.images, OfRecord(rid)) == xs
    requires SortedBy(xs, ByOrderIndex())
    ensures RecordImagePaths(s, rid) == Paths(xs)
  {
    SortSorted(xs, ByOrderIndex());
  }

  /** Reading back images inserted for an otherwise image-less record yields the non-empty paths in list order. */
  lemma {:induction false} FreshImagesRead(s: Store, rid: int, paths: seq<string>)
    requires Filter(s.images, OfRecord(rid)) == []
    ensures var t := s.(images := s.images + ImagesFor(rid, paths, s.nextImageId));
      RecordImagePaths(t, rid) == Filter(paths, NonEmpty())
  {
    var added := ImagesFor(rid, paths, s.nextImageId);
    var t := s.(images := s.images + added);
    assert Filter(t.images, OfRecord(rid)) == added by {
      FilterConcat(s.images, added, OfRecord(rid));
      FilterAll(added, OfRecord(rid));
    }
    AscendingIsSorted(added, ByOrderIndex());
    SortedImagesRead(t, rid, added);
    PositionedPaths(rid, paths, 0, s.nextImageId);
  }

  /** Appending another record's images leaves a record's image list as it was. */
  lemma {:induction false} OtherImagesRead(s: Store, rid: int, added: seq<RecordImage>)
    requires forall im :: im in added ==> im.recordId != rid
    ensures RecordImagePaths(s.(images := s.images + added), rid) == RecordImagePaths(s, rid)
  {
    FilterConcat(s.images, added, OfRecord(rid));
    FilterNone(added, OfRecord(rid));
    assert Filter(s.images + added, OfRecord(rid)) == Filter(s.images, OfRecord(rid));
  }

  datatype Saved = Saved(store: Store, recordId: int)

  /**
   * `save_test_record(case_id, status, actual_result, notes, image_paths,
   * executor)`, with the clock reading `now` passed in. A `None` image list
   * and an empty one insert nothing alike.
   */
  function SaveTestRecord(s: Store, caseId: string, status: string, actualResult: string, notes: string,
                          imagePaths: seq<string>, executor: string, now: int): (r: Saved)
    requires Valid(s)
    ensures Valid(r.store)
    ensures !HasRecord(s, r.recordId) && HasRecord(r.store, r.recordId)
    ensures r.store.cases == s.cases
    ensures forall old_r :: old_r in s.records ==> old_r in r.store.records && old_r.recordId < r.recordId
    ensures |r.store.records| == |s.records| + 1
    ensures NoOrphanImages(s) ==> NoOrphanImages(r.store)
    ensures forall im :: im in s.images ==> im in r.store.images
    ensures forall other :: other != r.recordId ==> RecordImagePaths(r.store, other) == RecordImagePaths(s, other)
  {
    var rid := s.nextRecordId;
    var row := TestRecord(rid, caseId, status, Some(actualResult), Some(notes), Some(executor), now, None);
    var added := ImagesFor(rid, imagePaths, s.nextImageId);
    var t := s.(records := s.records + [row], nextRecordId := rid + 1,
                images := s.images + added, nextImageId := s.nextImageId + |added|);
    assert row in t.records;
    assert forall old_r :: old_r in s.records ==> old_r in t.records;
    assert forall im :: im in added ==> HasRecord(t, im.recordId);
    SaveKeepsOtherImages(s, t, rid, added);
    Saved(t, rid)
  }

  /** Saving only appends image rows of the new record: every other record reads its images as before. */
  lemma SaveKeepsOtherImages(s: Store, t: Store, rid: int, added: seq<RecordImage>)
    requires t.images == s.images + added
    requires forall im :: im in added ==> im.recordId == rid
    ensures forall other :: other != rid ==> RecordImagePaths(t, other) == RecordImagePaths(s, other)
  {
    forall other | other != rid
      ensures RecordImagePaths(t, other) == RecordImagePaths(s, other)
    {
      OtherImagesRead(s, other, added);
      assert RecordImagePaths(t, other) == RecordImagePaths(s.(images := s.images + added), other);
    }
  }

  /** `get_test_record`: the row and its ordered image paths, or None. */
  function GetTestRecord(s: Store, rid: int): (r: Option<RecordView>)
    ensures r.None? <==> !HasRecord(s, rid)
    ensures r.Some? ==> r.value.record in s.records && r.value.record.recordId == rid
                        && r.value.images == RecordImagePaths(s, rid)
  {
    match FindRecord(s.records, rid)
    case Some(rec) => Some(View(s, rec))
    case None => None
  }

  /**
   * A saved record reads back with the fields given, `timestamp == now`, and
   * the non-empty image paths in list order.
   */
  lemma SaveThenRead(s: Store, caseId: string, status: string, actualResult: string, notes: string,
                     imagePaths: seq<string>, executor: string, now: int)
    requires Valid(s) && NoOrphanImages(s)
    ensures var saved := SaveTestRecord(s, caseId, status, actualResult, notes, imagePaths, executor, now);
      GetTestRecord(saved.store, saved.recordId) == Some(RecordView(
        TestRecord(saved.recordId, caseId, status, Some(actualResult), Some(notes), Some(executor), now, None),
        Filter(imagePaths, NonEmpty())))
  {
    var saved := SaveTestRecord(s, caseId, status, actualResult, notes, imagePaths, executor, now);
    var rid := s.nextRecordId;
    assert Filter(s.images, OfRecord(rid)) == [] by {
      forall im | im in s.images
        ensures !OfRecord(rid)(im)
      {
        assert HasRecord(s, im.recordId);
      }
      FilterNone(s.images, OfRecord(rid));
    }
    FreshImagesRead(s.(records := saved.store.records, nextRecordId := rid + 1), rid, imagePaths);
    var rec := FindRecord(saved.store.records, rid);
    assert rec.value == saved.store.records[|s.records|];
  }

  /** A field of an update: `value if value is not None else current`. */
  function Supplied<T>(value: Option<T>, current: T): T {
    if value.Some? then value.value else current
  }

  /** The UPDATE of `update_test_record` on one row: only supplied fields, and always the timestamp. */
  function ApplyUpdate(r: TestRecord, status: Option<string>, actualResult: Option<string>, notes: Option<string>,
                       executor: Option<string>, now: int): TestRecord {
    r.(status := Supplied(status, r.status),
       actualResult := if actualResult.Some? then actualResult else r.actualResult,
       notes := if notes.Some? then notes else r.notes,
       executor := if executor.Some? then executor else r.executor,
       timestamp := now)
  }

  datatype Updated = Updated(store: Store, ok: bool)

  /**
   * `update_test_record(record_id, status, actual_result, notes, image_paths,
   * executor)`. The image rows are replaced exactly when a list, even an
   * empty one, is supplied. The image statements run even when no record has
   * `record_id`.
   */
  function UpdateTestRecord(s: Store, rid: int, status: Option<string>, actualResult: Option<string>,
                            notes: Option<string>, executor: Option<string>, imagePaths: Option<seq<string>>,
                            now: int): (r: Updated)
    requires Valid(s)
    ensures r.ok
    ensures Valid(r.store)
    ensures r.store.cases == s.cases && r.store.nextRecordId == s.nextRecordId
    ensures |r.store.records| == |s.records|
    ensures forall i :: 0 <= i < |s.records| && s.records[i].recordId != rid ==>
      r.store.records[i] == s.records[i]
    ensures forall i :: 0 <= i < |s.records| && s.records[i].recordId == rid ==>
      var before, after := s.records[i], r.store.records[i];
      && after.recordId == rid && after.caseId == before.caseId
      && after.timestamp == now
      && after.status == (if status.Some? then status.value else before.status)
      && after.actualResult == (if actualResult.Some? then actualResult else before.actualResult)
      && after.notes == (if notes.Some? then notes else before.notes)
      && after.executor == (if executor.Some? then executor else before.executor)
      && after.legacyImage == before.legacyImage
    ensures imagePaths.None? ==> r.store.images == s.images
  {
    var records := seq(|s.records|, i requires 0 <= i < |s.records| =>
      if s.records[i].recordId == rid then ApplyUpdate(s.records[i], status, actualResult, notes, executor, now)
      else s.records[i]);
    if imagePaths.None? then Updated(s.(records := records), true)
    else
      var kept := Filter(s.images, NotOfRecord(rid));
      var added := ImagesFor(rid, imagePaths.value, s.nextImageId);
      assert StrictlyAscending(s.images, (im: RecordImage) => im.imageId);
      FilterKeepsAscending(s.images, NotOfRecord(rid), (im: RecordImage) => im.imageId);
      Updated(s.(records := records, images := kept + added, nextImageId := s.nextImageId + |added|), true)
  }

  /** The image table after replacing one record's images by a list. */
  function ReplaceImages(s: Store, rid: int, paths: seq<string>): seq<RecordImage> {
    Filter(s.images, NotOfRecord(rid)) + ImagesFor(rid, paths, s.nextImageId)
  }

  lemma {:induction false} ReplacedImagesRead(s: Store, rid: int, paths: seq<string>, other: int)
    requires other != rid
    ensures RecordImagePaths(s.(images := ReplaceImages(s, rid, paths)), rid) == Filter(paths, NonEmpty())
    ensures RecordImagePaths(s.(images := ReplaceImages(s, rid, paths)), other) == RecordImagePaths(s, other)
  {
    var kept := Filter(s.images, NotOfRecord(rid));
    var added := ImagesFor(rid, paths, s.nextImageId);
    var base := s.(images := kept);
    assert base.(images := base.images + added) == s.(images := ReplaceImages(s, rid, paths));
    FilterNone(kept, OfRecord(rid));
    FreshImagesRead(base, rid, paths);
    assert forall im :: im in added ==> im.recordId != other;
    OtherImagesRead(base, other, added);
    FilterOfFilter(s.images, NotOfRecord(rid), OfRecord(other));
    assert Filter(base.images, OfRecord(other)) == Filter(s.images, OfRecord(other));
  }

  /**
   * Supplying an image list replaces the record's images by the list's
   * non-empty paths in order; every other record keeps its images.
   */
  lemma UpdateReplacesImages(s: Store, rid: int, status: Option<string>, actualResult: Option<string>,
                             notes: Option<string>, executor: Option<string>, paths: seq<string>, now: int, other: int)
    requires Valid(s) && other != rid
    ensures var t := UpdateTestRecord(s, rid, status, actualResult, notes, executor, Some(paths), now).store;
      && RecordImagePaths(t, rid) == Filter(paths, NonEmpty())
      && RecordImagePaths(t, other) == RecordImagePaths(s, other)
  {
    var t := UpdateTestRecord(s, rid, status, actualResult, notes, executor, Some(paths), now).store;
    var u := s.(images := ReplaceImages(s, rid, paths));
    assert t.images == u.images;
    ReplacedImagesRead(s, rid, paths, other);
    assert RecordImagePaths(t, rid) == RecordImagePaths(u, rid);
    assert RecordImagePaths(t, other) == RecordImagePaths(u, other);
  }

  /** Updating an existing record keeps every image attached to an existing record. */
  lemma UpdateKeepsNoOrphans(s: Store, rid: int, status: Option<string>, actualResult: Option<string>,
                             notes: Option<string>, executor: Option<string>, paths: Option<seq<string>>, now: int)
    requires Valid(s) && NoOrphanImages(s) && HasRecord(s, rid)
    ensures NoOrphanImages(UpdateTestRecord(s, rid, status, actualResult, notes, executor, paths, now).store)
  {
    var t := UpdateTestRecord(s, rid, status, actualResult, notes, executor, paths, now).store;
    forall im | im in t.images
      ensures HasRecord(t, im.recordId)
    {
      var id := im.recordId;
      if paths.Some? && im !in s.images {
        var k :| 0 <= k < |ImagesFor(rid, paths.value, s.nextImageId)| && ImagesFor(rid, paths.value, s.nextImageId)[k] == im;
        assert id == rid;
      } else {
        assert im in s.images;
      }
      var r :| r in s.records && r.recordId == id;
      var i :| 0 <= i < |s.records| && s.records[i] == r;
      assert t.records[i].recordId == id;
    }
  }

  /**
   * Updating a record id that does not exist with a non-empty path still
   * inserts image rows, which then belong to no record.
   */
  lemma UpdateOfMissingRecordOrphansImages(s: Store, rid: int, paths: seq<string>, now: int, k: int)
    requires Valid(s) && !HasRecord(s, rid)
    requires 0 <= k < |paths| && paths[k] != ""
    ensures var t := UpdateTestRecord(s, rid, None, None, None, None, Some(paths), now).store;
      !NoOrphanImages(t) && t.records == s.records
  {
    var t := UpdateTestRecord(s, rid, None, None, None, None, Some(paths), now).store;
    var added := ImagesFor(rid, paths, s.nextImageId);
    assert NonEmpty()(paths[k]);
    assert paths[k] in Filter(paths, NonEmpty());
    PositionedPaths(rid, paths, 0, s.nextImageId);
    assert |Paths(added)| > 0;
    assert added[0] in t.images;
    assert !HasRecord(t, rid) by {
      assert forall r :: r in t.records ==> r in s.records by {
        forall r | r in t.records
          ensures r in s.records
        {
          var i :| 0 <= i < |t.records| && t.records[i] == r;
          assert s.records[i].recordId != rid;
        }
      }
    }
    assert t.records == s.records;
  }
}
