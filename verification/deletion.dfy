/**
 * Cascading deletion (src/database.py:499-545): a case goes together with
 * its records and their images; a collection goes case by case, each case
 * in its own transaction.
 */
module Deletion {
  import opened Wrappers
  import opened Seqs
  import opened Store
  import opened Cases
  import opened Queries

  /** Prefix of the error `delete_test_case` raises after rolling back. */
  const DELETE_CASE_FAILED := "删除测试用例失败: "

  /** Some record of a case in `gone` carries record id `rid`. */
  predicate Doomed(records: seq<TestRecord>, gone: set<string>, rid: int) {
    exists r :: r in records && r.caseId in gone && r.recordId == rid
  }

  ghost predicate CasesRemoved(before: seq<TestCase>, after: seq<TestCase>, gone: set<string>) {
    && (forall c :: c in after ==> c in before && c.caseId !in gone)
    && (forall c :: c in before && c.caseId !in gone ==> c in after)
  }

  ghost predicate RecordsRemoved(before: seq<TestRecord>, after: seq<TestRecord>, gone: set<string>) {
    && (forall r :: r in after ==> r in before && r.caseId !in gone)
    && (forall r :: r in before && r.caseId !in gone ==> r in after)
  }

  ghost predicate ImagesRemoved(records: seq<TestRecord>, before: seq<RecordImage>, after: seq<RecordImage>,
                                gone: set<string>) {
    && (forall im :: im in after ==> im in before && !Doomed(records, gone, im.recordId))
    && (forall im :: im in before && !Doomed(records, gone, im.recordId) ==> im in after)
  }

  /**
   * `t` is `s` without the cases whose ids are in `gone`, their records and
   * every image carrying one of those records' ids; nothing else differs.
   */
  ghost predicate Removed(s: Store, t: Store, gone: set<string>) {
    && CasesRemoved(s.cases, t.cases, gone)
    && RecordsRemoved(s.records, t.records, gone)
    && ImagesRemoved(s.records, s.images, t.images, gone)
    && t.caseColumns == s.caseColumns && t.recordColumns == s.recordColumns
    && t.nextRecordId == s.nextRecordId && t.nextImageId == s.nextImageId
  }

  function NotDoomed(records: seq<TestRecord>, id: string): RecordImage -> bool {
    (im: RecordImage) => !Doomed(records, {id}, im.recordId)
  }

  function RecordNotOf(id: string): TestRecord -> bool {
    (r: TestRecord) => r.caseId != id
  }

  function CaseNot(id: string): TestCase -> bool {
    (c: TestCase) => c.caseId != id
  }

  /** The three DELETE statements of one successful `delete_test_case`. */
  function RemoveCase(s: Store, id: string): (t: Store)
    ensures Removed(s, t, {id})
  {
    var t := s.(cases := Filter(s.cases, CaseNot(id)), records := Filter(s.records, RecordNotOf(id)),
                images := Filter(s.images, NotDoomed(s.records, id)));
    FiltersRemove(s, t, id);
    t
  }

  lemma FiltersRemove(s: Store, t: Store, id: string)
    requires t == s.(cases := Filter(s.cases, CaseNot(id)), records := Filter(s.records, RecordNotOf(id)),
                     images := Filter(s.images, NotDoomed(s.records, id)))
    ensures Removed(s, t, {id})
  {
    FilterMembers(s.cases, CaseNot(id));
    FilterMembers(s.records, RecordNotOf(id));
    FilterMembers(s.images, NotDoomed(s.records, id));
    assert CasesRemoved(s.cases, t.cases, {id});
    assert RecordsRemoved(s.records, t.records, {id});
    assert ImagesRemoved(s.records, s.images, t.images, {id});
  }

  /**
   * `delete_test_case(case_id)`. A failing statement (`fault`, the engine's
   * message) rolls the transaction back and raises; deleting an id that is
   * not stored succeeds and changes nothing.
   */
  function DeleteCase(s: Store, id: string, fault: Option<string>): (r: Result<Store, string>)
    ensures fault.Some? ==> r == Err(DELETE_CASE_FAILED + fault.value)
    ensures fault.None? ==> r.Ok? && Removed(s, r.value, {id})
  {
    if fault.Some? then Err(DELETE_CASE_FAILED + fault.value) else Ok(RemoveCase(s, id))
  }

  /** Removing cases leaves no image without its record. */
  lemma RemovedKeepsNoOrphans(s: Store, t: Store, gone: set<string>)
    requires Removed(s, t, gone) && NoOrphanImages(s)
    ensures NoOrphanImages(t)
  {
    forall im | im in t.images
      ensures HasRecord(t, im.recordId)
    {
      assert HasRecord(s, im.recordId);
      var r :| r in s.records && r.recordId == im.recordId;
      assert r.caseId !in gone;
      assert r in t.records;
    }
  }

  /** The deletes keep the primary key and the AUTOINCREMENT order. */
  lemma RemoveCaseValid(s: Store, id: string)
    requires Valid(s)
    ensures Valid(RemoveCase(s, id))
  {
    var t := RemoveCase(s, id);
    assert DistinctBy(s.cases, CaseKey());
    FilterKeepsDistinct(s.cases, CaseNot(id), CaseKey());
    assert StrictlyAscending(s.records, ById());
    FilterKeepsAscending(s.records, RecordNotOf(id), ById());
    assert StrictlyAscending(s.images, ByImageId());
    FilterKeepsAscending(s.images, NotDoomed(s.records, id), ByImageId());
    assert StrictlyAscending(t.records, ById());
    assert StrictlyAscending(t.images, ByImageId());
  }

  /** Deleting the same case twice is deleting it once. */
  lemma RemoveCaseIdempotent(s: Store, id: string)
    ensures RemoveCase(RemoveCase(s, id), id) == RemoveCase(s, id)
  {
    var t := RemoveCase(s, id);
    FilterAll(t.cases, CaseNot(id));
    FilterAll(t.records, RecordNotOf(id));
    forall im | im in t.images
      ensures NotDoomed(t.records, id)(im)
    {
      assert forall r :: r in t.records ==> r.caseId !in {id};
    }
    FilterAll(t.images, NotDoomed(t.records, id));
  }

  /** Deleting a case that has neither a row nor records changes nothing. */
  lemma RemoveAbsentCase(s: Store, id: string)
    requires forall c :: c in s.cases ==> c.caseId != id
    requires forall r :: r in s.records ==> r.caseId != id
    ensures RemoveCase(s, id) == s
  {
    FilterAll(s.cases, CaseNot(id));
    FilterAll(s.records, RecordNotOf(id));
    forall im | im in s.images
      ensures NotDoomed(s.records, id)(im)
    {
      assert forall r :: r in s.records ==> r.caseId !in {id};
    }
    FilterAll(s.images, NotDoomed(s.records, id));
  }

  /**
   * After a successful delete the case reads as missing, no record names
   * it, and none of its former records has an image left.
   */
  lemma DeletedCaseIsGone(s: Store, id: string, rec: TestRecord)
    requires rec in s.records && rec.caseId == id
    ensures var t := RemoveCase(s, id);
      && GetTestCase(t, id).None?
      && (forall r :: r in t.records ==> r.caseId != id)
      && RecordImagePaths(t, rec.recordId) == []
  {
    var t := RemoveCase(s, id);
    forall im | im in t.images
      ensures !OfRecord(rec.recordId)(im)
    {
      assert !Doomed(s.records, {id}, im.recordId);
    }
    FilterNone(t.images, OfRecord(rec.recordId));
    assert RecordImagePaths(t, rec.recordId) == Paths(SortBy(Filter(t.images, OfRecord(rec.recordId)), ByOrderIndex()));
  }

  /** After a successful delete, querying records by that case id lists nothing. */
  lemma DeletedCaseHasNoRecords(s: Store, id: string)
    requires id != ""
    ensures GetTestRecords(RemoveCase(s, id), RecordFilter(Some(id), None, None, None)) == []
  {
    var t := RemoveCase(s, id);
    var f := RecordFilter(Some(id), None, None, None);
    forall r | r in t.records
      ensures !Admitting(f)(r)
    {
      assert r.caseId != id;
    }
    FilterNone(t.records, Admitting(f));
    var listed := GetTestRecords(t, f);
    assert |multiset(RecordsOf(listed))| == 0;
  }

  // ---------------------------------------------------------- collections

  lemma RemovedNothing(s: Store)
    ensures Removed(s, s, {})
  {
    assert forall rid :: !Doomed(s.records, {}, rid);
  }

  /** Two deletions in a row remove the union of what each removed. */
  lemma RemovedCompose(s: Store, t: Store, u: Store, a: set<string>, b: set<string>)
    requires Removed(s, t, a) && Removed(t, u, b)
    ensures Removed(s, u, a + b)
  {
    forall im | im in u.images
      ensures im in s.images && !Doomed(s.records, a + b, im.recordId)
    {
      assert im in t.images && !Doomed(t.records, b, im.recordId);
      forall r | r in s.records && r.caseId in a + b
        ensures r.recordId != im.recordId
      {
        if r.caseId !in a {
          assert r in t.records;
        }
      }
    }
    forall im | im in s.images && !Doomed(s.records, a + b, im.recordId)
      ensures im in u.images
    {
      assert im in t.images;
      forall r | r in t.records && r.caseId in b
        ensures r.recordId != im.recordId
      {
        assert r in s.records;
      }
    }
  }

  function Elems(ids: seq<string>): set<string> {
    set x | x in ids
  }

  /**
   * `SELECT case_id FROM test_cases WHERE case_collection_name = ?` in scan
   * order; a `None` name compares with NULL and selects nothing.
   */
  function CollectionCaseIds(s: Store, name: Option<string>): (ids: seq<string>)
    ensures forall i :: 0 <= i < |ids| ==> IsCollectionCase(s, name, ids[i])
    ensures name.Some? ==> forall c :: c in s.cases && c.collection == name ==> c.caseId in ids
    ensures name.None? ==> ids == []
    ensures CaseIdsUnique(s.cases) ==> forall i, j :: 0 <= i < j < |ids| ==> ids[i] != ids[j]
  {
    if name.None? then []
    else
      var members := Filter(s.cases, InCollection(name.value));
      var ids := IdsOf(members);
      MemberIdsSound(s, name, members);
      MemberIdsComplete(s, name.value, members);
      MemberIdsDistinct(s, name.value, members);
      ids
  }

  /** The case ids of `cases`, in order. */
  function IdsOf(cases: seq<TestCase>): (ids: seq<string>)
    ensures |ids| == |cases|
    ensures forall i :: 0 <= i < |cases| ==> ids[i] == cases[i].caseId
  {
    seq(|cases|, i requires 0 <= i < |cases| => cases[i].caseId)
  }

  /** `id` names a stored case of collection `name`. */
  ghost predicate IsCollectionCase(s: Store, name: Option<string>, id: string) {
    exists c :: c in s.cases && c.collection == name && c.caseId == id
  }

  lemma MemberIdsSound(s: Store, name: Option<string>, members: seq<TestCase>)
    requires name.Some? && members == Filter(s.cases, InCollection(name.value))
    ensures forall i :: 0 <= i < |members| ==> IsCollectionCase(s, name, IdsOf(members)[i])
  {
    forall i | 0 <= i < |members|
      ensures IsCollectionCase(s, name, IdsOf(members)[i])
    {
      var c := members[i];
      assert InCollection(name.value)(c);
      assert c in s.cases && c.collection == name && c.caseId == IdsOf(members)[i];
    }
  }

  lemma MemberIdsComplete(s: Store, name: string, members: seq<TestCase>)
    requires members == Filter(s.cases, InCollection(name))
    ensures forall c :: c in s.cases && c.collection == Some(name) ==> c.caseId in IdsOf(members)
  {
    var ids := IdsOf(members);
    forall c | c in s.cases && c.collection == Some(name)
      ensures c.caseId in ids
    {
      var i :| 0 <= i < |s.cases| && s.cases[i] == c;
      assert InCollection(name)(s.cases[i]);
      var k :| 0 <= k < |members| && members[k] == c;
      assert ids[k] == c.caseId;
    }
  }

  lemma MemberIdsDistinct(s: Store, name: string, members: seq<TestCase>)
    requires members == Filter(s.cases, InCollection(name))
    ensures CaseIdsUnique(s.cases) ==>
      forall i, j :: 0 <= i < j < |members| ==> IdsOf(members)[i] != IdsOf(members)[j]
  {
    if CaseIdsUnique(s.cases) {
      var ids := IdsOf(members);
      assert DistinctBy(s.cases, CaseKey());
      FilterKeepsDistinct(s.cases, InCollection(name), CaseKey());
      assert forall i :: 0 <= i < |ids| ==> ids[i] == CaseKey()(members[i]);
    }
  }

  datatype CollectionDeletion = CollectionDeletion(store: Store, error: Option<string>)

  /** The loop stopped at `ids[k]`, the first failing case, after committing the cases before it. */
  ghost predicate StoppedAt(s: Store, ids: seq<string>, faults: map<string, string>, r: CollectionDeletion, k: int) {
    && 0 <= k < |ids| && ids[k] in faults
    && (forall i :: 0 <= i < k ==> ids[i] !in faults)
    && r.error == Some(DELETE_CASE_FAILED + faults[ids[k]])
    && Removed(s, r.store, Elems(ids[..k]))
  }

  function FaultOf(faults: map<string, string>, id: string): Option<string> {
    if id in faults then Some(faults[id]) else None
  }

  /**
   * The loop of `delete_collection`: one `delete_test_case` per id, each
   * committed on its own. The first failure propagates (its exception is
   * not an `sqlite3.Error`, so the outer handler does not catch it): the
   * cases before it stay deleted, the rest stay stored.
   */
  function RemoveEach(s: Store, ids: seq<string>, faults: map<string, string>): (r: CollectionDeletion)
    ensures r.error.None? <==> forall i :: 0 <= i < |ids| ==> ids[i] !in faults
    ensures r.error.None? ==> Removed(s, r.store, Elems(ids))
    ensures r.error.Some? ==> exists k :: StoppedAt(s, ids, faults, r, k)
    decreases |ids|
  {
    if |ids| == 0 then
      RemovedNothing(s);
      assert Elems(ids) == {};
      CollectionDeletion(s, None)
    else
      match DeleteCase(s, ids[0], FaultOf(faults, ids[0]))
      case Err(e) =>
        StoppedAtFirst(s, ids, faults);
        CollectionDeletion(s, Some(e))
      case Ok(t) =>
        var rest := RemoveEach(t, ids[1..], faults);
        assert forall i :: 1 <= i < |ids| ==> ids[1..][i - 1] == ids[i];
        if rest.error.None? then
          RemovedCompose(s, t, rest.store, {ids[0]}, Elems(ids[1..]));
          ElemsCons(ids);
          rest
        else
          assert exists k :: StoppedAt(s, ids, faults, rest, k) by {
            var k :| StoppedAt(t, ids[1..], faults, rest, k);
            StoppedAtStep(s, t, ids, faults, rest, k);
          }
          rest
  }

  lemma StoppedAtFirst(s: Store, ids: seq<string>, faults: map<string, string>)
    requires |ids| > 0 && ids[0] in faults
    ensures StoppedAt(s, ids, faults, CollectionDeletion(s, Some(DELETE_CASE_FAILED + faults[ids[0]])), 0)
  {
    RemovedNothing(s);
    assert Elems(ids[..0]) == {};
  }

  lemma ElemsCons(ids: seq<string>)
    requires |ids| > 0
    ensures Elems(ids) == {ids[0]} + Elems(ids[1..])
  {
    assert ids == [ids[0]] + ids[1..];
  }

  /** A stop in the tail of the loop is a stop of the whole loop, one position later. */
  lemma StoppedAtStep(s: Store, t: Store, ids: seq<string>, faults: map<string, string>, r: CollectionDeletion, k: int)
    requires |ids| > 0 && ids[0] !in faults && Removed(s, t, {ids[0]})
    requires StoppedAt(t, ids[1..], faults, r, k)
    ensures StoppedAt(s, ids, faults, r, k + 1)
  {
    RemovedCompose(s, t, r.store, {ids[0]}, Elems(ids[1..][..k]));
    assert ids[..k + 1] == [ids[0]] + ids[1..][..k];
    ElemsCons(ids[..k + 1]);
    assert forall i :: 1 <= i < k + 1 ==> ids[i] == ids[1..][i - 1];
  }

  /**
   * `delete_collection(collection_name)`; `faults` maps the case ids whose
   * deletion fails to the engine's message.
   */
  function DeleteCollection(s: Store, name: Option<string>, faults: map<string, string>): (r: CollectionDeletion)
    ensures name.None? ==> r == CollectionDeletion(s, None)
  {
    RemoveEach(s, CollectionCaseIds(s, name), faults)
  }

  /**
   * Without failures, no case of the collection remains, every other case
   * does, and the name drops out of the collection list.
   */
  lemma DeleteCollectionEmptiesIt(s: Store, name: string, faults: map<string, string>)
    requires CaseIdsUnique(s.cases)
    requires DeleteCollection(s, Some(name), faults).error.None?
    ensures var t := DeleteCollection(s, Some(name), faults).store;
      && (forall c :: c in t.cases ==> c.collection != Some(name))
      && (forall c :: c in s.cases && c.collection != Some(name) ==> c in t.cases)
      && name !in GetAllCollectionNames(t)
  {
    var ids := CollectionCaseIds(s, Some(name));
    var t := DeleteCollection(s, Some(name), faults).store;
    assert Removed(s, t, Elems(ids));
    forall c | c in t.cases
      ensures c.collection != Some(name)
    {
      assert c in s.cases;
    }
    forall c | c in s.cases && c.collection != Some(name)
      ensures c in t.cases
    {
      assert c.caseId !in Elems(ids);
    }
  }

  /**
   * A failure part-way leaves every case from the failing one onwards
   * stored, records and all.
   */
  lemma FailedCollectionDeletionKeepsTheRest(s: Store, name: string, faults: map<string, string>)
    requires CaseIdsUnique(s.cases)
    requires DeleteCollection(s, Some(name), faults).error.Some?
    ensures var ids := CollectionCaseIds(s, Some(name));
      var t := DeleteCollection(s, Some(name), faults).store;
      exists k :: 0 <= k < |ids| && ids[k] in faults
        && (forall c :: c in s.cases && c.caseId in ids[k..] ==> c in t.cases)
        && (forall r :: r in s.records && r.caseId in ids[k..] ==> r in t.records)
  {
    var ids := CollectionCaseIds(s, Some(name));
    var r := DeleteCollection(s, Some(name), faults);
    var k :| StoppedAt(s, ids, faults, r, k);
    DistinctSplit(ids, k);
  }

  lemma DistinctSplit(ids: seq<string>, k: int)
    requires 0 <= k <= |ids|
    requires forall i, j :: 0 <= i < j < |ids| ==> ids[i] != ids[j]
    ensures forall x :: x in ids[k..] ==> x !in Elems(ids[..k])
  {
    forall x | x in ids[k..]
      ensures x !in Elems(ids[..k])
    {
      var j :| k <= j < |ids| && ids[j] == x;
      assert forall i :: 0 <= i < k ==> ids[i] != ids[j];
    }
  }
}
