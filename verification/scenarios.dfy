/**
 * Worked examples of the store's documented behaviour, each stated on
 * concrete data.
 */
module Scenarios {
  import opened Wrappers
  import opened Text
  import opened Seqs
  import opened Store
  import opened Cases
  import opened Records
  import opened Queries
  import opened Export

  function CaseRow(id: string, scenario: string): Row {
    map[ID_KEY := id, SCENARIO_KEY := scenario]
  }

  /**
   * Importing A1 and A2 into an empty store under "Batch1" files both under
   * that name; re-importing A1 alone without a name keeps it there.
   */
  lemma ReimportKeepsCollection()
    ensures var first := ImportCases(Empty(), [CaseRow("A1", "登录"), CaseRow("A2", "Login")], Some("Batch1"), {});
      var second := ImportCases(first.store, [CaseRow("A1", "登录")], None, {});
      && first.successCount == 2
      && GetTestCase(first.store, "A1").Some? && GetTestCase(first.store, "A1").value.collection == Some("Batch1")
      && GetTestCase(first.store, "A2").Some? && GetTestCase(first.store, "A2").value.collection == Some("Batch1")
      && GetTestCase(second.store, "A1").Some? && GetTestCase(second.store, "A1").value.collection == Some("Batch1")
  {
    var rows := [CaseRow("A1", "登录"), CaseRow("A2", "Login")];
    var first := ImportCases(Empty(), rows, Some("Batch1"), {});
    assert RowId(rows[0]) == "A1" && RowId(rows[1]) == "A2";
    ImportStoresLastRow(Empty(), rows, Some("Batch1"), {}, 0);
    ImportStoresLastRow(Empty(), rows, Some("Batch1"), {}, 1);
    var again := [CaseRow("A1", "登录")];
    assert RowId(again[0]) == "A1";
    var stored := StoredCollection(first.store.cases, "A1");
    assert stored == Some("Batch1");
    assert FirstStoredCollection(first.store.cases, again) == Some("Batch1");
    ImportStoresLastRow(first.store, again, None, {}, 0);
  }

  function Filed(id: string, collection: string): TestCase {
    TestCase(id, "", Some(""), "", Some(""), Some(collection), None)
  }

  /**
   * The fallback name is the one stored for the first existing case in the
   * batch's order, and it applies to every row without a name of its own:
   * with A in "X" and B in "Y", the batch [B, A] files both under "Y".
   */
  lemma FallbackFollowsBatchOrder()
    ensures var s := Empty().(cases := [Filed("A", "X"), Filed("B", "Y")]);
      var r := ImportCases(s, [CaseRow("B", "b"), CaseRow("A", "a")], None, {});
      && GetTestCase(r.store, "A").Some? && GetTestCase(r.store, "A").value.collection == Some("Y")
      && GetTestCase(r.store, "B").Some? && GetTestCase(r.store, "B").value.collection == Some("Y")
  {
    var s := Empty().(cases := [Filed("A", "X"), Filed("B", "Y")]);
    var rows := [CaseRow("B", "b"), CaseRow("A", "a")];
    assert RowId(rows[0]) == "B" && RowId(rows[1]) == "A";
    assert StoredCollection(s.cases, "B") == Some("Y");
    assert FirstStoredCollection(s.cases, rows) == Some("Y");
    assert COLLECTION_KEY !in rows[0] && COLLECTION_KEY !in rows[1];
    ImportStoresLastRow(s, rows, None, {}, 0);
    ImportStoresLastRow(s, rows, None, {}, 1);
  }

  function Run(id: int, timestamp: int): TestRecord {
    TestRecord(id, "C", PASSED, None, None, None, timestamp, None)
  }

  /** Records of one case at timestamps 10, 30, 20: the latest is the one at 30. */
  lemma LatestOfThree()
    ensures var m := LatestByCase([Run(1, 10), Run(2, 30), Run(3, 20)]);
      "C" in m && m["C"] == Run(2, 30)
  {
    var records := [Run(1, 10), Run(2, 30), Run(3, 20)];
    var m := LatestByCase(records);
    assert records[1].caseId == "C";
    assert m["C"] in records;
  }

  /** An empty window yields zero counts and a pass rate of 0. */
  lemma EmptyStatistics()
    ensures GetStatistics(Empty(), None, None) == Statistics(0, 0, 0, 0, 0)
    ensures PassRate(GetStatistics(Empty(), None, None)) == 0.0
  {
  }

  function Case(id: string, scenario: string): TestCase {
    TestCase(id, scenario, None, "", None, None, None)
  }

  /**
   * "登录" searches scenarios only: it finds a case whose scenario contains
   * it and not one whose id does. "a1" searches ids only, ignoring case.
   */
  lemma SearchIsAsymmetric()
    ensures SearchMatches("登录", Case("TC-9", "用户登录"), Run(1, 0).(caseId := "TC-9"))
    ensures !SearchMatches("登录", Case("登录-1", "Login"), Run(1, 0).(caseId := "登录-1"))
    ensures SearchMatches("a1", Case("TC-A1", "x"), Run(1, 0).(caseId := "TC-A1"))
    ensures !SearchMatches("a1", Case("B2", "a1 login"), Run(1, 0).(caseId := "B2"))
  {
    assert IsCjk("登录"[0]);
    assert Lower("登录") == "登录";
    assert Lower("用户登录") == "用户登录";
    assert OccursAt("登录", "用户登录", 2);
    assert Lower("Login") == "login";
    assert !IsSubstring("登录", "login") by {
      forall i | 0 <= i <= |"login"| - |"登录"|
        ensures !OccursAt("登录", "login", i)
      {
        assert "login"[i] != "登录"[0];
      }
    }
    assert !HasCjk("a1") by {
      assert !IsCjk("a1"[0]) && !IsCjk("a1"[1]);
    }
    assert Lower("a1") == "a1";
    assert Lower("TC-A1") == "tc-a1";
    assert OccursAt("a1", "tc-a1", 3);
    assert Lower("B2") == "b2";
    assert !IsSubstring("a1", "b2") by {
      assert !OccursAt("a1", "b2", 0);
    }
  }

  /**
   * Updating with an empty image list leaves the record without images;
   * leaving the list out keeps the images it had.
   */
  lemma EmptyImageListClears(s: Store, rid: int, now: int)
    requires Valid(s)
    ensures RecordImagePaths(UpdateTestRecord(s, rid, None, None, None, None, Some([]), now).store, rid) == []
    ensures RecordImagePaths(UpdateTestRecord(s, rid, None, None, None, None, None, now).store, rid)
         == RecordImagePaths(s, rid)
  {
    UpdateReplacesImages(s, rid, None, None, None, None, [], now, rid + 1);
    FilterNone([], NonEmpty());
  }
}
