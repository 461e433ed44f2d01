/**
 * The spreadsheet validator `ExcelParser.parse_excel` (src/excel_parser.py:8-40),
 * over a sheet already read into a header and a sequence of rows.
 */
module ExcelParser {
  import opened Wrappers
  import opened Text
  import opened Seqs
  import opened Store
  import opened Cases

  /** A read sheet: its header and one cell map per row; a `None` cell is blank (NaN). */
  datatype Sheet = Sheet(columns: seq<string>, rows: seq<map<string, Option<string>>>)

  /** The columns an import needs, in the order the error lists them. */
  const REQUIRED_COLUMNS: seq<string> := [ID_KEY, SCENARIO_KEY, EXPECTED_KEY]

  const MISSING_COLUMNS_MESSAGE := "Excel文件缺少必要的列: "
  const DUPLICATE_IDS_MESSAGE := "Excel文件中存在重复的用例ID"
  const PARSE_FAILED := "解析Excel文件失败: "

  datatype ParseFailure = MissingColumns(missing: seq<string>) | DuplicateIds

  /** `', '.join(parts)`. */
  function Join(parts: seq<string>, sep: string): (r: string)
    ensures |parts| == 1 ==> r == parts[0]
    ensures |parts| == 0 ==> r == ""
  {
    if |parts| == 0 then ""
    else if |parts| == 1 then parts[0]
    else parts[0] + sep + Join(parts[1..], sep)
  }

  /** Each part appears in the joined text, the first one at its start. */
  lemma {:induction false} JoinContainsParts(parts: seq<string>, sep: string)
    ensures forall i :: 0 <= i < |parts| ==> IsSubstring(parts[i], Join(parts, sep))
    ensures |parts| > 0 ==> OccursAt(parts[0], Join(parts, sep), 0)
  {
    if |parts| > 1 {
      var rest := Join(parts[1..], sep);
      var r := Join(parts, sep);
      JoinContainsParts(parts[1..], sep);
      assert r == parts[0] + sep + rest;
      assert OccursAt(parts[0], r, 0) by {
        assert r[..|parts[0]|] == parts[0];
      }
      forall i | 1 <= i < |parts|
        ensures IsSubstring(parts[i], r)
      {
        assert parts[1..][i - 1] == parts[i];
        var k :| 0 <= k <= |rest| - |parts[i]| && OccursAt(parts[i], rest, k);
        var off := |parts[0]| + |sep|;
        assert r[off + k..off + k + |parts[i]|] == rest[k..k + |parts[i]|];
        assert OccursAt(parts[i], r, off + k);
      }
    } else if |parts| == 1 {
      assert OccursAt(parts[0], Join(parts, sep), 0);
    }
  }

  /** Where part `i` starts in the joined text. */
  ghost function Offset(parts: seq<string>, sep: string, i: nat): nat
    requires i < |parts|
  {
    if i == 0 then 0 else |parts[0]| + |sep| + Offset(parts[1..], sep, i - 1)
  }

  /** Part `i` occurs in the joined text at its offset. */
  lemma {:induction false} JoinPlacesPart(parts: seq<string>, sep: string, i: nat)
    requires i < |parts|
    ensures OccursAt(parts[i], Join(parts, sep), Offset(parts, sep, i))
  {
    var r := Join(parts, sep);
    if |parts| == 1 {
      assert r[..|parts[0]|] == parts[0];
    } else {
      var rest := Join(parts[1..], sep);
      assert r == parts[0] + sep + rest;
      if i == 0 {
        assert r[..|parts[0]|] == parts[0];
      } else {
        JoinPlacesPart(parts[1..], sep, i - 1);
        var k := Offset(parts[1..], sep, i - 1);
        var off := |parts[0]| + |sep|;
        assert parts[1..][i - 1] == parts[i];
        assert r[off + k..off + k + |parts[i]|] == rest[k..k + |parts[i]|];
      }
    }
  }

  /** A later part starts after an earlier one ends. */
  lemma {:induction false} OffsetsIncrease(parts: seq<string>, sep: string, i: nat, j: nat)
    requires i < j < |parts|
    ensures Offset(parts, sep, i) + |parts[i]| <= Offset(parts, sep, j)
  {
    if i > 0 {
      OffsetsIncrease(parts[1..], sep, i - 1, j - 1);
      assert parts[1..][i - 1] == parts[i];
    }
  }

  /** `a` occurs in `hay` ending no later than where an occurrence of `b` starts. */
  ghost predicate InOrder(a: string, b: string, hay: string) {
    exists p, q :: OccursAt(a, hay, p) && OccursAt(b, hay, q) && p + |a| <= q
  }

  /** The joined text names the parts in list order. */
  lemma JoinKeepsOrder(parts: seq<string>, sep: string, prefix: string, i: nat, j: nat)
    requires i < j < |parts|
    ensures InOrder(parts[i], parts[j], prefix + Join(parts, sep))
  {
    var r := Join(parts, sep);
    var m := prefix + r;
    JoinPlacesPart(parts, sep, i);
    JoinPlacesPart(parts, sep, j);
    OffsetsIncrease(parts, sep, i, j);
    var p := Offset(parts, sep, i);
    var q := Offset(parts, sep, j);
    assert m[|prefix| + p..|prefix| + p + |parts[i]|] == r[p..p + |parts[i]|];
    assert m[|prefix| + q..|prefix| + q + |parts[j]|] == r[q..q + |parts[j]|];
    assert OccursAt(parts[i], m, |prefix| + p) && OccursAt(parts[j], m, |prefix| + q);
  }

  /** `str(e)` of the ValueError raised for each failure. */
  function Message(f: ParseFailure): (m: string)
    ensures f.DuplicateIds? ==> m == DUPLICATE_IDS_MESSAGE
    ensures f.MissingColumns? ==>
      && OccursAt(MISSING_COLUMNS_MESSAGE, m, 0)
      && (forall i :: 0 <= i < |f.missing| ==> IsSubstring(f.missing[i], m))
      && forall i, j :: 0 <= i < j < |f.missing| ==> InOrder(f.missing[i], f.missing[j], m)
  {
    match f
    case MissingColumns(missing) =>
      MessageNamesColumns(f);
      forall i, j | 0 <= i < j < |missing|
        ensures InOrder(missing[i], missing[j], MISSING_COLUMNS_MESSAGE + Join(missing, ", "))
      {
        JoinKeepsOrder(missing, ", ", MISSING_COLUMNS_MESSAGE, i, j);
      }
      MISSING_COLUMNS_MESSAGE + Join(missing, ", ")
    case DuplicateIds => DUPLICATE_IDS_MESSAGE
  }

  lemma MessageNamesColumns(f: ParseFailure)
    requires f.MissingColumns?
    ensures OccursAt(MISSING_COLUMNS_MESSAGE, MISSING_COLUMNS_MESSAGE + Join(f.missing, ", "), 0)
    ensures forall i :: 0 <= i < |f.missing| ==> IsSubstring(f.missing[i], MISSING_COLUMNS_MESSAGE + Join(f.missing, ", "))
  {
    var j := Join(f.missing, ", ");
    var m := MISSING_COLUMNS_MESSAGE + j;
    JoinContainsParts(f.missing, ", ");
    assert m[..|MISSING_COLUMNS_MESSAGE|] == MISSING_COLUMNS_MESSAGE;
    forall i | 0 <= i < |f.missing|
      ensures IsSubstring(f.missing[i], m)
    {
      var k :| 0 <= k <= |j| - |f.missing[i]| && OccursAt(f.missing[i], j, k);
      var off := |MISSING_COLUMNS_MESSAGE|;
      assert m[off + k..off + k + |f.missing[i]|] == j[k..k + |f.missing[i]|];
      assert OccursAt(f.missing[i], m, off + k);
    }
  }

  function Absent(columns: seq<string>): string -> bool {
    (c: string) => c !in columns
  }

  /** `[col for col in required_columns if col not in df.columns]`. */
  function MissingColumnsOf(columns: seq<string>): (missing: seq<string>)
    ensures forall c :: c in missing <==> c in REQUIRED_COLUMNS && c !in columns
    ensures forall i, j :: 0 <= i < j < |missing| ==> RequiredRank(missing[i]) < RequiredRank(missing[j])
  {
    var missing := Filter(REQUIRED_COLUMNS, Absent(columns));
    assert forall c :: c in REQUIRED_COLUMNS && c !in columns ==> c in missing by {
      assert Absent(columns)(REQUIRED_COLUMNS[0]) == (ID_KEY !in columns);
      assert Absent(columns)(REQUIRED_COLUMNS[1]) == (SCENARIO_KEY !in columns);
      assert Absent(columns)(REQUIRED_COLUMNS[2]) == (EXPECTED_KEY !in columns);
    }
    assert StrictlyAscending(REQUIRED_COLUMNS, RankOf());
    FilterKeepsAscending(REQUIRED_COLUMNS, Absent(columns), RankOf());
    assert forall i :: 0 <= i < |missing| ==> RankOf()(missing[i]) == RequiredRank(missing[i]);
    missing
  }

  /** The position of a required column in the list the error follows. */
  function RequiredRank(c: string): int {
    if c == ID_KEY then 0 else if c == SCENARIO_KEY then 1 else 2
  }

  function RankOf(): string -> int {
    (c: string) => RequiredRank(c)
  }

  /** `fillna('')`: a blank cell becomes the empty string. */
  function Fill(cells: map<string, Option<string>>): (row: Row)
    ensures row.Keys == cells.Keys
    ensures forall k :: k in cells ==> row[k] == (if cells[k].Some? then cells[k].value else "")
  {
    map k | k in cells :: if cells[k].Some? then cells[k].value else ""
  }

  function FillAll(rows: seq<map<string, Option<string>>>): (r: seq<Row>)
    ensures |r| == |rows|
    ensures forall i :: 0 <= i < |rows| ==> r[i] == Fill(rows[i])
  {
    seq(|rows|, i requires 0 <= i < |rows| => Fill(rows[i]))
  }

  /** `[case.get('用例ID') for case in cases_data]`. */
  function SheetIds(rows: seq<Row>): (ids: seq<Option<string>>)
    ensures |ids| == |rows|
    ensures forall i :: 0 <= i < |rows| ==> ids[i] == Get(rows[i], ID_KEY)
  {
    seq(|rows|, i requires 0 <= i < |rows| => Get(rows[i], ID_KEY))
  }

  ghost predicate Distinct<T>(xs: seq<T>) {
    forall i, j :: 0 <= i < j < |xs| ==> xs[i] != xs[j]
  }

  /** `len(case_ids) != len(set(case_ids))` holds exactly when some id repeats. */
  lemma {:induction false} DistinctIffCardinality<T>(xs: seq<T>)
    ensures |set x | x in xs| == |xs| <==> Distinct(xs)
    ensures |set x | x in xs| <= |xs|
    decreases |xs|
  {
    if |xs| > 0 {
      var n := |xs| - 1;
      var front := xs[..n];
      DistinctIffCardinality(front);
      assert xs == front + [xs[n]];
      var sf := set x | x in front;
      var s := set x | x in xs;
      if xs[n] in front {
        assert s == sf;
        var i :| 0 <= i < n && front[i] == xs[n];
        assert xs[i] == xs[n];
      } else {
        assert s == sf + {xs[n]};
        if Distinct(front) {
          assert forall i :: 0 <= i < n ==> xs[i] != xs[n];
        }
        assert Distinct(xs) ==> Distinct(front);
      }
    }
  }

  /**
   * The checks of `parse_excel` in their order: required columns first,
   * then duplicate ids over the blank-filled rows.
   */
  function ParseSheet(sheet: Sheet): (r: Result<seq<Row>, ParseFailure>)
    ensures (r.Err? && r.error.MissingColumns?) <==> exists c :: c in REQUIRED_COLUMNS && c !in sheet.columns
    ensures r.Err? && r.error.MissingColumns? ==> r.error.missing == MissingColumnsOf(sheet.columns)
    ensures r == Err(DuplicateIds) <==>
      (forall c :: c in REQUIRED_COLUMNS ==> c in sheet.columns) && !Distinct(SheetIds(FillAll(sheet.rows)))
    ensures r.Ok? ==>
      && |r.value| == |sheet.rows|
      && (forall i :: 0 <= i < |r.value| ==> r.value[i] == Fill(sheet.rows[i]))
      && Distinct(SheetIds(r.value))
  {
    var missing := MissingColumnsOf(sheet.columns);
    if |missing| > 0 then
      assert missing[0] in missing;
      Err(MissingColumns(missing))
    else
      var rows := FillAll(sheet.rows);
      var ids := SheetIds(rows);
      DistinctIffCardinality(ids);
      if |ids| != |set id | id in ids| then Err(DuplicateIds) else Ok(rows)
  }

  /**
   * `parse_excel(file_path)` given the outcome of reading the file: any
   * failure, a read error included, is re-raised as one wrapped message.
   */
  function ParseExcel(read: Result<Sheet, string>): (r: Result<seq<Row>, string>)
    ensures read.Err? ==> r == Err(PARSE_FAILED + read.error)
    ensures read.Ok? ==> (r.Ok? <==> ParseSheet(read.value).Ok?)
    ensures read.Ok? && ParseSheet(read.value).Err? ==> r == Err(PARSE_FAILED + Message(ParseSheet(read.value).error))
    ensures read.Ok? && r.Ok? ==> r.value == ParseSheet(read.value).value
    ensures r.Err? ==> |r.error| >= |PARSE_FAILED| && r.error[..|PARSE_FAILED|] == PARSE_FAILED
  {
    match read
    case Err(e) => Err(PARSE_FAILED + e)
    case Ok(sheet) =>
      match ParseSheet(sheet)
      case Ok(rows) => Ok(rows)
      case Err(f) => Err(PARSE_FAILED + Message(f))
  }

  /**
   * A validated sheet imports without collisions: every row's case reads back
   * built from that very row.
   */
  lemma ParsedRowsImportIntact(s: Store, sheet: Sheet, explicit: Option<string>, j: int)
    requires CaseIdsUnique(s.cases) && CanInsertCases(s)
    requires ParseSheet(sheet).Ok?
    requires 0 <= j < |sheet.rows|
    requires ID_KEY in sheet.rows[j] && forall i :: 0 <= i < |sheet.rows| ==> sheet.rows[i].Keys == sheet.rows[j].Keys
    ensures var rows := ParseSheet(sheet).value;
      var got := GetTestCase(ImportCases(s, rows, explicit, {}).store, RowId(rows[j]));
      && got.Some?
      && got.value.scenario == GetOr(rows[j], SCENARIO_KEY, "")
      && got.value.expectedResult == GetOr(rows[j], EXPECTED_KEY, "")
  {
    var rows := ParseSheet(sheet).value;
    var ids := SheetIds(rows);
    forall k | j < k < |rows|
      ensures RowId(rows[k]) != RowId(rows[j])
    {
      assert ids[j] != ids[k];
      assert ID_KEY in rows[k];
    }
    ImportStoresLastRow(s, rows, explicit, {}, j);
  }
}
