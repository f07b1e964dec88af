/**
 * The assertions of tests/autorag/utils/test_util.py, each stated as a lemma
 * about the model and proved from the definitions.
 */
module UtilTests {
  import opened Wrappers
  import Text
  import opened FileNames
  import opened Combinations
  import opened BestResult
  import opened Tables

  /** The fixture's three pairs give the pieces "param1_value1", "param2_value2", "param3_value3", in order. */
  lemma FixturePieces()
    ensures PairTexts([("param1", "value1"), ("param2", "value2"), ("param3", "value3")])
      == ["param1_value1", "param2_value2", "param3_value3"]
  {
    var params := [("param1", "value1"), ("param2", "value2"), ("param3", "value3")];
    assert PairText(params[0]) == "param1_value1";
    assert PairText(params[1]) == "param2_value2";
    assert PairText(params[2]) == "param3_value3";
  }

  /** The fixture's pieces joined with "-". */
  lemma FixtureJoin(pieces: seq<string>)
    requires pieces == ["param1_value1", "param2_value2", "param3_value3"]
    ensures Text.Join([ListSep], pieces) == "param1_value1-param2_value2-param3_value3"
  {
    Text.JoinThree([ListSep], "param1_value1", "param2_value2", "param3_value3");
    FixtureTail();
    FixtureHead("param2_value2" + [ListSep] + "param3_value3");
  }

  // The two concatenations of the join above, spelled out one at a time.

  lemma FixtureTail()
    ensures "param2_value2" + [ListSep] + "param3_value3" == "param2_value2-param3_value3"
  {
  }

  lemma FixtureHead(tail: string)
    requires tail == "param2_value2-param3_value3"
    ensures "param1_value1" + [ListSep] + tail == "param1_value1-param2_value2-param3_value3"
  {
  }

  /** The fixture's three pairs encode, in order, as "param1_value1-param2_value2-param3_value3". */
  lemma FixtureParamsEncoding()
    ensures Text.Join([ListSep], PairTexts([("param1", "value1"), ("param2", "value2"), ("param3", "value3")]))
      == "param1_value1-param2_value2-param3_value3"
  {
    FixturePieces();
    FixtureJoin(PairTexts([("param1", "value1"), ("param2", "value2"), ("param3", "value3")]));
  }

  // The spelled-out file name of the fixture, in two steps that the solver checks character by character.

  lemma FixtureStem(mid: string)
    requires mid == "param1_value1-param2_value2-param3_value3"
    ensures "test_module" + Marker + mid == "test_module=>param1_value1-param2_value2-param3_value3"
  {
    assert "test_module" + Marker == "test_module=>";
  }

  lemma FixtureWithExtension()
    ensures "test_module=>param1_value1-param2_value2-param3_value3" + Extension
      == "test_module=>param1_value1-param2_value2-param3_value3.parquet"
  {
  }

  lemma TestMakeModuleFileName()
    ensures ModuleFileName("test_module", [("param1", "value1"), ("param2", "value2"), ("param3", "value3")])
      == "test_module=>param1_value1-param2_value2-param3_value3.parquet"
  {
    var params := [("param1", "value1"), ("param2", "value2"), ("param3", "value3")];
    FixtureParamsEncoding();
    FixtureStem(Text.Join([ListSep], PairTexts(params)));
    FixtureWithExtension();
  }

  lemma TestMakeModuleFileNameEmpty()
    ensures ModuleFileName("test_module", []) == "test_module.parquet"
  {
  }

  lemma TestMakeModuleFileNameOnePair()
    ensures ModuleFileName("test_module", [("param1", "value1")]) == "test_module=>param1_value1.parquet"
  {
  }

  /** An element that occurs once in a sequence occurs at no other position. */
  lemma OccursOnlyOnce<T>(s: seq<T>, k: int, j: int)
    requires 0 <= k < |s| && 0 <= j < |s| && k != j
    requires multiset(s)[s[k]] == 1
    ensures s[j] != s[k]
  {
    var rest := s[..j] + s[j + 1..];
    assert s == s[..j] + [s[j]] + s[j + 1..];
    assert s[k] == if k < j then rest[k] else rest[k - 1];
    assert multiset(s) == multiset(rest) + multiset{s[j]};
  }

  /** The test directory's "best_result.parquet" passes the filter. */
  lemma BestFixture()
    ensures IsBestResult("best_result.parquet")
  {
    var f := "best_result.parquet";
    assert f[..|BestPrefix|] == BestPrefix;
    assert f[|f| - |ParquetSuffix|..] == ParquetSuffix;
  }

  /** The four files of the test directory, in any order the directory lists them. */
  lemma TestFindBestResultPath(listing: seq<string>)
    requires multiset(listing) == multiset(["best_result.parquet", "average_result.parquet",
                                             "worst_result.parquet", "best_other.txt"])
    ensures FindBestResultPath(listing) == Some("best_result.parquet")
  {
    var paths := ["best_result.parquet", "average_result.parquet", "worst_result.parquet", "best_other.txt"];
    BestFixture();
    assert paths[1][0] != BestPrefix[0] && paths[2][0] != BestPrefix[0];
    assert paths[3][|paths[3]| - |ParquetSuffix|] != ParquetSuffix[0];
    assert multiset(paths)[paths[0]] == 1;
    assert paths[0] in multiset(listing);
    var k :| 0 <= k < |listing| && listing[k] == paths[0];
    forall j | 0 <= j < |listing| && j != k ensures !IsBestResult(listing[j]) {
      OccursOnlyOnce(listing, k, j);
      assert listing[j] in multiset(paths);
    }
    UniqueBestFound(listing, k);
  }

  lemma TestResultToDataframe()
    ensures ResultToTable(["col_1", "col_2"], Several([[1, 2], [3, 4]]))
      == Success([("col_1", [1, 2]), ("col_2", [3, 4])])
    ensures Row([("col_1", [1, 2]), ("col_2", [3, 4])], 0) == [1, 3]
    ensures Row([("col_1", [1, 2]), ("col_2", [3, 4])], 1) == [2, 4]
    ensures ResultToTable(["col_1"], Single([1, 2, 3])) == Success([("col_1", [1, 2, 3])])
  {
    var t := ResultToTable(["col_1", "col_2"], Several([[1, 2], [3, 4]]));
    assert EqualLengths([[1, 2], [3, 4]]);
    assert t.value == [("col_1", [1, 2]), ("col_2", [3, 4])];
    SingleIsOneColumn("col_1", [1, 2, 3]);
  }

  lemma TestMakeCombinations()
    ensures var m := [("key1", Scalar("value1")), ("key2", Choices(["value1", "value2"])),
                      ("key3", Scalar("value3")), ("key4", Choices(["value4", "value5"]))];
      var solution: seq<Assignment> := [
        [("key1", "value1"), ("key2", "value1"), ("key3", "value3"), ("key4", "value4")],
        [("key1", "value1"), ("key2", "value1"), ("key3", "value3"), ("key4", "value5")],
        [("key1", "value1"), ("key2", "value2"), ("key3", "value3"), ("key4", "value4")],
        [("key1", "value1"), ("key2", "value2"), ("key3", "value3"), ("key4", "value5")]];
      |MakeCombinations(m)| == |solution| &&
      forall c :: c in MakeCombinations(m) ==> c in solution
  {
    var m: Mapping := [("key1", Scalar("value1")), ("key2", Choices(["value1", "value2"])),
              ("key3", Scalar("value3")), ("key4", Choices(["value4", "value5"]))];
    var solution: seq<Assignment> := [
      [("key1", "value1"), ("key2", "value1"), ("key3", "value3"), ("key4", "value4")],
      [("key1", "value1"), ("key2", "value1"), ("key3", "value3"), ("key4", "value5")],
      [("key1", "value1"), ("key2", "value2"), ("key3", "value3"), ("key4", "value4")],
      [("key1", "value1"), ("key2", "value2"), ("key3", "value3"), ("key4", "value5")]];
    assert Count(m) == 4 by {
      assert m[1..][1..][1..][1..] == [];
    }
    forall c: Assignment | c in MakeCombinations(m) ensures c in solution {
      CombinationsSound(m, c);
      assert c == [c[0], c[1], c[2], c[3]];
      assert c[0] == ("key1", "value1") && c[2] == ("key3", "value3");
      assert c[1].1 in ["value1", "value2"] && c[3].1 in ["value4", "value5"];
    }
  }
}
