/**
 * `find_best_result_path(node_dir)`: picks, out of a directory listing, the
 * file whose name starts with "best_" and ends with ".parquet". The listing
 * is a parameter: reading the directory is not part of this model.
 */
module BestResult {
  import opened Wrappers
  import opened Text

  const BestPrefix: string := "best_"
  const ParquetSuffix: string := ".parquet"

  /** The filter of the listing. A matching name holds the prefix and the extension side by side:
      the two cannot overlap, since no end of "best_" is a start of ".parquet". */
  predicate IsBestResult(fileName: string): (b: bool)
    ensures b ==> |fileName| >= |BestPrefix| + |ParquetSuffix|
  {
    var n := |fileName|;
    assert StartsWith(fileName, BestPrefix) ==> fileName[4] == '_';
    assert EndsWith(fileName, ParquetSuffix) && 8 <= n <= 12 ==> fileName[4] == ParquetSuffix[12 - n];
    assert forall k :: 0 <= k < |ParquetSuffix| ==> ParquetSuffix[k] != '_';
    StartsWith(fileName, BestPrefix) && EndsWith(fileName, ParquetSuffix)
  }

  /** Entry `k` is the first entry of the listing that is a best result. */
  ghost predicate FirstBest(listing: seq<string>, k: int)
  {
    0 <= k < |listing| && IsBestResult(listing[k])
    && forall j :: 0 <= j < k ==> !IsBestResult(listing[j])
  }

  /** The first matching entry in listing order; None when no entry matches. */
  function FindBestResultPath(listing: seq<string>): (r: Option<string>)
    ensures r.None? <==> forall j :: 0 <= j < |listing| ==> !IsBestResult(listing[j])
    ensures r.Some? ==> exists k :: FirstBest(listing, k) && listing[k] == r.value
  {
    if |listing| == 0 then None
    else if IsBestResult(listing[0]) then
      assert FirstBest(listing, 0);
      Some(listing[0])
    else
      var r := FindBestResultPath(listing[1..]);
      assert forall j :: 1 <= j < |listing| ==> listing[j] == listing[1..][j - 1];
      if r.Some? then
        assert exists k :: FirstBest(listing, k) && listing[k] == r.value by {
          var k :| FirstBest(listing[1..], k) && listing[1..][k] == r.value;
          assert FirstBest(listing, k + 1);
        }
        r
      else r
  }

  /** A listing with exactly one best result yields that entry, whatever else it holds. */
  lemma UniqueBestFound(listing: seq<string>, k: int)
    requires 0 <= k < |listing| && IsBestResult(listing[k])
    requires forall j :: 0 <= j < |listing| && j != k ==> !IsBestResult(listing[j])
    ensures FindBestResultPath(listing) == Some(listing[k])
  {
  }

  /** The result is an entry of the listing that is a best result, never a made-up name. */
  lemma FoundIsListedBest(listing: seq<string>)
    requires FindBestResultPath(listing).Some?
    ensures FindBestResultPath(listing).value in listing
    ensures IsBestResult(FindBestResultPath(listing).value)
  {
  }
}
