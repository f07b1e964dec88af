/**
 * `fetch_contents(corpus_data, ids)`: looks up the `contents` of every
 * `doc_id` in a nested list of ids, keeping the nesting of the request.
 */
module Contents {
  import opened Wrappers

  /** One corpus row: its `doc_id` and its `contents`. */
  datatype Record = Record(docId: string, contents: string)

  type Corpus = seq<Record>

  ghost predicate HasId(corpus: Corpus, id: string)
  {
    exists k :: 0 <= k < |corpus| && corpus[k].docId == id
  }

  /** Row `k` is the first row whose doc_id is `id`. */
  ghost predicate FirstMatch(corpus: Corpus, id: string, k: int)
  {
    0 <= k < |corpus| && corpus[k].docId == id && forall j :: 0 <= j < k ==> corpus[j].docId != id
  }

  /** The contents of the first row whose doc_id is `id`; None when no row has it. */
  function Lookup(corpus: Corpus, id: string): (r: Option<string>)
    ensures r.None? <==> !HasId(corpus, id)
    ensures r.Some? ==> exists k :: FirstMatch(corpus, id, k) && corpus[k].contents == r.value
  {
    if |corpus| == 0 then None
    else if corpus[0].docId == id then
      assert FirstMatch(corpus, id, 0);
      Some(corpus[0].contents)
    else
      var r := Lookup(corpus[1..], id);
      assert HasId(corpus, id) ==> HasId(corpus[1..], id) by {
        if HasId(corpus, id) {
          var k :| 0 <= k < |corpus| && corpus[k].docId == id;
          assert corpus[1..][k - 1].docId == id;
        }
      }
      if r.Some? then
        assert exists k :: FirstMatch(corpus, id, k) && corpus[k].contents == r.value by {
          var k :| FirstMatch(corpus[1..], id, k) && corpus[1..][k].contents == r.value;
          forall j | 0 <= j < k + 1 ensures corpus[j].docId != id {
            if j > 0 { assert corpus[j] == corpus[1..][j - 1]; }
          }
          assert FirstMatch(corpus, id, k + 1);
        }
        r
      else r
  }

  /** Looks up every id of one group, in order; None as soon as one id is missing. */
  function FetchGroup(corpus: Corpus, ids: seq<string>): (r: Option<seq<string>>)
    ensures r.Some? ==> |r.value| == |ids|
  {
    if |ids| == 0 then Some([])
    else
      var x := Lookup(corpus, ids[0]);
      var rest := FetchGroup(corpus, ids[1..]);
      if x.Some? && rest.Some? then Some([x.value] + rest.value) else None
  }

  /** A found group holds, position by position, the contents looked up for each id. */
  lemma {:induction false} FetchGroupElements(corpus: Corpus, ids: seq<string>)
    requires FetchGroup(corpus, ids).Some?
    ensures forall j :: 0 <= j < |ids| ==> Lookup(corpus, ids[j]) == Some(FetchGroup(corpus, ids).value[j])
  {
    if |ids| > 0 {
      FetchGroupElements(corpus, ids[1..]);
      assert forall j :: 1 <= j < |ids| ==> ids[j] == ids[1..][j - 1];
    }
  }

  /** One group is found exactly when each of its ids is in the corpus. */
  lemma {:induction false} FetchGroupSome(corpus: Corpus, ids: seq<string>)
    ensures FetchGroup(corpus, ids).Some? <==> forall j :: 0 <= j < |ids| ==> HasId(corpus, ids[j])
  {
    if |ids| > 0 {
      FetchGroupSome(corpus, ids[1..]);
      assert forall j :: 1 <= j < |ids| ==> ids[j] == ids[1..][j - 1];
    }
  }

  /** One output group per requested group; None when any requested id is missing from the corpus. */
  function FetchContents(corpus: Corpus, groups: seq<seq<string>>): (r: Option<seq<seq<string>>>)
    ensures r.Some? ==> |r.value| == |groups|
  {
    if |groups| == 0 then Some([])
    else
      var g := FetchGroup(corpus, groups[0]);
      var rest := FetchContents(corpus, groups[1..]);
      if g.Some? && rest.Some? then Some([g.value] + rest.value) else None
  }

  /** Concatenation of the groups in order (`itertools.chain.from_iterable`). */
  function Flatten<T(!new)>(groups: seq<seq<T>>): (r: seq<T>)
    ensures forall x :: x in r <==> exists i :: 0 <= i < |groups| && x in groups[i]
  {
    if |groups| == 0 then [] else groups[0] + Flatten(groups[1..])
  }

  ghost predicate AllPresent(corpus: Corpus, groups: seq<seq<string>>)
  {
    forall i, j :: 0 <= i < |groups| && 0 <= j < |groups[i]| ==> HasId(corpus, groups[i][j])
  }

  /** The lookup succeeds exactly when every requested id is in the corpus, and then
      the output has the request's shape, each id replaced by its row's contents. */
  lemma {:induction false} FetchContentsShape(corpus: Corpus, groups: seq<seq<string>>)
    ensures FetchContents(corpus, groups).Some? <==> AllPresent(corpus, groups)
    ensures FetchContents(corpus, groups).Some? ==>
      var r := FetchContents(corpus, groups).value;
      |r| == |groups| &&
      forall i :: 0 <= i < |groups| ==> FetchGroup(corpus, groups[i]) == Some(r[i])
  {
    if |groups| > 0 {
      FetchContentsShape(corpus, groups[1..]);
      FetchGroupSome(corpus, groups[0]);
      assert AllPresent(corpus, groups) <==>
        (forall j :: 0 <= j < |groups[0]| ==> HasId(corpus, groups[0][j])) && AllPresent(corpus, groups[1..]) by {
        if (forall j :: 0 <= j < |groups[0]| ==> HasId(corpus, groups[0][j])) && AllPresent(corpus, groups[1..]) {
          forall i, j | 0 <= i < |groups| && 0 <= j < |groups[i]| ensures HasId(corpus, groups[i][j]) {
            if i > 0 { assert groups[i] == groups[1..][i - 1]; }
          }
        }
      }
      if FetchContents(corpus, groups).Some? {
        var r := FetchContents(corpus, groups).value;
        forall i | 0 <= i < |groups| ensures FetchGroup(corpus, groups[i]) == Some(r[i]) {
          if i > 0 { assert groups[i] == groups[1..][i - 1]; }
        }
      }
    }
  }

  /** Flattening the output gives the contents of the flattened request, in request order. */
  lemma {:induction false} FlattenFetch(corpus: Corpus, groups: seq<seq<string>>)
    requires FetchContents(corpus, groups).Some?
    ensures FetchGroup(corpus, Flatten(groups)) == Some(Flatten(FetchContents(corpus, groups).value))
  {
    if |groups| > 0 {
      FlattenFetch(corpus, groups[1..]);
      FetchGroupAppend(corpus, groups[0], Flatten(groups[1..]));
    }
  }

  /** Looking up a concatenation is concatenating the lookups. */
  lemma {:induction false} FetchGroupAppend(corpus: Corpus, a: seq<string>, b: seq<string>)
    requires FetchGroup(corpus, a).Some? && FetchGroup(corpus, b).Some?
    ensures FetchGroup(corpus, a + b) == Some(FetchGroup(corpus, a).value + FetchGroup(corpus, b).value)
  {
    if |a| == 0 {
      assert a == [] && a + b == b;
      assert FetchGroup(corpus, a) == Some([]);
      assert FetchGroup(corpus, a).value + FetchGroup(corpus, b).value == FetchGroup(corpus, b).value;
    } else {
      var ab := a + b;
      assert ab[0] == a[0] && ab[1..] == a[1..] + b;
      FetchGroupAppend(corpus, a[1..], b);
      var x := Lookup(corpus, a[0]).value;
      var u, v := FetchGroup(corpus, a[1..]).value, FetchGroup(corpus, b).value;
      assert FetchGroup(corpus, ab) == Some([x] + (u + v));
      assert [x] + (u + v) == ([x] + u) + v;
    }
  }

  /** Distinct doc_ids: the corpus is keyed by doc_id. */
  ghost predicate UniqueIds(corpus: Corpus)
  {
    forall i, j :: 0 <= i < |corpus| && 0 <= j < |corpus| && corpus[i].docId == corpus[j].docId ==> i == j
  }

  /** With distinct doc_ids, looking up a row's id gives that row's contents. */
  lemma LookupRow(corpus: Corpus, k: int)
    requires UniqueIds(corpus) && 0 <= k < |corpus|
    ensures Lookup(corpus, corpus[k].docId) == Some(corpus[k].contents)
  {
  }

  /** Each sampled row's id as a group of its own: `[[x] for x in rows.doc_id]`. */
  function SingletonIds(rows: seq<Record>): (r: seq<seq<string>>)
    ensures |r| == |rows| && forall i :: 0 <= i < |rows| ==> r[i] == [rows[i].docId]
  {
    if |rows| == 0 then [] else [[rows[0].docId]] + SingletonIds(rows[1..])
  }

  function ContentsOf(rows: seq<Record>): (r: seq<string>)
    ensures |r| == |rows| && forall i :: 0 <= i < |rows| ==> r[i] == rows[i].contents
  {
    if |rows| == 0 then [] else [rows[0].contents] + ContentsOf(rows[1..])
  }

  function IdsOf(rows: seq<Record>): (r: seq<string>)
    ensures |r| == |rows| && forall i :: 0 <= i < |rows| ==> r[i] == rows[i].docId
  {
    if |rows| == 0 then [] else [rows[0].docId] + IdsOf(rows[1..])
  }

  /** Fetching the ids of rows sampled from a corpus keyed by doc_id returns one group per
      row, and flattened, exactly the sampled rows' contents. */
  lemma FetchSampledRows(corpus: Corpus, sample: seq<Record>)
    requires UniqueIds(corpus)
    requires forall i :: 0 <= i < |sample| ==> sample[i] in corpus
    ensures FetchContents(corpus, SingletonIds(sample)).Some?
    ensures |FetchContents(corpus, SingletonIds(sample)).value| == |sample|
    ensures Flatten(FetchContents(corpus, SingletonIds(sample)).value) == ContentsOf(sample)
  {
    var groups := SingletonIds(sample);
    assert AllPresent(corpus, groups) by {
      forall i, j | 0 <= i < |groups| && 0 <= j < |groups[i]| ensures HasId(corpus, groups[i][j]) {
        var k :| 0 <= k < |corpus| && corpus[k] == sample[i];
      }
    }
    FetchContentsShape(corpus, groups);
    FlattenFetch(corpus, groups);
    FlattenSingletons(sample);
    FetchSampledIds(corpus, sample);
  }

  lemma {:induction false} FetchSampledIds(corpus: Corpus, sample: seq<Record>)
    requires UniqueIds(corpus)
    requires forall i :: 0 <= i < |sample| ==> sample[i] in corpus
    ensures FetchGroup(corpus, IdsOf(sample)) == Some(ContentsOf(sample))
  {
    if |sample| > 0 {
      var k :| 0 <= k < |corpus| && corpus[k] == sample[0];
      LookupRow(corpus, k);
      FetchSampledIds(corpus, sample[1..]);
      assert IdsOf(sample)[1..] == IdsOf(sample[1..]);
    }
  }

  lemma {:induction false} FlattenSingletons(rows: seq<Record>)
    ensures Flatten(SingletonIds(rows)) == IdsOf(rows)
  {
    if |rows| > 0 {
      FlattenSingletons(rows[1..]);
      assert SingletonIds(rows)[1..] == SingletonIds(rows[1..]);
    }
  }
}
