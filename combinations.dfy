/**
 * `make_combinations(target_dict)`: expands a mapping whose values are a
 * single scalar or a list of choices into every combination, the cartesian
 * product over the list-valued keys with the scalar-valued keys held fixed.
 */
module Combinations {

  /** A mapping value: one fixed scalar, or a list whose elements are tried in turn. */
  datatype Val = Scalar(value: string) | Choices(options: seq<string>)

  /** The input mapping, keys in the mapping's order. */
  type Mapping = seq<(string, Val)>

  /** One output mapping: every input key paired with one value. */
  type Assignment = seq<(string, string)>

  /** The values a key may take: a scalar is normalised to a one-element list. */
  function Options(v: Val): seq<string>
  {
    match v
    case Scalar(s) => [s]
    case Choices(xs) => xs
  }

  /** `c` is a member of the cartesian product of `m`: same keys in the same order,
      a scalar key keeps its value, a list key takes one of its elements. */
  ghost predicate IsCombination(m: Mapping, c: Assignment)
  {
    |c| == |m| &&
    forall i :: 0 <= i < |m| ==> c[i].0 == m[i].0 && c[i].1 in Options(m[i].1)
  }

  /** Number of combinations: the product of the list lengths (a scalar counts as 1). */
  function Count(m: Mapping): nat
  {
    if |m| == 0 then 1 else |Options(m[0].1)| * Count(m[1..])
  }

  /** Puts (key, x) in front of every tail, for each x in `xs` in turn. */
  function PrependEach(key: string, xs: seq<string>, tails: seq<Assignment>): (r: seq<Assignment>)
    ensures |r| == |xs| * |tails|
    ensures forall c :: c in r <==> exists x, t :: x in xs && t in tails && c == [(key, x)] + t
  {
    if |xs| == 0 then []
    else
      var first := seq(|tails|, j requires 0 <= j < |tails| => [(key, xs[0])] + tails[j]);
      assert forall c :: c in first <==> exists t :: t in tails && c == [(key, xs[0])] + t by {
        forall c | c in first ensures exists t :: t in tails && c == [(key, xs[0])] + t {
          var j :| 0 <= j < |first| && first[j] == c;
          assert tails[j] in tails;
        }
        forall t | t in tails ensures [(key, xs[0])] + t in first {
          var j :| 0 <= j < |tails| && tails[j] == t;
          assert first[j] == [(key, xs[0])] + t;
        }
      }
      first + PrependEach(key, xs[1..], tails)
  }

  /** All combinations, first key outermost, so the last key varies fastest. */
  function MakeCombinations(m: Mapping): (r: seq<Assignment>)
    ensures |r| == Count(m)
  {
    if |m| == 0 then [[]]
    else PrependEach(m[0].0, Options(m[0].1), MakeCombinations(m[1..]))
  }

  /** Enumeration order of PrependEach: block `i` pairs the i-th value with every tail in turn. */
  lemma {:induction false} PrependEachAt(key: string, xs: seq<string>, tails: seq<Assignment>, i: int, j: int)
    requires 0 <= i < |xs| && 0 <= j < |tails|
    ensures i * |tails| + j < |PrependEach(key, xs, tails)|
    ensures PrependEach(key, xs, tails)[i * |tails| + j] == [(key, xs[i])] + tails[j]
  {
    var n := |tails|;
    var r := PrependEach(key, xs, tails);
    var rest := PrependEach(key, xs[1..], tails);
    assert |r| == n + |rest| && |rest| == (|xs| - 1) * n;
    if i == 0 {
      assert r[j] == [(key, xs[0])] + tails[j];
    } else {
      PrependEachAt(key, xs[1..], tails, i - 1, j);
      assert i * n + j == n + ((i - 1) * n + j);
      assert r[n + ((i - 1) * n + j)] == rest[(i - 1) * n + j];
    }
  }

  /** Enumeration order: the first key is outermost and the last key varies fastest,
      as in nested loops over the keys in mapping order. */
  lemma CombinationAt(m: Mapping, i: int, j: int)
    requires |m| > 0
    requires 0 <= i < |Options(m[0].1)| && 0 <= j < |MakeCombinations(m[1..])|
    ensures i * |MakeCombinations(m[1..])| + j < |MakeCombinations(m)|
    ensures MakeCombinations(m)[i * |MakeCombinations(m[1..])| + j]
      == [(m[0].0, Options(m[0].1)[i])] + MakeCombinations(m[1..])[j]
  {
    PrependEachAt(m[0].0, Options(m[0].1), MakeCombinations(m[1..]), i, j);
  }

  /** Every output is a member of the cartesian product. */
  lemma {:induction false} CombinationsSound(m: Mapping, c: Assignment)
    requires c in MakeCombinations(m)
    ensures IsCombination(m, c)
  {
    if |m| > 0 {
      var x, t :| x in Options(m[0].1) && t in MakeCombinations(m[1..]) && c == [(m[0].0, x)] + t;
      CombinationsSound(m[1..], t);
    }
  }

  /** Every member of the cartesian product is an output. */
  lemma {:induction false} CombinationsComplete(m: Mapping, c: Assignment)
    requires IsCombination(m, c)
    ensures c in MakeCombinations(m)
  {
    if |m| == 0 {
      assert c == [];
    } else {
      assert IsCombination(m[1..], c[1..]) by {
        forall i | 0 <= i < |m| - 1
          ensures c[1..][i].0 == m[1..][i].0 && c[1..][i].1 in Options(m[1..][i].1)
        {
          assert c[i + 1].0 == m[i + 1].0 && c[i + 1].1 in Options(m[i + 1].1);
        }
      }
      CombinationsComplete(m[1..], c[1..]);
      assert c == [(m[0].0, c[0].1)] + c[1..];
    }
  }

  /** The outputs are exactly the cartesian product. */
  lemma CombinationsExact(m: Mapping, c: Assignment)
    ensures c in MakeCombinations(m) <==> IsCombination(m, c)
  {
    if c in MakeCombinations(m) { CombinationsSound(m, c); }
    if IsCombination(m, c) { CombinationsComplete(m, c); }
  }

  /** Every output keeps the input's keys, in order, and the fixed value of every scalar key. */
  lemma KeysAndScalarsPreserved(m: Mapping, c: Assignment, i: int)
    requires c in MakeCombinations(m)
    requires 0 <= i < |m|
    ensures |c| == |m| && c[i].0 == m[i].0
    ensures m[i].1.Scalar? ==> c[i].1 == m[i].1.value
    ensures m[i].1.Choices? ==> c[i].1 in m[i].1.options
  {
    CombinationsSound(m, c);
  }

  /** Drops the list wrappers of a mapping made of scalars only. */
  function Fixed(m: Mapping): (r: Assignment)
    requires forall i :: 0 <= i < |m| ==> m[i].1.Scalar?
    ensures |r| == |m|
    ensures forall i :: 0 <= i < |m| ==> r[i] == (m[i].0, m[i].1.value)
  {
    if |m| == 0 then [] else [(m[0].0, m[0].1.value)] + Fixed(m[1..])
  }

  /** Without list values there is exactly one combination: the mapping itself. */
  lemma {:induction false} NoChoicesSingleCombination(m: Mapping)
    requires forall i :: 0 <= i < |m| ==> m[i].1.Scalar?
    ensures MakeCombinations(m) == [Fixed(m)]
  {
    if |m| > 0 {
      NoChoicesSingleCombination(m[1..]);
      assert Fixed(m) == [(m[0].0, m[0].1.value)] + Fixed(m[1..]);
    }
  }

  /** A list with no elements anywhere in the mapping leaves no combination at all. */
  lemma {:induction false} EmptyChoicesNoCombination(m: Mapping, i: int)
    requires 0 <= i < |m| && m[i].1 == Choices([])
    ensures MakeCombinations(m) == []
  {
    if i > 0 {
      EmptyChoicesNoCombination(m[1..], i - 1);
    }
  }
}
