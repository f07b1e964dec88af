/**
 * String helpers with Python's semantics: `str.startswith`, `str.endswith`,
 * `sep.join(parts)` and `s.split(sep)` for a one-character separator.
 */
module Text {

  predicate StartsWith(s: string, prefix: string)
  {
    |prefix| <= |s| && s[..|prefix|] == prefix
  }

  predicate EndsWith(s: string, suffix: string)
  {
    |suffix| <= |s| && s[|s| - |suffix|..] == suffix
  }

  /** `sep.join(parts)`: the parts in order with `sep` between neighbours. */
  function Join(sep: string, parts: seq<string>): (r: string)
    ensures |parts| > 0 ==> StartsWith(r, parts[0]) && EndsWith(r, parts[|parts| - 1])
  {
    if |parts| == 0 then ""
    else if |parts| == 1 then parts[0]
    else parts[0] + sep + Join(sep, parts[1..])
  }

  /** `s.split(sep)`: the maximal `sep`-free pieces of `s`; never empty, "" gives [""]. */
  function Split(sep: char, s: string): (r: seq<string>)
    ensures |r| >= 1
    decreases |s|
  {
    if |s| == 0 then [""]
    else
      var rest := Split(sep, s[1..]);
      if s[0] == sep then [""] + rest
      else [[s[0]] + rest[0]] + rest[1..]
  }

  /** A string without the separator splits into itself alone. */
  lemma {:induction false} SplitWithoutSeparator(sep: char, a: string)
    requires sep !in a
    ensures Split(sep, a) == [a]
  {
    if |a| > 0 {
      SplitWithoutSeparator(sep, a[1..]);
      assert [a[0]] + a[1..] == a;
    }
  }

  /** Splitting `a + sep + b` yields the separator-free piece `a` followed by the pieces of `b`. */
  lemma {:induction false} SplitAfterPiece(sep: char, a: string, b: string)
    requires sep !in a
    ensures Split(sep, a + [sep] + b) == [a] + Split(sep, b)
  {
    var s := a + [sep] + b;
    if |a| == 0 {
      assert s[1..] == b;
    } else {
      assert s[1..] == a[1..] + [sep] + b;
      SplitAfterPiece(sep, a[1..], b);
      assert [a[0]] + a[1..] == a;
    }
  }

  /** Joining separator-free parts and splitting again gives the parts back. */
  lemma {:induction false} SplitJoin(sep: char, parts: seq<string>)
    requires |parts| >= 1
    requires forall i :: 0 <= i < |parts| ==> sep !in parts[i]
    ensures Split(sep, Join([sep], parts)) == parts
  {
    if |parts| == 1 {
      SplitWithoutSeparator(sep, parts[0]);
    } else {
      SplitJoin(sep, parts[1..]);
      SplitAfterPiece(sep, parts[0], Join([sep], parts[1..]));
      assert [parts[0]] + parts[1..] == parts;
    }
  }

  /** Joining a piece in front of at least one other puts the separator after it. */
  lemma JoinCons(sep: string, x: string, parts: seq<string>)
    requires |parts| >= 1
    ensures Join(sep, [x] + parts) == x + sep + Join(sep, parts)
  {
    assert ([x] + parts)[1..] == parts;
  }

  /** Extending the first piece on the left extends the join by the same text. */
  lemma {:induction false} JoinExtendFirst(sep: string, c: string, parts: seq<string>)
    requires |parts| >= 1
    ensures Join(sep, [c + parts[0]] + parts[1..]) == c + Join(sep, parts)
  {
    if |parts| == 1 {
      assert [c + parts[0]] + parts[1..] == [c + parts[0]];
    } else {
      JoinCons(sep, c + parts[0], parts[1..]);
      JoinCons(sep, parts[0], parts[1..]);
      assert [parts[0]] + parts[1..] == parts;
    }
  }

  /** One step of `Split`: a leading separator closes an empty piece, any other character opens the first piece. */
  lemma SplitStep(sep: char, s: string)
    requires |s| > 0
    ensures s[0] == sep ==> Split(sep, s) == [""] + Split(sep, s[1..])
    ensures s[0] != sep ==> Split(sep, s) == [[s[0]] + Split(sep, s[1..])[0]] + Split(sep, s[1..])[1..]
  {
  }

  /** A non-empty string is its first character followed by the rest. */
  lemma HeadTail(s: string)
    requires |s| > 0
    ensures [s[0]] + s[1..] == s
  {
  }

  /** An empty first piece makes the join start with the separator. */
  lemma JoinAfterEmpty(sep: char, parts: seq<string>, t: string)
    requires |parts| >= 1
    requires Join([sep], parts) == t
    ensures Join([sep], [""] + parts) == [sep] + t
  {
    JoinCons([sep], "", parts);
    assert "" + [sep] == [sep];
  }

  /** The step of `JoinSplit`: if the tail of `s` splits and joins back, so does `s`. */
  lemma JoinSplitStep(sep: char, s: string)
    requires |s| > 0
    requires Join([sep], Split(sep, s[1..])) == s[1..]
    ensures Join([sep], Split(sep, s)) == s
  {
    SplitStep(sep, s);
    if s[0] == sep {
      JoinAfterEmpty(sep, Split(sep, s[1..]), s[1..]);
    } else {
      JoinExtendFirst([sep], [s[0]], Split(sep, s[1..]));
    }
    HeadTail(s);
  }

  /** Splitting and joining again with the same separator gives the string back. */
  lemma {:induction false} JoinSplit(sep: char, s: string)
    ensures Join([sep], Split(sep, s)) == s
    decreases |s|
  {
    if |s| > 0 {
      JoinSplit(sep, s[1..]);
      JoinSplitStep(sep, s);
    }
  }

  /** Three pieces joined: the separator between each neighbouring pair. */
  lemma JoinThree(sep: string, a: string, b: string, c: string)
    ensures Join(sep, [a, b, c]) == a + sep + (b + sep + c)
  {
    assert Join(sep, [c]) == c;
    assert [b, c][1..] == [c];
    assert Join(sep, [b, c]) == b + sep + c;
    assert [a, b, c][1..] == [b, c];
  }
}
