/**
 * `make_module_file_name(module_name, module_params)`: the name of the parquet
 * file that caches one module run. The parameters are an ordered mapping,
 * written here as a sequence of (key, value) pairs in the mapping's order.
 */
module FileNames {
  import opened Wrappers
  import opened Text

  type Params = seq<(string, string)>

  const Extension: string := ".parquet"
  /** Separates the module name from the encoded parameters. */
  const Marker: string := "=>"
  /** Separates one key from its value. */
  const PairSep: char := '_'
  /** Separates consecutive key/value pairs. */
  const ListSep: char := '-'

  /** `f"{key}_{value}"` */
  function PairText(p: (string, string)): string
  {
    p.0 + [PairSep] + p.1
  }

  function PairTexts(params: Params): (r: seq<string>)
    ensures |r| == |params|
    ensures forall i :: 0 <= i < |params| ==> r[i] == PairText(params[i])
  {
    if |params| == 0 then [] else [PairText(params[0])] + PairTexts(params[1..])
  }

  /** "name.parquet" without parameters, otherwise "name=>k1_v1-k2_v2-….parquet". */
  function ModuleFileName(name: string, params: Params): (r: string)
    ensures StartsWith(r, name) && EndsWith(r, Extension)
    ensures |r| >= |name| + |Extension|
  {
    if |params| == 0 then name + Extension
    else name + Marker + Join([ListSep], PairTexts(params)) + Extension
  }

  /** The "=>" marker follows the module name exactly when the mapping is not empty. */
  lemma MarkerIffParams(name: string, params: Params)
    ensures var f := ModuleFileName(name, params);
      |f| >= |name| + |Marker| && (f[|name|..|name| + |Marker|] == Marker <==> |params| > 0)
  {
    var f := ModuleFileName(name, params);
    if |params| == 0 {
      assert f[|name|] == '.';
    } else {
      var mid := Join([ListSep], PairTexts(params));
      assert f == name + Marker + (mid + Extension);
    }
  }

  /** A one-pair mapping encodes as "name=>k_v.parquet": no separator before or after the pair. */
  lemma SinglePair(name: string, key: string, value: string)
    ensures ModuleFileName(name, [(key, value)]) == name + Marker + key + [PairSep] + value + Extension
  {
  }

  // ---- Decoding: the inverse of ModuleFileName ----

  /** Splits one "key_value" piece at its first underscore. */
  function ParsePair(piece: string): (r: Option<(string, string)>)
    ensures r.Some? ==> PairText(r.value) == piece && PairSep !in r.value.0
  {
    if |piece| == 0 then None
    else if piece[0] == PairSep then Some(([], piece[1..]))
    else match ParsePair(piece[1..])
      case None => None
      case Some(p) => Some(([piece[0]] + p.0, p.1))
  }

  function ParsePairs(pieces: seq<string>): (r: Option<Params>)
    ensures r.Some? ==> PairTexts(r.value) == pieces
  {
    if |pieces| == 0 then Some([])
    else match (ParsePair(pieces[0]), ParsePairs(pieces[1..]))
      case (Some(p), Some(ps)) => Some([p] + ps)
      case _ => None
  }

  /** Recovers the parameters from a file name produced for module `name`, if it is one. */
  function DecodeModuleFileName(name: string, f: string): Option<Params>
  {
    if f == name + Extension then Some([])
    else if |f| >= |name| + |Marker| + |Extension| && StartsWith(f, name)
            && f[|name|..|name| + |Marker|] == Marker && EndsWith(f, Extension)
    then ParsePairs(Split(ListSep, f[|name| + |Marker|..|f| - |Extension|]))
    else None
  }

  /** Keys free of '_' and '-', values free of '-': the parameters the file name can carry unambiguously. */
  ghost predicate Decodable(params: Params)
  {
    forall i :: 0 <= i < |params| ==>
      PairSep !in params[i].0 && ListSep !in params[i].0 && ListSep !in params[i].1
  }

  lemma {:induction false} ParsePairText(p: (string, string))
    requires PairSep !in p.0
    ensures ParsePair(PairText(p)) == Some(p)
    decreases |p.0|
  {
    var piece := PairText(p);
    if |p.0| > 0 {
      assert piece[1..] == PairText((p.0[1..], p.1));
      ParsePairText((p.0[1..], p.1));
      assert [p.0[0]] + p.0[1..] == p.0;
    } else {
      assert piece[1..] == p.1;
    }
  }

  lemma {:induction false} ParsePairTexts(params: Params)
    requires Decodable(params)
    ensures ParsePairs(PairTexts(params)) == Some(params)
  {
    if |params| > 0 {
      ParsePairText(params[0]);
      ParsePairTexts(params[1..]);
      assert PairTexts(params)[1..] == PairTexts(params[1..]);
      assert [params[0]] + params[1..] == params;
    }
  }

  /** Every decodable mapping is recovered, pairs in order, from its file name. */
  lemma DecodeEncode(name: string, params: Params)
    requires Decodable(params)
    ensures DecodeModuleFileName(name, ModuleFileName(name, params)) == Some(params)
  {
    var f := ModuleFileName(name, params);
    if |params| > 0 {
      var pieces := PairTexts(params);
      var mid := Join([ListSep], pieces);
      assert f == name + Marker + mid + Extension;
      assert f != name + Extension by {
        assert f[|name|] == Marker[0] != Extension[0];
        assert (name + Extension)[|name|] == Extension[0];
      }
      assert f[..|name|] == name;
      assert f[|name|..|name| + |Marker|] == Marker;
      assert f[|f| - |Extension|..] == Extension;
      assert f[|name| + |Marker|..|f| - |Extension|] == mid;
      forall i | 0 <= i < |pieces| ensures ListSep !in pieces[i] {
        assert pieces[i] == params[i].0 + [PairSep] + params[i].1;
      }
      SplitJoin(ListSep, pieces);
      ParsePairTexts(params);
    }
  }

  /** Whatever decodes re-encodes to the same file name: decoding never invents parameters. */
  lemma EncodeDecode(name: string, f: string)
    requires DecodeModuleFileName(name, f).Some?
    ensures ModuleFileName(name, DecodeModuleFileName(name, f).value) == f
  {
    if f != name + Extension {
      var mid := f[|name| + |Marker|..|f| - |Extension|];
      var pieces := Split(ListSep, mid);
      var params := DecodeModuleFileName(name, f).value;
      assert PairTexts(params) == pieces;
      assert |params| == |pieces| >= 1;
      JoinSplit(ListSep, mid);
      Reassemble(name, f);
    }
  }

  /** A name of the decodable shape is the module name, the marker, the middle part and the extension. */
  lemma Reassemble(name: string, f: string)
    requires |f| >= |name| + |Marker| + |Extension| && StartsWith(f, name)
    requires f[|name|..|name| + |Marker|] == Marker && EndsWith(f, Extension)
    ensures f == name + Marker + f[|name| + |Marker|..|f| - |Extension|] + Extension
  {
  }
}
