# AutoRAG utility helpers in Dafny

A reference model of five helpers from AutoRAG's `autorag.utils` package. AutoRAG is a toolkit for
tuning retrieval-augmented generation pipelines. The behaviour of the helpers is the one their pytest
suite, `tests/autorag/utils/test_util.py`, pins down:

- `make_module_file_name(module_name, module_params)` builds the parquet file name that caches one module
  run: `name.parquet` for no parameters, otherwise `name=>k1_v1-k2_v2-….parquet` (module `FileNames`).
  The model also defines the inverse, `DecodeModuleFileName`, and proves the two round trips.
- `make_combinations(target_dict)` expands a mapping whose values are a scalar or a list into the
  cartesian product over the list-valued keys (module `Combinations`).
- `find_best_result_path(node_dir)` picks the `best_*.parquet` entry of a directory listing (module
  `BestResult`).
- `fetch_contents(corpus_data, ids)` looks up the `contents` of every `doc_id` in a nested id list and
  keeps the nesting (module `Contents`).
- `result_to_dataframe(column_names)` turns what a wrapped function returns into a table with named
  columns (module `Tables`).

Module `Text` holds Python's `startswith`, `endswith`, `sep.join` and `split` on one character. Module
`Wrappers` holds `Option` and `Result`. Module `UtilTests` states the assertions of the tests for
`make_module_file_name`, `find_best_result_path`, `result_to_dataframe` and `make_combinations` as lemmas
about the model. The `fetch_contents` assertions are stated for any sample by `Contents.FetchSampledRows`.
The `isinstance(..., pd.DataFrame)` checks and the `load_summary_file` test are not modelled.

Modelling choices:
- An ordered Python dict becomes a sequence of (key, value) pairs in iteration order.
- A `make_combinations` value is `Scalar(s)` or `Choices(list)`, so the value is tagged rather than
  type-inspected. Each output is a sequence of (key, value) pairs with the input's keys in order.
- `make_combinations` lists the combinations as nested loops over the keys in mapping order would:
  the first key is outermost and the last key varies fastest. This order is the model's choice. The
  test checks only how many combinations there are and that each one is expected, not their order.
- A directory becomes the list of its entry names, in the order the directory reports them. The first
  matching entry is returned, and `None` stands for "no best file".
- A corpus is a sequence of `(doc_id, contents)` records. A lookup takes the first record with the id.
  An id missing from the corpus makes the whole fetch `None`, so entries are never dropped silently.
- What the wrapped function returns is tagged `Single(values)` (a bare sequence) or `Several(columns)`
  (a tuple of sequences). Too few or too many names gives `ArityMismatch`, which is checked first.
  When the counts match, columns of unequal length give `RaggedColumns`. Cell values are integers, as in the tests.

## Model

| member | source | states |
|---|---|---|
| `FileNames.ModuleFileName` | tests/autorag/utils/test_util.py:43-51 | every file name starts with the module name and ends with ".parquet"; `MarkerIffParams`, `SinglePair`, `DecodeEncode` and `EncodeDecode` give its other properties |
| `Text.Join` | tests/autorag/utils/test_util.py:43-51 | `"-".join`: a non-empty join starts with the first piece and ends with the last, so the join adds no separator before the first piece or after the last; `SplitJoin` and `JoinSplit` give its inverse |
| `FileNames.MarkerIffParams` | tests/autorag/utils/test_util.py:43-48 | the "=>" marker follows the module name if and only if the parameter mapping is non-empty |
| `FileNames.SinglePair` | tests/autorag/utils/test_util.py:50-51 | one pair encodes as name=>k_v.parquet, with no "-" before or after it |
| `FileNames.PairTexts` | tests/autorag/utils/test_util.py:43-45 | one "key_value" piece per pair, in mapping order |
| `FileNames.DecodeEncode` | tests/autorag/utils/test_util.py:43-45 | decoding a file name gives back every pair in order, for keys free of '_' and '-' and values free of '-' |
| `FileNames.EncodeDecode` | tests/autorag/utils/test_util.py:43-48 | whatever decodes re-encodes to the same file name, so the pairs are exactly what the name carries |
| `FileNames.ParsePair` | tests/autorag/utils/test_util.py:43-45 | a piece that parses is the "key_value" text of its result, and the key holds no '_' |
| `Text.SplitJoin` | tests/autorag/utils/test_util.py:43-45 | joining '-'-free pieces with "-" and splitting on '-' gives the pieces back |
| `Text.JoinSplit` | tests/autorag/utils/test_util.py:43-45 | splitting on a character and joining with it again gives the string back |
| `Text.JoinThree` | tests/autorag/utils/test_util.py:43-45 | three pieces joined are the first, the separator, the second, the separator and the third, as the three-pair fixture's name spells out |
| `Combinations.PrependEach` | tests/autorag/utils/test_util.py:113-119 | one output per (value, tail) pair, and each output is (key, value) put in front of a tail |
| `Combinations.MakeCombinations` | tests/autorag/utils/test_util.py:113-121 | the number of combinations is the product of the list lengths, a scalar counting as one; `CombinationsExact` states that the outputs are exactly the cartesian product |
| `Combinations.CombinationsSound` | tests/autorag/utils/test_util.py:113-122 | every output has the input's keys in order, a scalar key's own value and an element of a list key's list |
| `Combinations.CombinationsComplete` | tests/autorag/utils/test_util.py:113-122 | every member of the cartesian product appears among the outputs |
| `Combinations.CombinationsExact` | tests/autorag/utils/test_util.py:113-122 | a mapping is an output if and only if it belongs to the cartesian product |
| `Combinations.KeysAndScalarsPreserved` | tests/autorag/utils/test_util.py:113-122 | each output keeps every key and fixed scalar, and picks a list key's value from its list |
| `Combinations.CombinationAt` | tests/autorag/utils/test_util.py:113-119 | the enumeration order the model chooses (the test does not check order): the first key is outermost and the last key varies fastest |
| `Combinations.NoChoicesSingleCombination` | tests/autorag/utils/test_util.py:113-121 | a mapping of scalars only yields exactly one combination, the mapping itself |
| `Combinations.EmptyChoicesNoCombination` | tests/autorag/utils/test_util.py:113-121 | an empty list anywhere makes the product empty |
| `Contents.Lookup` | tests/autorag/utils/test_util.py:58 | none exactly when no record has the id; otherwise the contents of the first record with that id |
| `Contents.FetchGroup` | tests/autorag/utils/test_util.py:58-59 | a found group has one entry per requested id |
| `Contents.FetchGroupElements` | tests/autorag/utils/test_util.py:58-60 | entry j of a found group is the contents looked up for id j |
| `Contents.FetchGroupSome` | tests/autorag/utils/test_util.py:58 | a group is found exactly when every one of its ids is in the corpus |
| `Contents.FetchContents` | tests/autorag/utils/test_util.py:58-59 | a successful fetch has one output group per requested group; `FetchContentsShape` and `FlattenFetch` give the rest |
| `Contents.Flatten` | tests/autorag/utils/test_util.py:60 | `itertools.chain.from_iterable`: an element is in the flattened list exactly when it is in one of the groups |
| `Contents.FetchContentsShape` | tests/autorag/utils/test_util.py:58-59 | a fetch succeeds if and only if every id is present, and then yields one output group per requested group |
| `Contents.FetchGroupAppend` | tests/autorag/utils/test_util.py:60 | looking up a concatenation of id lists concatenates the lookups |
| `Contents.FlattenFetch` | tests/autorag/utils/test_util.py:60 | flattening the output gives the contents of the flattened request, in request order |
| `Contents.LookupRow` | tests/autorag/utils/test_util.py:57-60 | with distinct doc_ids, looking up a row's id gives that row's contents |
| `Contents.SingletonIds` | tests/autorag/utils/test_util.py:58 | each sampled row's doc_id as a group of its own, in sample order |
| `Contents.IdsOf` | tests/autorag/utils/test_util.py:58 | the doc_ids of the sampled rows, in order |
| `Contents.ContentsOf` | tests/autorag/utils/test_util.py:60 | the contents of the sampled rows, in order |
| `Contents.FetchSampledRows` | tests/autorag/utils/test_util.py:54-60 | fetching the ids of rows sampled from a corpus keyed by doc_id gives one group per row, which flatten to the rows' contents |
| `BestResult.IsBestResult` | tests/autorag/utils/test_util.py:67-81 | the filter: a name that starts with "best_" and ends with ".parquet" holds both side by side, so it is at least 13 characters long |
| `BestResult.FindBestResultPath` | tests/autorag/utils/test_util.py:63-81 | none exactly when no entry starts with "best_" and ends with ".parquet"; otherwise the first such entry |
| `BestResult.UniqueBestFound` | tests/autorag/utils/test_util.py:67-81 | with exactly one best_*.parquet entry, that entry is returned whatever the other entries are |
| `BestResult.FoundIsListedBest` | tests/autorag/utils/test_util.py:78-81 | a returned name is an entry of the listing and matches the best-result pattern |
| `Tables.Label` | tests/autorag/utils/test_util.py:92-100 | column i carries name i and the i-th sequence |
| `Tables.ResultToTable` | tests/autorag/utils/test_util.py:91-109 | a table exists if and only if there are as many names as sequences and all sequences have one length; columns are named as given, in order, and column i holds the i-th sequence; a count mismatch fails with `ArityMismatch` of both counts, and only when the counts match do unequal lengths fail with `RaggedColumns` |
| `Tables.Row` | tests/autorag/utils/test_util.py:92-100 | row k holds the k-th value of every column, in column order |
| `Tables.TableRows` | tests/autorag/utils/test_util.py:92-100 | a built table is rectangular, and row k holds the k-th value of each returned sequence |
| `Tables.SingleIsOneColumn` | tests/autorag/utils/test_util.py:102-109 | a bare sequence under one name is the one-column table with the same values, as a one-element tuple would be |
| `Tables.SingleNeedsOneName` | tests/autorag/utils/test_util.py:102-109 | a bare sequence gives a table exactly when there is one column name |
| `UtilTests.FixtureParamsEncoding` | tests/autorag/utils/test_util.py:27-32 | the fixture's three pairs encode as param1_value1-param2_value2-param3_value3 |
| `UtilTests.TestMakeModuleFileName` | tests/autorag/utils/test_util.py:43-45 | the three-parameter fixture gives test_module=>param1_value1-param2_value2-param3_value3.parquet |
| `UtilTests.TestMakeModuleFileNameEmpty` | tests/autorag/utils/test_util.py:47-48 | the empty mapping gives test_module.parquet |
| `UtilTests.TestMakeModuleFileNameOnePair` | tests/autorag/utils/test_util.py:50-51 | one pair gives test_module=>param1_value1.parquet |
| `UtilTests.TestFindBestResultPath` | tests/autorag/utils/test_util.py:63-81 | the four test files, listed in any order, give best_result.parquet |
| `UtilTests.TestResultToDataframe` | tests/autorag/utils/test_util.py:91-109 | ([1,2],[3,4]) gives columns col_1=[1,2] and col_2=[3,4], with rows [1,3] and [2,4]; [1,2,3] under col_1 gives one column |
| `UtilTests.TestMakeCombinations` | tests/autorag/utils/test_util.py:112-122 | the test mapping yields four combinations, each in the expected solution |

## Left out

- `load_summary_file` reads a parquet file and decodes dictionary-valued columns with a parser that is not part of this model, so it is not modelled.
- Everything that touches the file system is not modelled: writing the fixture files, the temporary directories, reading `corpus_data_sample.parquet` and the root-directory resolution. A directory is given as its list of entry names.
- The random `sample(n=10)` of the corpus test is not modelled. `Contents.FetchSampledRows` holds for every list of rows drawn from the corpus.
- pandas `DataFrame` itself and the decorator mechanics of `result_to_dataframe` are not modelled. A table is a list of (name, values) columns, and the wrapped call is replaced by the value it returns.
- `BestResult.FindBestResultPath`: when several entries match, the model returns the first one in listing order. It neither sorts the entries nor reports an error. The order in which a real directory lists its entries is not modelled.
- `Contents.Lookup`: when several records share an id, the first one is used. Only a corpus with distinct ids (`UniqueIds`) gets the stronger guarantee of `Contents.FetchSampledRows`.
- `FileNames.DecodeEncode` holds only for keys free of '_' and '-' and values free of '-'. The encoding does no escaping, so other parameters cannot be told apart in the file name.
- Parameter values are strings. Python allows values of any type, and how those are printed is not modelled.
- Distinctness of the combinations is not modelled, since repeated list elements would repeat combinations.
