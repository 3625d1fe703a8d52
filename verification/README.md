# Inverted index over tab-separated documents

A Dafny model of the index core of `inverted_index.py` and of its earlier
copy `inverted_index_starter.py`:

- `load_documents` reads a dataset, one `doc_id<TAB>doc_text` line per
  document. Each line is stripped, split on tabs, unpacked into exactly two
  fields, and its first field is converted with `int`. The first bad line
  raises `ValueError` and ends the load.
- `build_inverted_index` makes two passes over the documents:
  - the first appends each document's id to the list of every word that
    `text.split()` yields, duplicates included;
  - the second replaces each list by `list(set(...))`.
- `InvertedIndex.query` concatenates the lists of the words that are keys,
  skipping absent words, and returns the deduplicated result.
- `dump` and `load` hand the mapping to a storage policy and take it back.

Modules, one per file:

- `Results`: `Option`/`Result`, plus `MapAll`, a loop that stops at the
  first failure (the exception of the Python loop).
- `Strings`: ASCII `isspace`, `strip()`, `split(sep)` and `sep.join`.
- `Tokens`: argument-less `str.split()`. The words it yields are proved
  to be exactly the maximal whitespace-free runs of the text.
- `Integers`: `int(s)` and `str(n)`.
- `Documents`: the line parse and `load_documents`.
- `Index`: the build, the query and the storage delegation. The code is
  written as pure left folds, and posting lists are sets.
- `Starter`: the starter file's functions as loop-based methods, written
  the way the source writes them. Each is proved to compute what `Index`
  and `Documents` compute, so the two files agree on every input.

Three points where the code decides what a reader might expect otherwise:

- **Query.** The `query` docstring (inverted_index.py:24-25) promises the
  documents that hold every word (an AND). The code collects the lists of
  all present words and deduplicates them, which is a union. The tests
  (test_inverted_index.py:79-92) expect the union: `{1, 2, 4}` for
  `["hello", "word"]`. The model follows the code, and
  `Index.QueryExamples` shows both sets.
- **Documents.** A document is the pair `[doc_id, text]`, and its words
  come from the text.
- **Ids.** `int` accepts a sign, so the line `-3<TAB>x` loads a document
  with id -3.

## Model

| member | source | states |
|---|---|---|
| Results.MapAllSpec | inverted_index.py:101-110 | a per-element loop that raises on failure succeeds iff every element succeeds; on success it gives one value per element in order; on failure it gives the error of the first failing element, with every earlier element succeeding |
| Results.MapAllPrefixFailure | inverted_index.py:104-108 | once a prefix of the input fails, later elements are never looked at: the result is the prefix's failure |
| Results.MapAllSuccess | inverted_index.py:104-108 | when element i succeeds with ys[i] for every i, the loop returns exactly ys |
| Strings.StripSpec | inverted_index.py:105 | stripping a whitespace test returns a string with no such character at either end, and the input is that string with only such characters before and after it |
| Strings.StripPadded | inverted_index.py:105 | any stripped characters around a trimmed string are removed exactly: strip(p + a + q) == a |
| Strings.StripTrimmed | inverted_index.py:105 | a string without stripped characters at its ends is left unchanged |
| Strings.StripIgnoresPadding | inverted_index.py:105 | adding stripped characters around a string does not change its strip |
| Strings.SplitOnSpec | inverted_index.py:105-106 | `split('\t')` yields one more field than there are tabs; no field holds a tab; fields may be empty; joining the fields with tabs gives back the input |
| Strings.SplitOnFirst | inverted_index.py:105-106 | the first field of a + tab + b is a when a has no tab, and the rest are the fields of b |
| Strings.SplitJoin | inverted_index.py:105-106 | splitting the tab-join of tab-free parts returns exactly those parts |
| Tokens.RunEnd | inverted_index.py:133 | the scan from p stops at the first whitespace (or the end), with no whitespace before it |
| Tokens.WordsFromSound | inverted_index.py:133 | every word the scanner yields from a word boundary on is a maximal whitespace-free run starting there or later |
| Tokens.WordsFromComplete | inverted_index.py:133 | every maximal whitespace-free run starting at or after a boundary is yielded by the scanner |
| Tokens.WordsAreTokens | inverted_index.py:133 | the words of `text.split()` are exactly the maximal runs of non-whitespace characters of the text |
| Tokens.WordShape | inverted_index.py:133 | no word of `split()` is empty or contains whitespace |
| Tokens.SplitCollapsesRuns | test_inverted_index.py:37-46 | `"hello  world".split()` is `["hello", "world"]`: a double space gives no empty word |
| Integers.NatToString | inverted_index.py:83-88 | `str(n)`, the id as a dataset line writes it, is a non-empty run of digits without a leading zero |
| Integers.ParseSigned | inverted_index.py:107 | `int` of a field without surrounding whitespace succeeds iff the field is digits, or a `+`/`-` sign followed by digits; the value is the base-10 value of the digits, negated after a minus sign |
| Integers.DecimalValueOfNatToString | inverted_index.py:83-88 | reading back the digits of `str(n)` gives n |
| Integers.IntToStringIsWord | inverted_index.py:83-88 | `str(n)` is non-empty and holds neither whitespace nor a tab, so it survives strip and split intact |
| Integers.ParseIntOfIntToString | inverted_index.py:107 | `int(str(n)) == n` for every integer, negative ones included |
| Integers.ParseIntIgnoresPadding | inverted_index.py:107 | `int` ignores the whitespace it skips (space and codes 9..13) around the number |
| Integers.ParseIntRejectsSeparator | inverted_index.py:105-107 | a separator 0x1C..0x1F after the digits is whitespace to `strip()` but makes `int` fail |
| Documents.ParseStrippedSpec | inverted_index.py:105-107 | for a stripped line: a field-count error iff the line does not hold exactly one tab, with count = tabs + 1; an id error names the text before the tab, which `int` rejects; otherwise the id is `int` of the text before the tab and the text is everything after it, inner spaces included |
| Documents.ParseLineSpec | inverted_index.py:104-108 | the same characterisation for a raw line, in terms of its strip: surrounding whitespace and the newline play no part |
| Documents.ParseFormatLine | inverted_index.py:83-108 | a document written as `id<TAB>text<NEWLINE>` reads back as the same document, for any text that is non-empty, holds no tab, line feed or carriage return, and does not end in whitespace |
| Documents.EmptyTextRejected | inverted_index.py:105-106 | a document with empty text cannot be read back: strip eats the tab, leaving one field |
| Documents.ExtraTabRejected | inverted_index.py:105-106 | a line with a second tab fails on the field count with three fields (the malformed line of test_inverted_index.py:29-34) |
| Documents.BlankLineRejected | inverted_index.py:104-106 | a line of whitespace only fails with a single field |
| Documents.LoadDocumentsSpec | inverted_index.py:101-110 | the load succeeds iff every line parses; then it holds one document per line, in line order; otherwise it fails with the error of the first bad line |
| Documents.LoadFormatLines | test_inverted_index.py:17-26 | a dataset written one line per document loads back as the same documents in the same order, for texts that are non-empty, free of tabs and line breaks, and do not end in whitespace |
| Index.AppendAllSpec | inverted_index.py:133-137 | after one document's words, a word has a list iff it had one before or is among the words; the id joins exactly the lists of those words |
| Index.FirstPassSpec | inverted_index.py:132-137 | after the first pass, a word is a key iff some document has it among its words; d is in its list iff some document with id d has it |
| Index.BuildMembership | inverted_index.py:113-143 | d is listed under w iff some document with id d has w among its words |
| Index.BuildKeys | inverted_index.py:132-137 | the keys are exactly the maximal whitespace-free runs of the documents' texts, so no key is empty or holds whitespace |
| Index.BuildNonEmpty | inverted_index.py:132-141 | no word is stored with an empty set of ids |
| Index.BuildEmpty | inverted_index.py:130-143 | no documents give an empty mapping |
| Index.BuildOrderIndependent | inverted_index.py:130-143 | the index depends only on which documents are given, not on their order or repetition |
| Index.Query | inverted_index.py:33-43 | d is returned iff some asked word is a key whose set holds d: the union of the present words' sets |
| Index.QueryAbsent | inverted_index.py:35-39 | words that are not keys contribute nothing; a query made only of absent words, or of no words, is empty |
| Index.QueryStable | inverted_index.py:33-43 | the result depends only on which words are asked, not on their order or repetition |
| Index.QueryBuild | inverted_index.py:33-43 | on a built index, d is returned iff some document with id d holds at least one asked word |
| Index.QueryExamples | test_inverted_index.py:79-104 | the tests' mapping gives `{1, 2, 4}` for `["hello", "word"]`, whereas the intersection would be `{1}`; absent words and an empty query give nothing |
| Index.DumpLoad | inverted_index.py:45-76 | dump then load gives back the same index whenever the policy restores what it saved |
| Starter.Deduplicate | inverted_index_starter.py:62 | `list(set(l))` holds each element of l exactly once and nothing else |
| Starter.BuildInvertedIndex | inverted_index_starter.py:50-64 | the starter's build has the keys of `Index.BuildInvertedIndex`; each list is duplicate-free and holds exactly that build's ids for the word |
| Starter.Query | inverted_index_starter.py:8-20 | the starter's query over lists returns each id once, and exactly the ids of `Index.Query` over the same mapping read as sets |
| Starter.LoadDocuments | inverted_index_starter.py:37-47 | the starter's line loop returns exactly what `Documents.LoadDocuments` returns, failures included |

## Left out

- File I/O is not modelled. `open`, `readlines` and the file path are not
  part of the model: `LoadDocuments` receives the lines that `readlines`
  returns, each with its newline, except perhaps the last. A missing file
  (`FileNotFoundError`) is not modelled.
- Storage policies are left out. The JSON, pickle and zlib policies of
  `storage_policy.py` and the packed-binary codec are not part of this
  model. A policy appears only as a pair of functions (`save`, `restore`),
  and `Index.Dump`/`Index.Load` state the delegation only.
- The starter's `dump`/`load` call `json.dump`/`json.load` directly. They
  are covered by `Index.Dump`/`Index.Load` with a JSON policy. How JSON
  encodes a mapping is not modelled.
- `main()` and the stackoverflow_analytics package are not part of this
  model.
- Whitespace is ASCII only: tab, line feed, vertical tab, form feed,
  carriage return, the separators 0x1C..0x1F, and space. The non-ASCII
  whitespace that Python's `str.isspace` also accepts (0x85, 0xA0, the
  Unicode spaces) is left out.
- Strings.StripSpec: `strip()` is modelled only over that ASCII
  whitespace.
- Tokens.WordsAreTokens: states which words `split()` yields, not their
  order or how often each occurs. The index depends only on membership.
- Integers.ParseIntIgnoresPadding: `int` skips only space and codes 9..13
  among the ASCII characters (not 0x1C..0x1F, which
  `Integers.ParseIntRejectsSeparator` shows). The non-ASCII whitespace that
  `int` also skips is left out with the rest of non-ASCII whitespace.
- Integers.ParseSigned: `int` is modelled as an optional sign followed by
  ASCII digits. The underscores between digits and the non-ASCII decimal
  digits that Python's `int` also accepts are rejected here. The limit of
  4300 digits that Python 3.11 and later enforce in `int` is not modelled,
  because the source does not fix a Python version: longer ids parse here.
- Starter.Deduplicate: the source's `list(set(...))` follows CPython's
  set iteration order. No order is promised, so the contract states only
  which ids the list holds and that each appears once. The body keeps them
  in first-occurrence order.
- Index.Query: posting lists and results are sets, so the list order
  returned by `list(set(...))` in `query` and in the build is not modelled.
- A loaded index: the source takes whatever mapping the policy returns.
  The model types `StoragePolicy.restore` to return a mapping from words
  to sets of ids, so it assumes the loaded mapping has that shape.
