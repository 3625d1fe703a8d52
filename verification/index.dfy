/** The inverted index of `inverted_index.py`: a map from each word to the ids
    of the documents it occurs in, built in two passes over the documents and
    queried for the documents that hold any of a list of words.

    Posting lists are modelled as sets: the source turns each list into
    `list(set(...))`, whose order CPython does not promise, so only the
    elements of a posting list carry meaning. */
module Index {
  import opened Tokens
  import opened Documents

  /** The one field of the `InvertedIndex` class, `word_in_docs_map`. */
  datatype InvertedIndex = InvertedIndex(wordInDocs: map<string, set<int>>)

  /** The index right after the first pass: each word maps to the list of ids
      appended for it, one per occurrence, duplicates included. */
  type RawPostings = map<string, seq<int>>

  /** `set(l)` for a list of ids. */
  function Elements(l: seq<int>): set<int> {
    set x | x in l
  }

  /** `w` is one of the words of some document with id `d`. */
  ghost predicate Occurs(docs: seq<Document>, w: string, d: int) {
    exists doc :: doc in docs && doc.id == d && w in Words(doc.text)
  }

  /** `w` is one of the words of some document. */
  ghost predicate Appears(docs: seq<Document>, w: string) {
    exists doc :: doc in docs && w in Words(doc.text)
  }

  /** One step of the first pass: append `id` to the list of `w`, creating
      the list if `w` is new. */
  function Append(m: RawPostings, w: string, id: int): RawPostings {
    if w in m.Keys then m[w := m[w] + [id]] else m[w := [id]]
  }

  /** The inner loop of the first pass over the words of one document, in
      order. */
  function AppendAll(m: RawPostings, ws: seq<string>, id: int): RawPostings
    decreases |ws|
  {
    if ws == [] then m else Append(AppendAll(m, ws[..|ws| - 1], id), ws[|ws| - 1], id)
  }

  /** The first pass over the documents, in order. */
  function FirstPass(docs: seq<Document>): RawPostings
    decreases |docs|
  {
    if docs == [] then map[]
    else
      var doc := docs[|docs| - 1];
      AppendAll(FirstPass(docs[..|docs| - 1]), Words(doc.text), doc.id)
  }

  /** The second pass: each list replaced by its set of ids. The keys stay as
      they are and each set holds exactly the ids of its list. */
  function Dedup(m: RawPostings): (r: map<string, set<int>>)
    ensures r.Keys == m.Keys
    ensures forall w :: w in r ==> forall d :: d in r[w] <==> d in m[w]
  {
    map w | w in m :: Elements(m[w])
  }

  /** `build_inverted_index` */
  function BuildInvertedIndex(docs: seq<Document>): InvertedIndex {
    InvertedIndex(Dedup(FirstPass(docs)))
  }

  /** The first-pass loop over one document's words: a word gets a list
      exactly when it already had one or is among the words, and `id` joins
      its list exactly when it is among the words. */
  lemma {:induction false} AppendAllSpec(m: RawPostings, ws: seq<string>, id: int)
    ensures forall w :: w in AppendAll(m, ws, id) <==> w in m || w in ws
    ensures forall w, d :: w in AppendAll(m, ws, id) ==>
      (d in AppendAll(m, ws, id)[w] <==> (w in m && d in m[w]) || (w in ws && d == id))
    decreases |ws|
  {
    if ws != [] {
      var front := ws[..|ws| - 1];
      AppendAllSpec(m, front, id);
      assert ws == front + [ws[|ws| - 1]];
    }
  }

  /** After the first pass, `w` has a list exactly when it is a word of some
      document, and `d` is in that list exactly when some document with id
      `d` holds `w`. */
  lemma {:induction false} FirstPassSpec(docs: seq<Document>)
    ensures forall w :: w in FirstPass(docs) <==> Appears(docs, w)
    ensures forall w, d :: w in FirstPass(docs) ==> (d in FirstPass(docs)[w] <==> Occurs(docs, w, d))
    decreases |docs|
  {
    if docs != [] {
      var front := docs[..|docs| - 1];
      var doc := docs[|docs| - 1];
      FirstPassSpec(front);
      AppendAllSpec(FirstPass(front), Words(doc.text), doc.id);
      assert docs == front + [doc];
      forall w | Appears(docs, w) ensures Appears(front, w) || w in Words(doc.text) {
        var e :| e in docs && w in Words(e.text);
        if e != doc { assert e in front; }
      }
      forall w, d | Occurs(docs, w, d) ensures Occurs(front, w, d) || (w in Words(doc.text) && d == doc.id) {
        var e :| e in docs && e.id == d && w in Words(e.text);
        if e != doc { assert e in front; }
      }
    }
  }

  /** Build, membership: `d` is listed under `w` exactly when some document
      with id `d` has `w` among its whitespace-separated words. */
  lemma BuildMembership(docs: seq<Document>, w: string, d: int)
    ensures var index := BuildInvertedIndex(docs).wordInDocs;
      w in index && d in index[w] <==> Occurs(docs, w, d)
  {
    FirstPassSpec(docs);
  }

  /** Build, keys: the keys are exactly the tokens of the documents, so none
      is empty or holds whitespace. */
  lemma BuildKeys(docs: seq<Document>, w: string)
    ensures w in BuildInvertedIndex(docs).wordInDocs <==> exists doc :: doc in docs && IsToken(doc.text, w)
    ensures w in BuildInvertedIndex(docs).wordInDocs ==>
      w != [] && forall k :: 0 <= k < |w| ==> !Strings.IsSpace(w[k])
  {
    FirstPassSpec(docs);
    forall doc | doc in docs { WordsAreTokens(doc.text); }
    if w in BuildInvertedIndex(docs).wordInDocs {
      var doc :| doc in docs && w in Words(doc.text);
      WordShape(doc.text, w);
    }
  }

  /** Build, posting lists: no word is stored with an empty set of ids. */
  lemma BuildNonEmpty(docs: seq<Document>)
    ensures forall w :: w in BuildInvertedIndex(docs).wordInDocs ==> BuildInvertedIndex(docs).wordInDocs[w] != {}
  {
    FirstPassSpec(docs);
    forall w | w in BuildInvertedIndex(docs).wordInDocs
      ensures BuildInvertedIndex(docs).wordInDocs[w] != {}
    {
      var doc :| doc in docs && w in Words(doc.text);
      assert Occurs(docs, w, doc.id);
    }
  }

  /** Build, empty input: no documents give an empty mapping. */
  lemma BuildEmpty()
    ensures BuildInvertedIndex([]) == InvertedIndex(map[])
  {
  }

  /** Build depends only on which documents are given: reordering or
      repeating documents does not change the index. */
  lemma BuildOrderIndependent(docs1: seq<Document>, docs2: seq<Document>)
    requires forall doc :: doc in docs1 <==> doc in docs2
    ensures BuildInvertedIndex(docs1) == BuildInvertedIndex(docs2)
  {
    var m1 := BuildInvertedIndex(docs1).wordInDocs;
    var m2 := BuildInvertedIndex(docs2).wordInDocs;
    FirstPassSpec(docs1);
    FirstPassSpec(docs2);
    assert m1.Keys == m2.Keys;
    forall w | w in m1 ensures m1[w] == m2[w] {
      forall d ensures d in m1[w] <==> d in m2[w] {
        assert d in m1[w] <==> Occurs(docs1, w, d);
        assert d in m2[w] <==> Occurs(docs2, w, d);
        assert Occurs(docs1, w, d) <==> Occurs(docs2, w, d);
      }
    }
  }

  /** The ids listed under `w`, or none when `w` is not a key: the
      `except KeyError: pass` of the query loop. */
  function Lookup(index: InvertedIndex, w: string): set<int> {
    if w in index.wordInDocs then index.wordInDocs[w] else {}
  }

  /** `InvertedIndex.query`: the ids of the documents that hold ANY of the
      words. The docstring promises documents that hold every word (an AND),
      but the code collects the lists of all present words into one list and
      deduplicates it, which is a union, and the tests expect the union. */
  function Query(index: InvertedIndex, words: seq<string>): (r: set<int>)
    ensures forall d :: d in r <==> exists w :: w in words && w in index.wordInDocs && d in index.wordInDocs[w]
    decreases |words|
  {
    if words == [] then {}
    else
      var front := words[..|words| - 1];
      assert forall w :: w in words <==> w in front || w == words[|words| - 1];
      Query(index, front) + Lookup(index, words[|words| - 1])
  }

  /** Query, absent words: words that are not keys contribute nothing; in
      particular a query of absent words only, or of no words, is empty. */
  lemma QueryAbsent(index: InvertedIndex, words: seq<string>, absent: seq<string>)
    requires forall w :: w in absent ==> w !in index.wordInDocs
    ensures Query(index, words + absent) == Query(index, words)
    ensures Query(index, absent) == {}
  {
    assert forall w :: w in words + absent <==> w in words || w in absent;
  }

  /** Query, stability: the result depends only on which words are asked
      for, not on their order or repetition. */
  lemma QueryStable(index: InvertedIndex, words1: seq<string>, words2: seq<string>)
    requires forall w :: w in words1 <==> w in words2
    ensures Query(index, words1) == Query(index, words2)
  {
  }

  /** Querying a freshly built index: `d` comes back exactly when some
      document with id `d` holds at least one of the words. */
  lemma QueryBuild(docs: seq<Document>, words: seq<string>, d: int)
    ensures d in Query(BuildInvertedIndex(docs), words) <==> exists w :: w in words && Occurs(docs, w, d)
  {
    forall w | w in words { BuildMembership(docs, w, d); }
  }

  /** The index of the tests: `query(["hello", "word"])` is `{1, 2, 4}`, the
      union, where the AND of the docstring would give `{1}`; absent words
      give nothing. */
  lemma QueryExamples()
    ensures var index := InvertedIndex(map["word" := {1, 4}, "hello" := {1, 2}, "covid" := {3, 4}]);
      && Query(index, ["hello", "word"]) == {1, 2, 4}
      && index.wordInDocs["hello"] * index.wordInDocs["word"] == {1}
      && Query(index, ["ABS", "DDDDD"]) == {}
      && Query(index, []) == {}
  {
    var index := InvertedIndex(map["word" := {1, 4}, "hello" := {1, 2}, "covid" := {3, 4}]);
    assert ["hello", "word"][..1] == ["hello"];
    assert ["ABS", "DDDDD"][..1] == ["ABS"];
  }

  /** A storage policy of `storage_policy.py` (JSON, pickle, zlib), seen only
      through what it does: `save` turns a mapping into stored contents and
      `restore` turns stored contents back into a mapping. */
  datatype StoragePolicy<!Stored> = StoragePolicy(
    save: map<string, set<int>> -> Stored,
    restore: Stored -> map<string, set<int>>)

  /** `InvertedIndex.dump`: hands the mapping to the policy unchanged. */
  function Dump<Stored>(index: InvertedIndex, policy: StoragePolicy<Stored>): Stored {
    policy.save(index.wordInDocs)
  }

  /** `InvertedIndex.load`: a new index holding exactly what the policy
      returned. */
  function Load<Stored>(stored: Stored, policy: StoragePolicy<Stored>): InvertedIndex {
    InvertedIndex(policy.restore(stored))
  }

  /** Dump followed by load gives back the same index whenever the policy
      restores what it saved. */
  lemma DumpLoad<Stored>(index: InvertedIndex, policy: StoragePolicy<Stored>)
    requires policy.restore(policy.save(index.wordInDocs)) == index.wordInDocs
    ensures Load(Dump(index, policy), policy) == index
  {
  }
}
