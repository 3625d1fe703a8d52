/** `inverted_index_starter.py`, the earlier version of the same index, written
    the way the source writes it: loops that append to lists in a map, then
    turn each list into `list(set(...))`. Each method is proved to compute
    what the functional model in `Index` computes, so the two files agree on
    every input. */
module Starter {
  import opened Results
  import opened Tokens
  import opened Documents
  import Index

  predicate Distinct(l: seq<int>) {
    forall i, j :: 0 <= i < j < |l| ==> l[i] != l[j]
  }

  /** The sets of ids of a mapping whose posting lists are lists. */
  function AsSets(m: map<string, seq<int>>): map<string, set<int>> {
    map w | w in m :: Index.Elements(m[w])
  }

  /** `list(set(l))`: the elements of `l` once each. CPython's set order is
      not promised, so the contract fixes only which ids the list holds; this
      body keeps them in order of first occurrence. */
  method Deduplicate(l: seq<int>) returns (r: seq<int>)
    ensures Index.Elements(r) == Index.Elements(l)
    ensures Distinct(r)
  {
    r := [];
    for i := 0 to |l|
      invariant Index.Elements(r) == Index.Elements(l[..i])
      invariant Distinct(r)
    {
      assert l[..i + 1] == l[..i] + [l[i]];
      assert Index.Elements(l[..i + 1]) == Index.Elements(l[..i]) + {l[i]};
      if l[i] !in r {
        r := r + [l[i]];
      }
      assert Index.Elements(r) == Index.Elements(l[..i]) + {l[i]};
    }
    assert l[..|l|] == l;
  }

  /** `build_inverted_index` of the starter: the index it returns has the
      keys of the functional build, and each list holds, once each, exactly
      the ids of the functional build's set. */
  method BuildInvertedIndex(docs: seq<Document>) returns (wordInDocs: map<string, seq<int>>)
    ensures wordInDocs.Keys == Index.BuildInvertedIndex(docs).wordInDocs.Keys
    ensures forall w :: w in wordInDocs ==>
      && Distinct(wordInDocs[w])
      && Index.Elements(wordInDocs[w]) == Index.BuildInvertedIndex(docs).wordInDocs[w]
  {
    var lists: map<string, seq<int>> := map[];
    for i := 0 to |docs|
      invariant lists == Index.FirstPass(docs[..i])
    {
      var doc := docs[i];
      var words := Words(doc.text);
      for k := 0 to |words|
        invariant lists == Index.AppendAll(Index.FirstPass(docs[..i]), words[..k], doc.id)
      {
        var word := words[k];
        if word in lists.Keys {
          lists := lists[word := lists[word] + [doc.id]];
        } else {
          lists := lists[word := [doc.id]];
        }
        assert words[..k + 1][..k] == words[..k];
      }
      assert words[..|words|] == words;
      assert docs[..i + 1][..i] == docs[..i];
    }
    assert docs[..|docs|] == docs;
    // Second pass: replace every list by the list of its distinct ids.
    wordInDocs := map[];
    var pending := lists.Keys;
    while pending != {}
      invariant pending <= lists.Keys
      invariant wordInDocs.Keys == lists.Keys - pending
      invariant forall w :: w in wordInDocs ==>
        Distinct(wordInDocs[w]) && Index.Elements(wordInDocs[w]) == Index.Elements(lists[w])
      decreases |pending|
    {
      var key :| key in pending;
      var deduped := Deduplicate(lists[key]);
      wordInDocs := wordInDocs[key := deduped];
      pending := pending - {key};
    }
  }

  /** `InvertedIndex.query` of the starter over an index whose posting lists
      are lists (as `load` returns them): the result lists each id once, and
      holds exactly the ids of the functional query. */
  method Query(wordInDocs: map<string, seq<int>>, words: seq<string>) returns (documents: seq<int>)
    ensures Distinct(documents)
    ensures Index.Elements(documents) == Index.Query(Index.InvertedIndex(AsSets(wordInDocs)), words)
  {
    var index := Index.InvertedIndex(AsSets(wordInDocs));
    var collected: seq<int> := [];
    for i := 0 to |words|
      invariant Index.Elements(collected) == Index.Query(index, words[..i])
    {
      var word := words[i];
      if word in wordInDocs {
        collected := collected + wordInDocs[word];
      }
      assert words[..i + 1][..i] == words[..i];
    }
    assert words[..|words|] == words;
    documents := Deduplicate(collected);
  }

  /** The line loop of `load_documents` in the starter: the same per-line
      parse, stopping at the first line that fails. */
  method LoadDocuments(lines: seq<string>) returns (r: Result<seq<Document>, LineError>)
    ensures r == Documents.LoadDocuments(lines)
  {
    var documents: seq<Document> := [];
    for i := 0 to |lines|
      invariant Documents.LoadDocuments(lines[..i]) == Success(documents)
    {
      assert lines[..i + 1][..i] == lines[..i];
      match ParseLine(lines[i])
      case Failure(e) =>
        MapAllPrefixFailure(lines, ParseLine, i + 1);
        return Failure(e);
      case Success(doc) =>
        documents := documents + [doc];
    }
    assert lines[..|lines|] == lines;
    r := Success(documents);
  }
}
