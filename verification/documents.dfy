/** Reading documents: each line of a dataset is `doc_id<TAB>doc_text`. The
    file itself (`open`, `readlines`) is outside the model; `LoadDocuments`
    receives the lines that `readlines` would return. */
module Documents {
  import opened Results
  import opened Strings
  import opened Integers

  /** One document, the `[doc_id, text]` pair of the source. */
  datatype Document = Document(id: int, text: string)

  /** The two ways a line raises ValueError: unpacking into two names fails
      because the stripped line does not split into exactly two tab-separated
      fields (`count` of them), or `int` rejects the first field. */
  datatype LineError = FieldCount(count: nat) | InvalidId(field: string)

  /** The unpacking `doc_id, text = ...` of the fields of a line, followed by
      `int(doc_id)`: exactly two fields, the first an integer. */
  function ParseFields(fields: seq<string>): Result<Document, LineError> {
    if |fields| != 2 then
      Failure(FieldCount(|fields|))
    else
      match ParseInt(fields[0])
      case None => Failure(InvalidId(fields[0]))
      case Some(id) => Success(Document(id, fields[1]))
  }

  /** One iteration of the loop in `load_documents`: strip the line, split it
      on tabs, unpack exactly two fields and convert the first with `int`.
      The text is kept as it is, inner spaces included. */
  function ParseLine(line: string): Result<Document, LineError> {
    ParseFields(SplitOn(Strip(line), '\t'))
  }

  /** `r` is what parsing the stripped line `t` must give: a field-count
      error exactly when `t` does not hold exactly one tab (counting the
      fields), an id error naming everything before the tab when `int`
      rejects it, and otherwise the document whose text is everything after
      the tab and whose id is `int` of everything before it. */
  predicate ParsedFrom(t: string, r: Result<Document, LineError>) {
    && (multiset(t)['\t'] != 1 <==> r.Failure? && r.error.FieldCount?)
    && (r.Failure? && r.error.FieldCount? ==> r.error.count == multiset(t)['\t'] + 1)
    && (r.Failure? && r.error.InvalidId? ==>
          && |r.error.field| < |t|
          && t[..|r.error.field| + 1] == r.error.field + ['\t']
          && ParseInt(r.error.field).None?)
    && (r.Success? ==>
          var k := |t| - |r.value.text| - 1;
          && 0 <= k
          && t[k] == '\t'
          && t[k + 1..] == r.value.text
          && '\t' !in r.value.text
          && ParseInt(t[..k]) == Some(r.value.id))
  }

  /** What `ParseLine` accepts and rejects, in terms of the stripped line. */
  lemma ParseLineSpec(line: string)
    ensures ParsedFrom(Strip(line), ParseLine(line))
  {
    ParseStrippedSpec(Strip(line));
  }

  /** `ParseLineSpec` for a line that is already stripped. */
  lemma ParseStrippedSpec(t: string)
    ensures ParsedFrom(t, ParseFields(SplitOn(t, '\t')))
  {
    var fields := SplitOn(t, '\t');
    SplitOnSpec(t, '\t');
    var r := ParseFields(fields);
    if |fields| != 2 {
      assert r == Failure(FieldCount(|fields|));
    } else {
      assert fields == [fields[0], fields[1]];
      TwoFields(t, fields[0], fields[1]);
      assert '\t' !in fields[1];
      var id := ParseInt(fields[0]);
      if id.None? {
        assert r == Failure(InvalidId(fields[0]));
      } else {
        assert r == Success(Document(id.value, fields[1]));
      }
    }
  }

  /** Where the two fields of a line with one tab sit in the line. */
  lemma TwoFields(t: string, id: string, text: string)
    requires Join([id, text], '\t') == t
    ensures |id| < |t| && t[..|id| + 1] == id + ['\t']
    ensures |text| < |t| && t[|t| - |text| - 1] == '\t' && t[|t| - |text|..] == text
    ensures t[..|t| - |text| - 1] == id
  {
    assert t == id + ['\t'] + text;
  }

  /** A text that survives a line round trip: `strip` would eat trailing
      whitespace, an inner tab would make a third field, and a line feed or
      carriage return would end the line early, as `readlines` reads the
      file in text mode. */
  predicate StorableText(text: string) {
    && text != [] && '\t' !in text && !IsSpace(text[|text| - 1])
    && '\n' !in text && '\r' !in text
  }

  /** The line a dataset file holds for `doc`. */
  function FormatLine(doc: Document): string {
    IntToString(doc.id) + ['\t'] + doc.text + ['\n']
  }

  /** Writing a document as a line and reading the line back gives the
      document again. */
  lemma ParseFormatLine(doc: Document)
    requires StorableText(doc.text)
    ensures ParseLine(FormatLine(doc)) == Success(doc)
  {
    var idText := IntToString(doc.id);
    IntToStringIsWord(doc.id);
    var t := idText + ['\t'] + doc.text;
    StripLine(t, ['\n']);
    assert FormatLine(doc) == t + ['\n'];
    SplitJoin([idText, doc.text], '\t');
    assert Join([idText, doc.text], '\t') == t;
    ParseIntOfIntToString(doc.id);
  }

  /** A line without whitespace at either end followed by line-end
      whitespace strips to itself. */
  lemma StripLine(t: string, end: string)
    requires IsTrimmed(t) && AllSpace(end)
    ensures Strip(t + end) == t
  {
    StripPadded([], t, end, IsSpace);
    assert [] + t + end == t + end;
  }

  /** A document with empty text cannot be read back: `strip` removes the tab
      that separates it, leaving a single field. */
  lemma EmptyTextRejected(id: int)
    ensures ParseLine(FormatLine(Document(id, []))) == Failure(FieldCount(1))
  {
    var idText := IntToString(id);
    IntToStringIsWord(id);
    StripLine(idText, ['\t', '\n']);
    assert FormatLine(Document(id, [])) == idText + ['\t', '\n'];
    assert multiset(idText)['\t'] == 0;
  }

  /** `load_documents` over the lines of the file: lines are parsed in
      order and the first line that fails ends the call with its error. */
  function LoadDocuments(lines: seq<string>): Result<seq<Document>, LineError> {
    MapAll(lines, ParseLine)
  }

  /** `load_documents` succeeds exactly when every line parses, and then
      holds one document per line, in line order; otherwise it fails with the
      error of the first line that does not parse. */
  lemma LoadDocumentsSpec(lines: seq<string>)
    ensures var r := LoadDocuments(lines);
      r.Success? <==> forall i :: 0 <= i < |lines| ==> ParseLine(lines[i]).Success?
    ensures var r := LoadDocuments(lines);
      r.Success? ==>
      && |r.value| == |lines|
      && forall i :: 0 <= i < |lines| ==> ParseLine(lines[i]) == Success(r.value[i])
    ensures var r := LoadDocuments(lines);
      r.Failure? ==>
      exists i :: 0 <= i < |lines| && ParseLine(lines[i]) == Failure(r.error)
        && forall j :: 0 <= j < i ==> ParseLine(lines[j]).Success?
  {
    MapAllSpec(lines, ParseLine);
  }

  /** A line with a second tab is rejected on the field count, as the line
      `2<TAB>world<TAB>world` of the tests is. */
  lemma ExtraTabRejected(id: int, a: string, b: string)
    requires '\t' !in a && StorableText(b)
    ensures ParseLine(IntToString(id) + ['\t'] + a + ['\t'] + b + ['\n']) == Failure(FieldCount(3))
  {
    var idText := IntToString(id);
    IntToStringIsWord(id);
    var t := idText + ['\t'] + a + ['\t'] + b;
    var line := idText + ['\t'] + a + ['\t'] + b + ['\n'];
    assert t[0] == idText[0] && t[|t| - 1] == b[|b| - 1];
    assert line == t + ['\n'];
    StripLine(t, ['\n']);
    TabCount(idText, a, b);
    ParseLineSpec(line);
  }

  /** Two tabs between three tab-free pieces. */
  lemma TabCount(x: string, y: string, z: string)
    requires '\t' !in x && '\t' !in y && '\t' !in z
    ensures multiset(x + ['\t'] + y + ['\t'] + z)['\t'] == 2
  {
    var t := x + ['\t'] + y + ['\t'] + z;
    assert multiset(t) == multiset(x) + multiset(['\t']) + multiset(y) + multiset(['\t']) + multiset(z);
  }

  /** A blank line (only whitespace, the trailing newline included) aborts
      the load: it strips to the empty string, which splits into one field. */
  lemma BlankLineRejected(line: string)
    requires AllSpace(line)
    ensures ParseLine(line) == Failure(FieldCount(1))
  {
    StripPadded(line, [], [], IsSpace);
    assert line + [] + [] == line;
  }

  /** The lines written for the documents, one per document. */
  function FormatLines(docs: seq<Document>): seq<string> {
    seq(|docs|, i requires 0 <= i < |docs| => FormatLine(docs[i]))
  }

  /** A dataset written one line per document loads back as the same
      documents in the same order, as the two-line file of the tests does. */
  lemma LoadFormatLines(docs: seq<Document>)
    requires forall i :: 0 <= i < |docs| ==> StorableText(docs[i].text)
    ensures LoadDocuments(FormatLines(docs)) == Success(docs)
  {
    var lines := FormatLines(docs);
    forall i | 0 <= i < |docs| ensures ParseLine(lines[i]) == Success(docs[i]) {
      ParseFormatLine(docs[i]);
    }
    MapAllSuccess(lines, ParseLine, docs);
  }
}
