/** `_build_document_summary`: the preview of every supported document that
    the server computes once at start-up and embeds in its descriptions. */
module Summary {
  import opened Seqs
  import opened Strings
  import opened Store

  const PreviewLength: nat := 500
  const NoDocumentsStored := "No documents currently stored."
  const SummaryHeader := "Documents currently stored:\n"
  const CouldNotRead := "(could not read)"

  /** `content[:500].strip()`: at most 500 characters, without whitespace at
      either end, cut out of the first 500 characters of the text. */
  function Preview(content: string): string
  {
    Strip(Take(content, PreviewLength))
  }

  /** The preview is at most 500 characters long, has no whitespace at either
      end, and is the first 500 characters of the text less the whitespace
      around them. */
  lemma PreviewSpec(content: string)
    ensures |Preview(content)| <= PreviewLength
    ensures Preview(content) != [] ==> !IsSpace(Preview(content)[0]) && !IsSpace(Preview(content)[|Preview(content)| - 1])
    ensures exists lo :: StrippedAt(Take(content, PreviewLength), Preview(content), lo)
  {
    TakeSpec(content, PreviewLength);
    StripSpec(Take(content, PreviewLength));
  }

  function EntryLine(name: string, text: string): string
  {
    "  - " + name + ": " + text
  }

  /** The summary line of one document: the `(could not read)` marker when
      reading fails, nothing when its text is empty, its preview otherwise. */
  function SummaryLine(doc: Entry): Option<string>
  {
    match ReadFile(doc)
    case Failure(_) => Some(EntryLine(doc.name, CouldNotRead))
    case Text(content) =>
      if content == "" then None else Some(EntryLine(doc.name, Preview(content)))
  }

  /** A document has no summary line exactly when its text is empty, and a
      line never carries more than 500 characters of text. */
  lemma SummaryLineSpec(doc: Entry)
    ensures SummaryLine(doc).None? <==> ReadFile(doc) == Text("")
    ensures SummaryLine(doc).Some? ==>
      exists text :: |text| <= PreviewLength && SummaryLine(doc).value == EntryLine(doc.name, text)
  {
    assert |CouldNotRead| <= PreviewLength;
    if ReadFile(doc).Text? {
      PreviewSpec(ReadFile(doc).content);
    }
  }

  /** The summary lines of all documents, in enumeration order. */
  function SummaryLines(docs: seq<Entry>): (lines: seq<string>)
    ensures |lines| <= |docs|
  {
    if |docs| == 0 then []
    else SummaryLines(docs[..|docs| - 1]) + OptionToSeq(SummaryLine(docs[|docs| - 1]))
  }

  /** The text the server builds at start-up from the folder as it is then. */
  function DocumentSummary(folder: Folder): string
  {
    var lines := SummaryLines(Documents(folder));
    if lines == [] then NoDocumentsStored else SummaryHeader + Join(lines, "\n")
  }

  /** `_build_document_summary()`: one pass over the folder's entries, then
      the header and the lines, or the "no documents" text. */
  method BuildDocumentSummary(folder: Folder) returns (summary: string)
    ensures summary == DocumentSummary(folder)
  {
    var summaries := CollectSummaries(folder);
    if summaries != [] {
      summary := SummaryHeader + Join(summaries, "\n");
    } else {
      summary := NoDocumentsStored;
    }
  }

  /** The loop of `_build_document_summary`: the summary line of every
      supported document, in enumeration order, skipping empty texts and
      falling back to `(could not read)` when reading fails. */
  method CollectSummaries(folder: Folder) returns (summaries: seq<string>)
    ensures summaries == SummaryLines(Documents(folder))
  {
    summaries := [];
    var i := 0;
    while i < |folder|
      invariant 0 <= i <= |folder|
      invariant summaries == SummaryLines(Documents(folder[..i]))
    {
      var docFile := folder[i];
      ghost var before := summaries;
      if IsDocument(docFile) {
        match ReadFile(docFile) {
          case Failure(_) =>
            summaries := summaries + [EntryLine(docFile.name, CouldNotRead)];
          case Text(content) =>
            if content != "" {
              var preview := Preview(content);
              summaries := summaries + [EntryLine(docFile.name, preview)];
            }
        }
      }
      SummaryLinesStep(folder, i, before, summaries);
      i := i + 1;
    }
    assert folder[..i] == folder;
  }

  /** One more entry of the folder adds at most its own summary line. */
  lemma SummaryLinesStep(folder: Folder, i: int, before: seq<string>, after: seq<string>)
    requires 0 <= i < |folder| && before == SummaryLines(Documents(folder[..i]))
    requires IsDocument(folder[i]) ==> after == before + OptionToSeq(SummaryLine(folder[i]))
    requires !IsDocument(folder[i]) ==> after == before
    ensures after == SummaryLines(Documents(folder[..i + 1]))
  {
    DocumentsSnoc(folder, i);
    if IsDocument(folder[i]) {
      SummaryLinesSnoc(Documents(folder[..i]), folder[i]);
    } else {
      assert Documents(folder[..i]) + [] == Documents(folder[..i]);
    }
  }

  lemma SummaryLinesSnoc(docs: seq<Entry>, doc: Entry)
    ensures SummaryLines(docs + [doc]) == SummaryLines(docs) + OptionToSeq(SummaryLine(doc))
  {
    assert (docs + [doc])[..|docs|] == docs;
  }

  /** Documents are summarised independently, in enumeration order. */
  lemma {:induction false} SummaryLinesAppend(a: seq<Entry>, b: seq<Entry>)
    ensures SummaryLines(a + b) == SummaryLines(a) + SummaryLines(b)
    decreases |b|
  {
    if |b| == 0 {
      assert a + b == a;
    } else {
      var b' := b[..|b| - 1];
      assert (a + b)[..|a + b| - 1] == a + b';
      SummaryLinesAppend(a, b');
    }
  }

  /** An unreadable document gives a `(could not read)` line in its own place
      and start-up carries on with the others. */
  lemma UnreadableDocument(a: seq<Entry>, doc: Entry, b: seq<Entry>)
    requires ReadFile(doc).Failure?
    ensures SummaryLines(a + [doc] + b) ==
      SummaryLines(a) + [EntryLine(doc.name, CouldNotRead)] + SummaryLines(b)
  {
    SummaryLinesAppend(a + [doc], b);
    SummaryLinesAppend(a, [doc]);
    assert [doc][..0] == [];
  }

  /** There is no summary line exactly when every document's text is empty. */
  lemma {:induction false} SummaryLinesEmpty(docs: seq<Entry>)
    ensures SummaryLines(docs) == [] <==> AllEmptyText(docs)
    decreases |docs|
  {
    if |docs| > 0 {
      SummaryLinesEmpty(docs[..|docs| - 1]);
      SummaryLineSpec(docs[|docs| - 1]);
      AllEmptyTextSnoc(docs);
    }
  }

  /** The "no documents" summary comes back exactly when no supported
      document has any text and none fails to read. */
  lemma SummaryEmpty(folder: Folder)
    ensures DocumentSummary(folder) == NoDocumentsStored <==>
      forall d :: d in Documents(folder) ==> d.read == Text("")
  {
    var docs := Documents(folder);
    FilterMembership(IsDocument, folder);
    assert forall d :: d in docs ==> ReadFile(d) == d.read;
    SummaryLinesEmpty(docs);
    assert SummaryHeader[0] == 'D' && NoDocumentsStored[0] == 'N';
  }

  /** Every summary line is the line of one of the documents. */
  lemma {:induction false} SummaryLinesFrom(docs: seq<Entry>, i: int)
    requires 0 <= i < |SummaryLines(docs)|
    ensures exists d :: d in docs && SummaryLine(d) == Some(SummaryLines(docs)[i])
    decreases |docs|
  {
    var docs' := docs[..|docs| - 1];
    if i < |SummaryLines(docs')| {
      SummaryLinesFrom(docs', i);
      var d :| d in docs' && SummaryLine(d) == Some(SummaryLines(docs')[i]);
      assert d in docs;
    } else {
      assert docs[|docs| - 1] in docs;
    }
  }
}
