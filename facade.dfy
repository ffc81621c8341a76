/** The supporting tools and resources of the server: `read_document`,
    `search_document`, `list_documents`, `resource_list_documents` and
    `resource_all_documents`, each over the folder's current entries. */
module Facade {
  import opened Seqs
  import opened Strings
  import opened Store
  import opened Retrieval

  const FileNotFound := "File not found."
  const UnsupportedFormat := "Unsupported file format."
  const NoRelevantContent := "No relevant content found."
  const NoDocumentsFound := "No documents found."
  const ListingHeader := "Available documents:"

  /** `search_document` returns at most this many lines. */
  const MaxMatches: nat := 10

  /** `read_document(filename)`: "Unsupported file format." for a name that
      resolves to the folder or a directory above it, "File not found." when
      no entry has the name, the reader's exception when reading fails (it is
      not caught), "Unsupported file format." when the text is empty, the
      text otherwise. */
  function ReadDocument(folder: Folder, filename: string): (r: Result<string>)
    ensures NamesDirectory(filename) ==> r == Ok(UnsupportedFormat)
    ensures !NamesDirectory(filename) && (forall i :: 0 <= i < |folder| ==> folder[i].name != filename) ==>
      r == Ok(FileNotFound)
    ensures r.Err? ==> exists e :: e in folder && e.name == filename && e.suffix in SupportedSuffixes && e.read == Failure(r.error)
    ensures r.Ok? && r.value != FileNotFound && r.value != UnsupportedFormat ==>
      exists e :: e in folder && e.name == filename && e.suffix in SupportedSuffixes && e.read == Text(r.value)
    ensures forall e :: !NamesDirectory(filename) && Lookup(folder, filename) == Some(e) ==>
      (e.suffix !in SupportedSuffixes ==> r == Ok(UnsupportedFormat)) &&
      (e.suffix in SupportedSuffixes && e.read.Failure? ==> r == Err(e.read.message)) &&
      (e.suffix in SupportedSuffixes && e.read == Text("") ==> r == Ok(UnsupportedFormat)) &&
      (e.suffix in SupportedSuffixes && e.read.Text? && e.read.content != "" ==> r == Ok(e.read.content))
  {
    if NamesDirectory(filename) then Ok(UnsupportedFormat)
    else
      match Lookup(folder, filename)
      case None => Ok(FileNotFound)
      case Some(e) =>
        match ReadFile(e)
        case Failure(message) => Err(message)
        case Text(content) => Ok(if content == "" then UnsupportedFormat else content)
  }

  /** `query.lower() in line.lower()`. */
  predicate HasQuery(line: string, query: string)
  {
    Contains(LowerStr(line), LowerStr(query))
  }

  /** The same test, as a function on lines. */
  function QueryMatcher(query: string): string -> bool
  {
    line => HasQuery(line, query)
  }

  /** `[line for line in content.splitlines() if query.lower() in line.lower()]`. */
  function QueryMatches(content: string, query: string): seq<string>
  {
    Filter(QueryMatcher(query), Lines(content))
  }

  /** `matches[:10]`. */
  function FirstMatches(matches: seq<string>): seq<string>
  {
    if |matches| <= MaxMatches then matches else matches[..MaxMatches]
  }

  /** The lines `search_document` keeps from a text. */
  function SearchHits(content: string, query: string): seq<string>
  {
    FirstMatches(QueryMatches(content, query))
  }

  /** The answer of `search_document` for a text that is searched. */
  function SearchText(content: string, query: string): string
  {
    var hits := SearchHits(content, query);
    if hits == [] then NoRelevantContent else Join(hits, "\n")
  }

  /** `search_document(filename, query)`: the result of `read_document`,
      passed through when it is "File not found." and searched otherwise. */
  function SearchDocument(folder: Folder, filename: string, query: string): Result<string>
  {
    match ReadDocument(folder, filename)
    case Err(message) => Err(message)
    case Ok(content) =>
      if content == FileNotFound then Ok(content) else Ok(SearchText(content, query))
  }

  /** The first matches are the first ten matches, or all of them when there
      are no more than ten; they are in order, and there are none only when
      there is no match at all. */
  lemma FirstMatchesSpec(matches: seq<string>, lines: seq<string>)
    ensures |FirstMatches(matches)| <= MaxMatches
    ensures |matches| > MaxMatches ==> |FirstMatches(matches)| == MaxMatches
    ensures |matches| <= MaxMatches ==> FirstMatches(matches) == matches
    ensures FirstMatches(matches) == matches[..|FirstMatches(matches)|]
    ensures forall h :: h in FirstMatches(matches) ==> h in matches
    ensures IsSubsequence(matches, lines) ==> IsSubsequence(FirstMatches(matches), lines)
    ensures FirstMatches(matches) == [] <==> matches == []
  {
    if |matches| > MaxMatches {
      var first := matches[..MaxMatches];
      assert first[0] in first;
      assert forall h :: h in first ==> h in matches;
      if IsSubsequence(matches, lines) {
        SubsequencePrefix(matches, lines, MaxMatches);
      }
    } else {
      assert matches[..|matches|] == matches;
    }
  }

  /** The matches are exactly the lines of the text that contain the query
      whatever the case, each taken once at its own position, in order. */
  lemma QueryMatchesSpec(content: string, query: string)
    ensures forall l :: l in QueryMatches(content, query) <==> l in Lines(content) && HasQuery(l, query)
    ensures exists idx :: (Picks(idx, QueryMatches(content, query), Lines(content)) &&
      Exactly(QueryMatcher(query), idx, Lines(content)))
  {
    FilterMembership(QueryMatcher(query), Lines(content));
    FilterPositions(QueryMatcher(query), Lines(content));
  }

  /** The hits are the first ten matching lines of the text, in their
      original order, each containing the query whatever the case; every
      matching line is a hit when at most ten lines match, and there is no
      hit exactly when no line contains the query. */
  lemma SearchHitsSpec(content: string, query: string)
    ensures |SearchHits(content, query)| <= MaxMatches
    ensures SearchHits(content, query) == QueryMatches(content, query)[..|SearchHits(content, query)|]
    ensures |QueryMatches(content, query)| > MaxMatches ==> |SearchHits(content, query)| == MaxMatches
    ensures forall h :: h in SearchHits(content, query) ==>
      h in Lines(content) && HasQuery(h, query)
    ensures IsSubsequence(SearchHits(content, query), Lines(content))
    ensures |QueryMatches(content, query)| <= MaxMatches ==> SearchHits(content, query) == QueryMatches(content, query)
    ensures |QueryMatches(content, query)| <= MaxMatches ==>
      forall l :: l in Lines(content) && HasQuery(l, query) ==> l in SearchHits(content, query)
    ensures SearchHits(content, query) == [] <==>
      forall l :: l in Lines(content) ==> !HasQuery(l, query)
  {
    var lines := Lines(content);
    var matches := QueryMatches(content, query);
    QueryMatchesSpec(content, query);
    FilterIsSubsequence(QueryMatcher(query), lines);
    FirstMatchesSpec(matches, lines);
    if matches != [] {
      assert matches[0] in matches;
    }
  }

  /** The lines of the answer are the hits again, provided the query is not
      empty (so that no hit is an empty line). */
  lemma SearchTextLines(content: string, query: string)
    requires query != [] && SearchHits(content, query) != []
    ensures SearchText(content, query) == Join(SearchHits(content, query), "\n")
    ensures Lines(SearchText(content, query)) == SearchHits(content, query)
  {
    var hits := SearchHits(content, query);
    SearchHitsSpec(content, query);
    forall i | 0 <= i < |hits|
      ensures '\n' !in hits[i] && hits[i] != []
    {
      assert hits[i] in hits;
      ContainsLength(LowerStr(hits[i]), LowerStr(query));
    }
    LinesOfJoin(hits);
  }

  /** The answer keeps the sentinel for a missing file and the reader's
      exception, and searches every other text `read_document` returns. */
  lemma SearchDocumentSpec(folder: Folder, filename: string, query: string)
    ensures !NamesDirectory(filename) && (forall i :: 0 <= i < |folder| ==> folder[i].name != filename) ==>
      SearchDocument(folder, filename, query) == Ok(FileNotFound)
    ensures NamesDirectory(filename) ==>
      SearchDocument(folder, filename, query) == Ok(SearchText(UnsupportedFormat, query))
    ensures ReadDocument(folder, filename).Err? ==> SearchDocument(folder, filename, query) == ReadDocument(folder, filename)
    ensures ReadDocument(folder, filename) == Ok(FileNotFound) ==> SearchDocument(folder, filename, query) == Ok(FileNotFound)
    ensures ReadDocument(folder, filename).Ok? && ReadDocument(folder, filename).value != FileNotFound ==>
      SearchDocument(folder, filename, query) == Ok(SearchText(ReadDocument(folder, filename).value, query))
  {
  }

  /** A searched text gives "No relevant content found." exactly when none
      of its lines contains the query, or when the only hit is a line that
      reads "No relevant content found." itself. */
  lemma NothingFound(content: string, query: string)
    ensures SearchText(content, query) == NoRelevantContent <==>
      (forall l :: l in Lines(content) ==> !HasQuery(l, query)) ||
      SearchHits(content, query) == [NoRelevantContent]
  {
    SearchHitsSpec(content, query);
    AnswerIsSentinel(SearchHits(content, query));
  }

  /** The answer built from some hits is the sentinel exactly when there are
      none, or when the one hit is the sentinel itself. */
  lemma AnswerIsSentinel(hits: seq<string>)
    ensures (if hits == [] then NoRelevantContent else Join(hits, "\n")) == NoRelevantContent <==>
      hits == [] || hits == [NoRelevantContent]
  {
    if |hits| > 1 {
      JoinSeparated(hits);
      assert '\n' !in NoRelevantContent;
    }
  }

  /** Joining two or more lines with line feeds gives a text with a line
      feed in it. */
  lemma JoinSeparated(parts: seq<string>)
    requires |parts| > 1
    ensures '\n' in Join(parts, "\n")
  {
    assert Join(parts, "\n")[|parts[0]|] == '\n';
  }

  /** A file with an unsupported suffix is searched as the text
      "Unsupported file format.", so a query that occurs in that sentence
      returns it. */
  lemma SearchUnsupported(folder: Folder, filename: string, query: string, e: Entry)
    requires Lookup(folder, filename) == Some(e) && e.suffix !in SupportedSuffixes
    ensures SearchDocument(folder, filename, query) == Ok(SearchText(UnsupportedFormat, query))
  {
    assert UnsupportedFormat[0] != FileNotFound[0];
  }

  /** `list_documents()`: the names of all regular files, whatever their
      suffix, or the one-element list ["No documents found."]. */
  function ListDocuments(folder: Folder): (r: seq<string>)
    ensures (forall i :: 0 <= i < |folder| ==> !folder[i].isFile) <==> FileNames(folder) == []
    ensures FileNames(folder) == [] ==> r == [NoDocumentsFound]
    ensures FileNames(folder) != [] ==>
      forall n :: n in r <==> exists e :: e in folder && e.isFile && e.name == n
    ensures FileNames(folder) != [] ==> r == FileNames(folder)
  {
    FilterMembership(IsRegularFile, folder);
    FileNamesSpec(folder);
    var files := FileNames(folder);
    assert forall i :: 0 <= i < |folder| ==> folder[i] in folder;
    if files == [] then [NoDocumentsFound]
    else
      assert files[0] in files;
      files
  }

  /** `f"  - {f}"`. */
  function Bullet(name: string): string
  {
    "  - " + name
  }

  function Bullets(names: seq<string>): (bs: seq<string>)
    ensures |bs| == |names|
    ensures forall i :: 0 <= i < |names| ==> bs[i] == Bullet(names[i])
  {
    seq(|names|, i requires 0 <= i < |names| => Bullet(names[i]))
  }

  /** `resource_list_documents()`: a header line and one bullet per regular
      file, or "No documents found.". */
  function ResourceListDocuments(folder: Folder): string
  {
    var files := FileNames(folder);
    if files == [] then NoDocumentsFound
    else ListingHeader + "\n" + Join(Bullets(files), "\n")
  }

  /** The listing reads line by line as the header followed by one bullet
      per regular file, in enumeration order, when no file name holds a line
      feed; it is "No documents found." exactly when there is no regular file. */
  lemma ResourceListLines(folder: Folder)
    ensures ResourceListDocuments(folder) == NoDocumentsFound <==> FileNames(folder) == []
    ensures FileNames(folder) != [] && (forall n :: n in FileNames(folder) ==> '\n' !in n) ==>
      Lines(ResourceListDocuments(folder)) == [ListingHeader] + Bullets(FileNames(folder))
  {
    var files := FileNames(folder);
    if files != [] {
      assert ResourceListDocuments(folder)[0] == 'A';
      var parts := [ListingHeader] + Bullets(files);
      JoinCons(ListingHeader, Bullets(files), "\n");
      if forall n :: n in files ==> '\n' !in n {
        ListingParts(files);
        LinesOfJoin(parts);
      }
    }
  }

  lemma ListingParts(files: seq<string>)
    requires files != [] && forall n :: n in files ==> '\n' !in n
    ensures forall i :: 0 <= i < |[ListingHeader] + Bullets(files)| ==> '\n' !in ([ListingHeader] + Bullets(files))[i]
    ensures ([ListingHeader] + Bullets(files))[|files|] != []
  {
    var parts := [ListingHeader] + Bullets(files);
    forall i | 0 <= i < |parts|
      ensures '\n' !in parts[i]
    {
      if i > 0 {
        assert files[i - 1] in files;
        assert parts[i] == "  - " + files[i - 1];
      }
    }
    assert parts[|files|] == Bullet(files[|files| - 1]);
  }

  /** The section `resource_all_documents` writes for one supported
      document: its name between rules and then its whole text, even when
      that is empty, or its name and the reader's exception. */
  function Section(doc: Entry): string
  {
    match ReadFile(doc)
    case Text(content) => Rule + " " + doc.name + " " + Rule + "\n" + content
    case Failure(message) => Rule + " " + doc.name + " (error: " + message + ") " + Rule
  }

  function SectionHead(name: string): string
  {
    Rule + " " + name + " "
  }

  function Sections(docs: seq<Entry>): seq<string>
  {
    seq(|docs|, i requires 0 <= i < |docs| => Section(docs[i]))
  }

  /** The text of `resource_all_documents` for the folder's current entries. */
  function AllDocuments(folder: Folder): string
  {
    var sections := Sections(Documents(folder));
    if sections == [] then NoDocumentsFound else Join(sections, "\n\n")
  }

  /** `resource_all_documents()`: one pass over the folder's entries. */
  method ResourceAllDocuments(folder: Folder) returns (text: string)
    ensures text == AllDocuments(folder)
  {
    var results: seq<string> := [];
    var i := 0;
    while i < |folder|
      invariant 0 <= i <= |folder|
      invariant results == Sections(Documents(folder[..i]))
    {
      var docFile := folder[i];
      ghost var before := results;
      if IsDocument(docFile) {
        match ReadFile(docFile) {
          case Text(content) =>
            results := results + [Rule + " " + docFile.name + " " + Rule + "\n" + content];
          case Failure(message) =>
            results := results + [Rule + " " + docFile.name + " (error: " + message + ") " + Rule];
        }
      }
      SectionsStep(folder, i, before, results);
      i := i + 1;
    }
    assert folder[..i] == folder;
    if results != [] {
      text := Join(results, "\n\n");
    } else {
      text := NoDocumentsFound;
    }
  }

  lemma SectionsStep(folder: Folder, i: int, before: seq<string>, after: seq<string>)
    requires 0 <= i < |folder| && before == Sections(Documents(folder[..i]))
    requires IsDocument(folder[i]) ==> after == before + [Section(folder[i])]
    requires !IsDocument(folder[i]) ==> after == before
    ensures after == Sections(Documents(folder[..i + 1]))
  {
    DocumentsSnoc(folder, i);
    var docs := Documents(folder[..i]);
    if IsDocument(folder[i]) {
      assert Sections(docs + [folder[i]]) == Sections(docs) + [Section(folder[i])];
    } else {
      assert docs + [] == docs;
    }
  }

  /** There is one section per supported document, in enumeration order,
      each headed by the document's name; a readable document's section
      carries its whole text, empty or not. */
  lemma SectionsSpec(folder: Folder)
    ensures |Sections(Documents(folder))| == |Documents(folder)|
    ensures forall i :: 0 <= i < |Documents(folder)| ==>
      IsPrefix(SectionHead(Documents(folder)[i].name), Sections(Documents(folder))[i])
    ensures forall i :: 0 <= i < |Documents(folder)| && Documents(folder)[i].read.Text? ==>
      Sections(Documents(folder))[i] ==
        SectionHead(Documents(folder)[i].name) + Rule + "\n" + Documents(folder)[i].read.content
  {
    var docs := Documents(folder);
    FilterMembership(IsDocument, folder);
    forall i | 0 <= i < |docs|
      ensures IsPrefix(SectionHead(docs[i].name), Sections(docs)[i])
      ensures docs[i].read.Text? ==> Sections(docs)[i] == SectionHead(docs[i].name) + Rule + "\n" + docs[i].read.content
    {
      assert docs[i] in docs;
      var head := SectionHead(docs[i].name);
      var s := Sections(docs)[i];
      match ReadFile(docs[i]) {
        case Text(content) =>
          assert s == head + (Rule + "\n" + content);
        case Failure(message) =>
          assert s == head + ("(error: " + message + ") " + Rule);
      }
    }
  }

  /** The resource reads "No documents found." exactly when the folder holds
      no supported document. */
  lemma AllDocumentsEmpty(folder: Folder)
    ensures AllDocuments(folder) == NoDocumentsFound <==> Documents(folder) == []
  {
    var sections := Sections(Documents(folder));
    if sections != [] {
      JoinStartsWith(sections, "\n\n");
      assert AllDocuments(folder)[0] == '─';
    }
  }

  /** A supported document with empty text is shown by the resource as an
      empty section, while `check_local_data` leaves it out. */
  lemma EmptyDocumentContrast(doc: Entry, tokens: seq<string>)
    requires IsDocument(doc) && doc.read == Text("")
    ensures Section(doc) == SectionHead(doc.name) + Rule + "\n"
    ensures DocumentBlock(doc, tokens).None?
  {
  }
}
