/** The document store: the entries of the documents folder in enumeration
    order, the supported-suffix dispatch of `_read_file` and the lookup of a
    document by name. The filesystem and the PDF, DOCX and UTF-8 readers are
    not modelled: each entry carries what the reader for its suffix yields. */
module Store {
  import opened Seqs
  import opened Strings

  datatype Option<T> = None | Some(value: T)

  /** The value as a list of at most one element. */
  function OptionToSeq<T>(o: Option<T>): seq<T>
  {
    if o.Some? then [o.value] else []
  }

  /** A value, or the message of an exception that propagates to the caller. */
  datatype Result<T> = Ok(value: T) | Err(error: string)

  /** What reading one file gives: the extracted text, or the exception
      raised by the reader, kept as its message `str(e)`. */
  datatype ReadResult = Text(content: string) | Failure(message: string)

  /** One entry of the documents folder: its name, its suffix as
      `Path.suffix` gives it (".txt", ".pdf", "" ...), whether it is a
      regular file, and what the reader chosen by its suffix yields. */
  datatype Entry = Entry(name: string, suffix: string, isFile: bool, read: ReadResult)

  /** The folder's entries in directory enumeration order. */
  type Folder = seq<Entry>

  /** The closed set of formats the reader dispatches on. */
  datatype Format = Pdf | Docx | Txt

  const SupportedSuffixes: set<string> := {".pdf", ".docx", ".txt"}

  /** The format a suffix selects, if any; suffixes are compared exactly. */
  function FormatOf(suffix: string): (f: Option<Format>)
    ensures f.Some? <==> suffix in SupportedSuffixes
    ensures f == Some(Pdf) <==> suffix == ".pdf"
    ensures f == Some(Docx) <==> suffix == ".docx"
    ensures f == Some(Txt) <==> suffix == ".txt"
  {
    if suffix == ".pdf" then Some(Pdf)
    else if suffix == ".docx" then Some(Docx)
    else if suffix == ".txt" then Some(Txt)
    else None
  }

  /** `_read_file`: the reader of the entry's format, or the empty text for
      any other suffix (no reader runs, so nothing can fail). */
  function ReadFile(e: Entry): (r: ReadResult)
    ensures e.suffix !in SupportedSuffixes ==> r == Text("")
    ensures e.suffix in SupportedSuffixes ==> r == e.read
  {
    match FormatOf(e.suffix)
    case None => Text("")
    case Some(_) => e.read
  }

  /** `f.is_file() and f.suffix in SUPPORTED_EXTENSIONS`. */
  predicate IsDocument(e: Entry)
  {
    e.isFile && e.suffix in SupportedSuffixes
  }

  predicate IsRegularFile(e: Entry)
  {
    e.isFile
  }

  /** The supported documents, in enumeration order. */
  function Documents(folder: Folder): seq<Entry>
  {
    Filter(IsDocument, folder)
  }

  /** One more entry of the folder adds itself to the documents if it is one. */
  lemma DocumentsSnoc(folder: Folder, i: int)
    requires 0 <= i < |folder|
    ensures Documents(folder[..i + 1]) == Documents(folder[..i]) + (if IsDocument(folder[i]) then [folder[i]] else [])
  {
    assert folder[..i + 1][..i] == folder[..i];
  }

  /** A supported document is read by its own reader: the dispatch never
      turns it into the empty text. */
  lemma DocumentsAreRead(folder: Folder, e: Entry)
    requires e in Documents(folder)
    ensures e in folder && e.isFile && ReadFile(e) == e.read
  {
    FilterMembership(IsDocument, folder);
  }

  function Names(es: seq<Entry>): (ns: seq<string>)
    ensures |ns| == |es|
    ensures forall i :: 0 <= i < |es| ==> ns[i] == es[i].name
  {
    seq(|es|, i requires 0 <= i < |es| => es[i].name)
  }

  /** `[f.name for f in DOCS_DIR.iterdir() if f.is_file()]`: every regular
      file whatever its suffix. */
  function FileNames(folder: Folder): seq<string>
  {
    Names(Filter(IsRegularFile, folder))
  }

  /** The listing names every regular file, whatever its suffix, and nothing
      else: one name per regular file, at its own position, in enumeration
      order. */
  lemma FileNamesSpec(folder: Folder)
    ensures forall e :: e in folder && e.isFile ==> e.name in FileNames(folder)
    ensures forall n :: n in FileNames(folder) ==> exists e :: e in folder && e.isFile && e.name == n
    ensures exists idx :: Picks(idx, FileNames(folder), Names(folder)) && Exactly(IsRegularFile, idx, folder)
  {
    FileNamesOrder(folder);
    var fs := Filter(IsRegularFile, folder);
    FilterMembership(IsRegularFile, folder);
    forall e | e in folder && e.isFile
      ensures e.name in FileNames(folder)
    {
      var i :| 0 <= i < |fs| && fs[i] == e;
      assert FileNames(folder)[i] == e.name;
    }
    forall n | n in FileNames(folder)
      ensures exists e :: e in folder && e.isFile && e.name == n
    {
      var i :| 0 <= i < |fs| && FileNames(folder)[i] == n;
      assert fs[i] in fs;
    }
  }

  lemma FileNamesOrder(folder: Folder)
    ensures exists idx :: Picks(idx, FileNames(folder), Names(folder)) && Exactly(IsRegularFile, idx, folder)
  {
    var fs := Filter(IsRegularFile, folder);
    FilterPositions(IsRegularFile, folder);
    var idx :| Picks(idx, fs, folder) && Exactly(IsRegularFile, idx, folder);
    NamesPicks(idx, fs, folder);
  }

  /** The names of entries picked from a sequence are picked from its names. */
  lemma NamesPicks(idx: seq<int>, es: seq<Entry>, folder: Folder)
    requires Picks(idx, es, folder)
    ensures Picks(idx, Names(es), Names(folder))
  {
  }

  /** Every searchable document also appears in the plain listing. */
  lemma DocumentsAreListed(folder: Folder, e: Entry)
    requires e in Documents(folder)
    ensures e.name in FileNames(folder)
  {
    DocumentsAreRead(folder, e);
    FileNamesSpec(folder);
  }

  /** Every document reads as the empty text. */
  predicate AllEmptyText(docs: seq<Entry>)
  {
    forall i :: 0 <= i < |docs| ==> ReadFile(docs[i]) == Text("")
  }

  lemma AllEmptyTextSnoc(docs: seq<Entry>)
    requires |docs| > 0
    ensures AllEmptyText(docs) <==> AllEmptyText(docs[..|docs| - 1]) && ReadFile(docs[|docs| - 1]) == Text("")
  {
    assert forall i :: 0 <= i < |docs| - 1 ==> docs[..|docs| - 1][i] == docs[i];
  }

  /** A name made only of the path components "", "." and "..", such as "",
      ".", ".." or "./..": joined to the folder it names the folder itself or
      one of the directories above it, a directory that exists and has no
      suffix. */
  predicate NamesDirectory(filename: string)
  {
    && (forall i :: 0 <= i < |filename| ==> filename[i] == '.' || filename[i] == '/')
    && (forall i :: 0 <= i <= |filename| - 3 ==> !ThreeDotsAt(filename, i))
  }

  /** "..." starts at position `i`: a component that is an ordinary name. */
  predicate ThreeDotsAt(s: string, i: int)
  {
    0 <= i && i + 3 <= |s| && s[i..i + 3] == "..."
  }

  /** `DOCS_DIR / filename` followed by `exists()`: the entry of that name,
      file or directory, if there is one. */
  function Lookup(folder: Folder, filename: string): (r: Option<Entry>)
    ensures r.None? <==> forall i :: 0 <= i < |folder| ==> folder[i].name != filename
    ensures r.Some? ==> r.value in folder && r.value.name == filename
  {
    if |folder| == 0 then None
    else if folder[0].name == filename then Some(folder[0])
    else Lookup(folder[1..], filename)
  }
}
