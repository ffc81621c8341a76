# Document Reader MCP server: retrieval and lookup core

This project models the decision logic of the document server in
`server.py`. The server keeps plain-text, PDF and Word documents in one
folder. It answers an agent's questions from them by keyword retrieval,
with a full-content fallback. It also lets the agent list the documents,
read one, and search inside one. At start-up it builds a short summary of
every document.

The folder is a sequence of entries, in the order the directory
enumerates them. Each entry has a name, a suffix, an "is a regular file"
flag, and what the reader chosen by its suffix yields. That is either the
extracted text or the message of the exception the reader raised. Every
answer of the server is a function of that sequence and the caller's
arguments.

- `Seqs` holds the order-preserving filter and the notion of a
  subsequence taken at increasing positions.
- `Strings` holds the string operations the server relies on:
  `lower()`, `split()`, `splitlines()`, `strip()`, slicing, `in` on
  strings, and `join()`.
- `Store` holds the suffix dispatch of `_read_file`, the supported
  documents, the list of regular files, and lookup by name.
- `Retrieval` holds `check_local_data`. Its two nested loops are a
  method, proved equal to the function `Retrieve`.
- `Summary` holds `_build_document_summary`. Its loop is a method, proved
  equal to `DocumentSummary`.
- `Facade` holds `read_document`, `search_document`, `list_documents`,
  `resource_list_documents` and `resource_all_documents`. The last of
  these is a loop, so it is a method proved equal to `AllDocuments`.

An exception that `read_document` or `search_document` does not catch is
the result `Err(message)`. The three loops of the server catch a reader's
exception per document, and so do the models of them.

Some behaviour of `server.py` that is easy to miss:

- The preview is `content[:500].strip()`: the text is cut to 500
  characters first and whitespace is stripped afterwards.
- `list_documents` never returns an empty list. With no regular file it
  returns the one-element list `["No documents found."]`.
- A supported document whose text is empty is read by `read_document` as
  "Unsupported file format.", just like an unsupported suffix.
- A file name such as `""`, `"."` or `".."` resolves to the folder itself
  or a directory above it. That directory exists and has no suffix, so
  `read_document` answers "Unsupported file format." rather than "File
  not found.".
- `search_document` compares the text it read with "File not found.", so
  a document whose whole text is that sentence comes back unsearched,
  whatever the query.
- `server.py` has no operation that writes documents.

## Model

| member | source | states |
|---|---|---|
| Store.FormatOf | server.py:40-46 | exactly `.pdf`, `.docx` and `.txt` select a reader, each its own; every other suffix selects none |
| Store.ReadFile | server.py:38-46 | an unsupported suffix reads as the empty text without running a reader; a supported one gives what its reader yields |
| Store.DocumentsAreRead | server.py:121-124 | every document the loops visit is a regular file of the folder that its own reader reads |
| Store.FileNamesSpec | server.py:173 | the file listing holds one name per regular file, whatever its suffix, at that file's position in enumeration order, and nothing else |
| Store.DocumentsAreListed | server.py:121-124 | every document `check_local_data` searches is also named by `list_documents` |
| Store.Lookup | server.py:181-182 | no result exactly when no entry has the name; a result is an entry of the folder with that name |
| Strings.LowerStr | server.py:118 | lower-casing keeps the length and lower-cases each character in place |
| Strings.WordsCover | server.py:119 | the words of `split()` are nonempty and whitespace-free, and together they are the non-whitespace characters of the text, in order |
| Strings.WordsAreRuns | server.py:119 | each word of `split()` is a whole run of non-whitespace characters of the text, and the words come in text order; with `WordsCover` this fixes the split |
| Strings.JoinOfLines | server.py:138 | joining the lines of `splitlines()` with line feeds gives the text back, up to one final line feed |
| Strings.LinesOfJoin | server.py:148 | lines joined by line feeds split back into the same lines, when none holds a line feed and the last is nonempty |
| Strings.StripSpec | server.py:60 | `strip()` leaves no whitespace at either end, removes only whitespace, and keeps the middle |
| Strings.TakeSpec | server.py:60 | `s[:n]` is the first `n` characters of the text, or the whole text when it is no longer |
| Retrieval.TokensSpec | server.py:118-119 | the tokens are exactly the words of the lower-cased query with two or more characters, in query order; each is lower-case and whitespace-free |
| Retrieval.ShortWordsGiveNoTokens | server.py:119 | a query made only of one-character words gives no token |
| Retrieval.AnyTokenIn | server.py:143 | a line matches exactly when some token occurs in its lower-cased form |
| Retrieval.MatchedLinesSpec | server.py:138-144 | the matched lines are exactly the lines in which some token occurs, each taken once at its own position, in document order |
| Retrieval.NoTokensNoMatch | server.py:141-144 | without tokens no line matches |
| Retrieval.MatchedLinesNotEmpty | server.py:143 | a matched line holds at least two characters |
| Retrieval.DocumentBlock | server.py:133-157 | a document gives no block exactly when its text is empty; every block starts with the rule character |
| Retrieval.MatchedBlock | server.py:146-149 | a document with matches gives the "From" block of exactly its matched lines, whatever its name |
| Retrieval.MatchedBlockLines | server.py:146-149 | when the document's name holds no line feed, that block reads line by line as the "From" header followed by exactly its matched lines |
| Retrieval.FallbackBlock | server.py:150-155 | a document with text where no line matches gives its full text under the "no direct keyword match" header |
| Retrieval.ShortQueryReturnsWholeDocuments | server.py:119-155 | with a query of one-character words, every document with text is returned whole |
| Retrieval.Blocks | server.py:132-157 | there are no more blocks than documents, and every block starts with the rule character |
| Retrieval.BlocksAppend | server.py:132-157 | documents are processed independently; their blocks keep the enumeration order |
| Retrieval.FailureIsolated | server.py:156-157 | an unreadable document gives its error block in its own place; the documents around it are unaffected |
| Retrieval.BlocksEmpty | server.py:135-136 | there is no block exactly when every document reads as empty text |
| Retrieval.RetrieveNoDocuments | server.py:121-130 | the "no documents" message comes back exactly when no regular file has a supported suffix |
| Retrieval.RetrieveNoInformation | server.py:159-165 | the "no relevant information" message comes back exactly when there are documents and all of them are empty |
| Retrieval.CheckLocalData | server.py:115-165 | the nested loops compute `Retrieve`: blocks in enumeration order joined by blank lines, or one of the two fixed messages |
| Retrieval.CollectMatches | server.py:139-144 | the inner loop collects exactly the matched lines, in order |
| Summary.PreviewSpec | server.py:60 | a preview is at most 500 characters, has no whitespace at either end, and is the first 500 characters less the whitespace around them |
| Summary.SummaryLineSpec | server.py:55-63 | a document gives no summary line exactly when its text is empty; a line carries at most 500 characters of text after the name |
| Summary.SummaryLines | server.py:53-63 | there are no more summary lines than documents |
| Summary.CollectSummaries | server.py:53-63 | the loop collects the summary line of every supported document, in enumeration order |
| Summary.BuildDocumentSummary | server.py:51-66 | the start-up summary is the header and the lines joined by line feeds, or the "no documents" text |
| Summary.SummaryLinesAppend | server.py:54-63 | documents are summarised independently, in enumeration order |
| Summary.UnreadableDocument | server.py:62-63 | an unreadable document gives a `(could not read)` line in its own place, and the others are still summarised |
| Summary.SummaryLinesEmpty | server.py:58-59 | there is no summary line exactly when every document reads as empty text |
| Summary.SummaryEmpty | server.py:64-66 | "No documents currently stored." comes back exactly when every supported document has empty text |
| Summary.SummaryLinesFrom | server.py:54-63 | every summary line is the line of one of the documents |
| Facade.ReadDocument | server.py:179-185 | a name made of the components `""`, `.` and `..` (the folder or a directory above it), an unsupported suffix or empty text gives "Unsupported file format."; any other missing name gives "File not found."; a reader's exception propagates, a directory with a supported suffix included; otherwise the text of that entry |
| Facade.FirstMatchesSpec | server.py:195 | `matches[:10]` keeps exactly the first ten matches, or all of them when there are no more, in order |
| Facade.QueryMatchesSpec | server.py:193-194 | the matches are exactly the lines of the text containing the query whatever the case, each once at its own position, in order |
| Facade.SearchHitsSpec | server.py:193-195 | the hits are the first ten matching lines, in text order, each containing the query whatever the case; every matching line is a hit when at most ten match; none exactly when no line contains the query |
| Facade.SearchTextLines | server.py:195 | for a nonempty query with hits, the answer splits back into exactly the hits |
| Facade.SearchDocumentSpec | server.py:190-195 | "File not found." passes through unchanged, also when it is the whole text of a document; a reader's exception propagates; every other text, a directory's "Unsupported file format." included, is searched |
| Facade.NothingFound | server.py:195 | "No relevant content found." comes back exactly when no line contains the query, or when the one hit is that sentence itself |
| Facade.SearchUnsupported | server.py:185-195 | a file with an unsupported suffix is searched as the sentence "Unsupported file format." |
| Facade.ListDocuments | server.py:171-176 | with no regular file the answer is `["No documents found."]`; otherwise it is the file listing: every regular file's name once, in enumeration order, and nothing else |
| Facade.ResourceListLines | server.py:231-236 | the listing is "No documents found." exactly when there is no regular file; otherwise, when no file name holds a line feed, its lines are the header and one bullet per file, in order |
| Facade.ResourceAllDocuments | server.py:239-249 | the loop computes `AllDocuments`: one section per supported document joined by blank lines, or "No documents found." |
| Facade.SectionsSpec | server.py:242-248 | one section per supported document, in order, each headed by its name; a readable document's section carries its whole text, empty or not |
| Facade.AllDocumentsEmpty | server.py:249 | the resource is "No documents found." exactly when there is no supported document |
| Facade.EmptyDocumentContrast | server.py:135-136 | a document with empty text is an empty section of the resource, but `check_local_data` leaves it out |

## Left out

- The PDF, Word and UTF-8 readers (server.py:24-36) are not modelled. Each entry carries what its reader yields, as text or as an exception message.
- The filesystem is not modelled: directory creation, `iterdir()` order, `is_file()` and `exists()`. The folder is given as an input sequence in enumeration order.
- Store.Lookup: `DOCS_DIR / filename` is an exact match on an entry's name. Only names made of the components `""`, `.` and `..` are resolved, to a directory. Any other name with a path separator, or an absolute path, is not resolved into the directory tree.
- The start-up summary is computed once, when the module loads, and is embedded in the tool descriptions. The model gives the function from the folder at that moment; the module-load lifetime is not modelled.
- Camera capture (server.py:197-225) is left out. It needs an OpenCV device, the clock and writing an image file.
- The FastMCP server, its decorators, the description and instruction strings, and `mcp.run()` are left out. They are transport plumbing with no decision logic.
- client.py is not part of this model. It is MCP client plumbing.
- Strings.LowerStr: only ASCII letters are lower-cased, not the whole of Unicode as `str.lower()` does.
- Strings.Words: whitespace is the ASCII set `str.isspace()` accepts; Unicode spaces outside ASCII are not.
- Strings.Lines: only the line feed ends a line. `str.splitlines()` also breaks at carriage returns and other Unicode line boundaries.
- Strings.Lines: as in Python, a final line feed does not open an extra empty line.
