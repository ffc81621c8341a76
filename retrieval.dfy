/** `check_local_data`: keyword retrieval over every supported document,
    with a full-content fallback for documents where no line matches. */
module Retrieval {
  import opened Seqs
  import opened Strings
  import opened Store

  const NoDocumentsMessage := "No documents found in local store. " + "You may now answer from your own knowledge."
  const NoInformationMessage := "No relevant information " + "found in local documents. " + "You may now answer from your own knowledge."

  /** Neither fixed message can be mistaken for a block or for the other. */
  lemma FixedMessages()
    ensures |NoDocumentsMessage| > 3 && NoDocumentsMessage[0] == 'N' && NoDocumentsMessage[3] == 'd'
    ensures |NoInformationMessage| > 3 && NoInformationMessage[0] == 'N' && NoInformationMessage[3] == 'r'
  {
  }

  /** Single characters are dropped from the query. */
  predicate IsToken(w: string)
  {
    |w| > 1
  }

  /** `[w for w in query.lower().split() if len(w) > 1]`. */
  function Tokens(query: string): seq<string>
  {
    Filter(IsToken, Words(LowerStr(query)))
  }

  /** The tokens are exactly the words of the lower-cased query that are at
      least two characters long, in query order; each is lower-case and free
      of whitespace. */
  lemma TokensSpec(query: string)
    ensures forall t :: t in Tokens(query) <==> t in Words(LowerStr(query)) && |t| >= 2
    ensures forall i :: 0 <= i < |Tokens(query)| ==> NoUpper(Tokens(query)[i]) && NoSpace(Tokens(query)[i])
    ensures exists idx :: Picks(idx, Tokens(query), Words(LowerStr(query))) && Exactly(IsToken, idx, Words(LowerStr(query)))
  {
    var ws := Words(LowerStr(query));
    FilterMembership(IsToken, ws);
    FilterPositions(IsToken, ws);
    forall i | 0 <= i < |Tokens(query)|
      ensures NoUpper(Tokens(query)[i]) && NoSpace(Tokens(query)[i])
    {
      var t := Tokens(query)[i];
      assert t in ws;
      var j :| 0 <= j < |ws| && ws[j] == t;
      forall k | 0 <= k < |t|
        ensures !IsUpper(t[k])
      {
        WordChar(LowerStr(query), j, t[k]);
      }
    }
  }

  /** A query whose words are all single characters gives no token. */
  lemma ShortWordsGiveNoTokens(query: string)
    requires forall w :: w in Words(LowerStr(query)) ==> |w| <= 1
    ensures Tokens(query) == []
  {
    FilterNone(IsToken, Words(LowerStr(query)));
  }

  /** `any(word in line_lower for word in query_words)`. */
  function AnyTokenIn(lineLower: string, tokens: seq<string>): (r: bool)
    ensures r <==> exists k :: 0 <= k < |tokens| && Contains(lineLower, tokens[k])
  {
    if |tokens| == 0 then false
    else Contains(lineLower, tokens[0]) || AnyTokenIn(lineLower, tokens[1..])
  }

  predicate LineMatches(line: string, tokens: seq<string>)
  {
    AnyTokenIn(LowerStr(line), tokens)
  }

  /** The line test for a fixed token list, as a value `Filter` can take. */
  function Matcher(tokens: seq<string>): string -> bool
  {
    (l: string) => LineMatches(l, tokens)
  }

  /** The lines kept in a document's block. */
  function MatchedLines(lines: seq<string>, tokens: seq<string>): seq<string>
  {
    Filter(Matcher(tokens), lines)
  }

  /** The matched lines are exactly the lines whose lower-cased form contains
      some token, each taken once at its own position, in document order. */
  lemma MatchedLinesSpec(lines: seq<string>, tokens: seq<string>)
    ensures forall l :: l in MatchedLines(lines, tokens) <==>
      l in lines && exists k :: 0 <= k < |tokens| && Contains(LowerStr(l), tokens[k])
    ensures exists idx :: (Picks(idx, MatchedLines(lines, tokens), lines) &&
      Exactly(Matcher(tokens), idx, lines))
  {
    FilterMembership(Matcher(tokens), lines);
    FilterPositions(Matcher(tokens), lines);
  }

  /** Without tokens no line matches. */
  lemma NoTokensNoMatch(lines: seq<string>)
    ensures MatchedLines(lines, []) == []
  {
    FilterNone(Matcher([]), lines);
  }

  /** A matched line is never empty: it contains a token of two or more characters. */
  lemma MatchedLinesNotEmpty(lines: seq<string>, query: string, i: int)
    requires 0 <= i < |MatchedLines(lines, Tokens(query))|
    ensures |MatchedLines(lines, Tokens(query))[i]| >= 2
  {
    var tokens := Tokens(query);
    var l := MatchedLines(lines, tokens)[i];
    assert LineMatches(l, tokens);
    var k :| 0 <= k < |tokens| && Contains(LowerStr(l), tokens[k]);
    TokensSpec(query);
    assert tokens[k] in tokens;
    ContainsLength(LowerStr(l), tokens[k]);
  }

  /** The box-drawing rule that opens and closes every block header. */
  const Rule := "──"
  const FullContentNote := " (no direct keyword match, " + "review this data carefully) "

  function FromHeader(name: string): string
  {
    Rule + " From " + name + " " + Rule
  }

  function FromBlock(name: string, matched: seq<string>): string
  {
    FromHeader(name) + "\n" + Join(matched, "\n")
  }

  function FullContentBlock(name: string, content: string): string
  {
    Rule + " Full content of " + name + FullContentNote + Rule + "\n" + content
  }

  function ErrorBlock(name: string, message: string): string
  {
    Rule + " Error reading " + name + ": " + message + " " + Rule
  }

  /** Every block starts with the box-drawing rule character. */
  predicate StartsWithRule(b: string)
  {
    |b| > 0 && b[0] == '─'
  }

  /** The block one document contributes, if any: an error block when it
      cannot be read, nothing when its text is empty, its matched lines when
      some line matches, and otherwise its whole text. */
  function DocumentBlock(doc: Entry, tokens: seq<string>): (b: Option<string>)
    ensures b.None? <==> ReadFile(doc) == Text("")
    ensures b.Some? ==> StartsWithRule(b.value)
  {
    match ReadFile(doc)
    case Failure(message) => Some(ErrorBlock(doc.name, message))
    case Text(content) =>
      if content == "" then None
      else
        var matched := MatchedLines(Lines(content), tokens);
        if matched != [] then Some(FromBlock(doc.name, matched))
        else Some(FullContentBlock(doc.name, content))
  }

  /** The blocks of all documents, in enumeration order. */
  function Blocks(docs: seq<Entry>, tokens: seq<string>): (bs: seq<string>)
    ensures |bs| <= |docs|
    ensures forall i :: 0 <= i < |bs| ==> StartsWithRule(bs[i])
  {
    if |docs| == 0 then []
    else Blocks(docs[..|docs| - 1], tokens) + OptionToSeq(DocumentBlock(docs[|docs| - 1], tokens))
  }

  /** The answer of `check_local_data` for the folder's current entries. */
  function Retrieve(folder: Folder, query: string): string
  {
    var docs := Documents(folder);
    if docs == [] then NoDocumentsMessage
    else
      var blocks := Blocks(docs, Tokens(query));
      if blocks == [] then NoInformationMessage else Join(blocks, "\n\n")
  }

  /** `check_local_data(query)`: the source's two nested loops. */
  method CheckLocalData(folder: Folder, query: string) returns (answer: string)
    ensures answer == Retrieve(folder, query)
  {
    var results: seq<string> := [];
    var words := Tokens(query);
    var docs := Documents(folder);
    if docs == [] {
      return NoDocumentsMessage;
    }
    var i := 0;
    while i < |docs|
      invariant 0 <= i <= |docs|
      invariant results == Blocks(docs[..i], words)
    {
      var doc := docs[i];
      BlocksStep(docs, i, words);
      match ReadFile(doc) {
        case Failure(message) =>
          results := results + [ErrorBlock(doc.name, message)];
        case Text(content) =>
          if content != "" {
            var matched := CollectMatches(Lines(content), words);
            if matched != [] {
              results := results + [FromBlock(doc.name, matched)];
            } else {
              results := results + [FullContentBlock(doc.name, content)];
            }
          }
      }
      i := i + 1;
    }
    assert docs[..i] == docs;
    if results != [] {
      answer := Join(results, "\n\n");
    } else {
      answer := NoInformationMessage;
    }
  }

  /** One more document adds at most its own block. */
  lemma BlocksStep(docs: seq<Entry>, i: int, tokens: seq<string>)
    requires 0 <= i < |docs|
    ensures Blocks(docs[..i + 1], tokens) == Blocks(docs[..i], tokens) + OptionToSeq(DocumentBlock(docs[i], tokens))
  {
    assert docs[..i + 1][..i] == docs[..i];
  }

  /** The inner loop of `check_local_data`: the lines of one document in
      which some token occurs. */
  method CollectMatches(lines: seq<string>, words: seq<string>) returns (matched: seq<string>)
    ensures matched == MatchedLines(lines, words)
  {
    matched := [];
    var j := 0;
    while j < |lines|
      invariant 0 <= j <= |lines|
      invariant matched == MatchedLines(lines[..j], words)
    {
      if LineMatches(lines[j], words) {
        matched := matched + [lines[j]];
      }
      assert lines[..j + 1][..j] == lines[..j];
      j := j + 1;
    }
    assert lines[..j] == lines;
  }

  /** A document where some line matches yields the "From" block of its
      matched lines, whatever its name. */
  lemma MatchedBlock(doc: Entry, tokens: seq<string>)
    requires ReadFile(doc).Text?
    requires MatchedLines(Lines(ReadFile(doc).content), tokens) != []
    ensures ReadFile(doc).content != ""
    ensures DocumentBlock(doc, tokens) == Some(FromBlock(doc.name, MatchedLines(Lines(ReadFile(doc).content), tokens)))
  {
  }

  /** When the name holds no line feed, that block reads line by line as its
      header followed by exactly the matched lines. */
  lemma MatchedBlockLines(doc: Entry, query: string)
    requires ReadFile(doc).Text? && '\n' !in doc.name
    requires MatchedLines(Lines(ReadFile(doc).content), Tokens(query)) != []
    ensures ReadFile(doc).content != ""
    ensures DocumentBlock(doc, Tokens(query)) == Some(FromBlock(doc.name, MatchedLines(Lines(ReadFile(doc).content), Tokens(query))))
    ensures Lines(DocumentBlock(doc, Tokens(query)).value) ==
      [FromHeader(doc.name)] + MatchedLines(Lines(ReadFile(doc).content), Tokens(query))
  {
    var content := ReadFile(doc).content;
    var lines := Lines(content);
    var matched := MatchedLines(lines, Tokens(query));
    MatchedBlock(doc, Tokens(query));
    var parts := [FromHeader(doc.name)] + matched;
    assert Join(parts, "\n") == FromBlock(doc.name, matched) by {
      assert parts[1..] == matched;
    }
    FilterMembership(Matcher(Tokens(query)), lines);
    forall i | 0 <= i < |parts|
      ensures '\n' !in parts[i]
    {
      if i > 0 {
        assert parts[i] in matched;
      }
    }
    MatchedLinesNotEmpty(lines, query, |matched| - 1);
    LinesOfJoin(parts);
  }

  /** A document with text where no line matches yields its whole text. */
  lemma FallbackBlock(doc: Entry, tokens: seq<string>)
    requires ReadFile(doc).Text? && ReadFile(doc).content != ""
    requires forall i :: 0 <= i < |Lines(ReadFile(doc).content)| ==> !LineMatches(Lines(ReadFile(doc).content)[i], tokens)
    ensures DocumentBlock(doc, tokens) == Some(FullContentBlock(doc.name, ReadFile(doc).content))
  {
    FilterNone(Matcher(tokens), Lines(ReadFile(doc).content));
  }

  /** A query made only of one-character words matches no line, so every
      document with text is returned whole. */
  lemma ShortQueryReturnsWholeDocuments(doc: Entry, query: string)
    requires forall w :: w in Words(LowerStr(query)) ==> |w| <= 1
    requires ReadFile(doc).Text? && ReadFile(doc).content != ""
    ensures DocumentBlock(doc, Tokens(query)) == Some(FullContentBlock(doc.name, ReadFile(doc).content))
  {
    ShortWordsGiveNoTokens(query);
    NoTokensNoMatch(Lines(ReadFile(doc).content));
  }

  /** Documents are processed independently and their blocks keep the
      enumeration order. */
  lemma {:induction false} BlocksAppend(a: seq<Entry>, b: seq<Entry>, tokens: seq<string>)
    ensures Blocks(a + b, tokens) == Blocks(a, tokens) + Blocks(b, tokens)
    decreases |b|
  {
    if |b| == 0 {
      assert a + b == a;
    } else {
      var b' := b[..|b| - 1];
      assert (a + b)[..|a + b| - 1] == a + b';
      BlocksAppend(a, b', tokens);
    }
  }

  /** A document that cannot be read contributes an error block in its own
      place; the documents before and after it are unaffected. */
  lemma FailureIsolated(a: seq<Entry>, doc: Entry, b: seq<Entry>, tokens: seq<string>)
    requires ReadFile(doc).Failure?
    ensures Blocks(a + [doc] + b, tokens) ==
      Blocks(a, tokens) + [ErrorBlock(doc.name, ReadFile(doc).message)] + Blocks(b, tokens)
  {
    BlocksAppend(a + [doc], b, tokens);
    BlocksAppend(a, [doc], tokens);
    assert [doc][..0] == [];
  }

  /** No block at all exactly when every document's text is empty. */
  lemma {:induction false} BlocksEmpty(docs: seq<Entry>, tokens: seq<string>)
    ensures Blocks(docs, tokens) == [] <==> AllEmptyText(docs)
    decreases |docs|
  {
    if |docs| > 0 {
      var docs' := docs[..|docs| - 1];
      var last := docs[|docs| - 1];
      BlocksEmpty(docs', tokens);
      NoBlock(last, tokens);
      AllEmptyTextSnoc(docs);
    }
  }

  lemma NoBlock(doc: Entry, tokens: seq<string>)
    ensures OptionToSeq(DocumentBlock(doc, tokens)) == [] <==> ReadFile(doc) == Text("")
  {
  }

  /** The "no documents" message comes back exactly when the folder holds no
      regular file with a supported suffix. */
  lemma RetrieveNoDocuments(folder: Folder, query: string)
    ensures Retrieve(folder, query) == NoDocumentsMessage <==>
      forall i :: 0 <= i < |folder| ==> !(folder[i].isFile && folder[i].suffix in SupportedSuffixes)
  {
    FilterMembership(IsDocument, folder);
    var docs := Documents(folder);
    if docs != [] {
      assert docs[0] in folder;
      assert forall e :: e in docs ==> IsDocument(e);
      var blocks := Blocks(docs, Tokens(query));
      if blocks != [] {
        JoinStartsWith(blocks, "\n\n");
        assert Retrieve(folder, query)[0] == '─';
        FixedMessages();
      }
    } else {
      forall i | 0 <= i < |folder|
        ensures !IsDocument(folder[i])
      {
        assert folder[i] in folder;
      }
    }
  }

  /** The "no relevant information" message comes back exactly when there
      are supported documents and all of them read as empty text. */
  lemma RetrieveNoInformation(folder: Folder, query: string)
    ensures Retrieve(folder, query) == NoInformationMessage <==>
      Documents(folder) != [] && forall d :: d in Documents(folder) ==> d.read == Text("")
  {
    var docs := Documents(folder);
    var blocks := Blocks(docs, Tokens(query));
    FilterMembership(IsDocument, folder);
    assert forall d :: d in docs ==> ReadFile(d) == d.read;
    BlocksEmpty(docs, Tokens(query));
    if docs != [] && blocks != [] {
      JoinStartsWith(blocks, "\n\n");
      assert Retrieve(folder, query)[0] == '─';
      FixedMessages();
    }
    FixedMessages();
  }
}
