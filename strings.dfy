/** The string operations the server relies on, modelled on ASCII:
    `str.lower()`, `str.split()` with no argument, `str.splitlines()`,
    `str.strip()`, `sep.join(parts)`, slicing and the substring test `in`. */
module Strings {
  import opened Seqs

  /** The ASCII characters Python's `str.isspace()` accepts: space, tab,
      line feed, vertical tab, form feed, carriage return and the four
      information separators 0x1C-0x1F. */
  predicate IsSpace(c: char)
  {
    c == ' ' || '\t' <= c <= '\r' || '\U{1C}' <= c <= '\U{1F}'
  }

  predicate NotSpace(c: char)
  {
    !IsSpace(c)
  }

  predicate AllSpace(s: string)
  {
    forall i :: 0 <= i < |s| ==> IsSpace(s[i])
  }

  predicate NoSpace(s: string)
  {
    forall i :: 0 <= i < |s| ==> !IsSpace(s[i])
  }

  predicate IsUpper(c: char)
  {
    'A' <= c <= 'Z'
  }

  predicate NoUpper(s: string)
  {
    forall i :: 0 <= i < |s| ==> !IsUpper(s[i])
  }

  /** ASCII lower-casing of one character; other characters are unchanged. */
  function Lower(c: char): (d: char)
    ensures !IsUpper(d)
    ensures IsSpace(d) <==> IsSpace(c)
    ensures !IsUpper(c) ==> d == c
  {
    if IsUpper(c) then (c as int + 32) as char else c
  }

  /** `s.lower()`: same length, every character lower-cased. */
  function LowerStr(s: string): (r: string)
    ensures |r| == |s|
    ensures forall i :: 0 <= i < |s| ==> r[i] == Lower(s[i])
  {
    seq(|s|, i requires 0 <= i < |s| => Lower(s[i]))
  }

  /** `s` starts with `p`. */
  predicate IsPrefix(p: string, s: string)
  {
    |p| <= |s| && s[..|p|] == p
  }

  /** `sub` occurs in `s` starting at position `i`. */
  ghost predicate OccursAt(s: string, sub: string, i: int)
  {
    0 <= i && i + |sub| <= |s| && s[i..i + |sub|] == sub
  }

  /** Python's `sub in s`: the empty string occurs in every string. */
  predicate Contains(s: string, sub: string)
    decreases |s|
  {
    IsPrefix(sub, s) || (|s| > 0 && Contains(s[1..], sub))
  }

  /** `Contains` is the substring relation: `sub` occurs at some position of `s`. */
  lemma {:induction false} ContainsAt(s: string, sub: string)
    ensures Contains(s, sub) <==> exists i :: OccursAt(s, sub, i)
    decreases |s|
  {
    if IsPrefix(sub, s) {
      assert OccursAt(s, sub, 0);
    } else if |s| == 0 {
      assert forall i :: !OccursAt(s, sub, i);
    } else {
      ContainsAt(s[1..], sub);
      if Contains(s[1..], sub) {
        var j :| OccursAt(s[1..], sub, j);
        assert s[1..][j..j + |sub|] == s[j + 1..j + 1 + |sub|];
        assert OccursAt(s, sub, j + 1);
      } else {
        forall i | OccursAt(s, sub, i)
          ensures false
        {
          assert i != 0;
          assert s[1..][i - 1..i - 1 + |sub|] == s[i..i + |sub|];
          assert OccursAt(s[1..], sub, i - 1);
        }
      }
    }
  }

  /** A string contains only substrings no longer than itself. */
  lemma ContainsLength(s: string, sub: string)
    requires Contains(s, sub)
    ensures |sub| <= |s|
  {
    ContainsAt(s, sub);
  }

  /** `s.lstrip()`. */
  function TrimStart(s: string): string
    decreases |s|
  {
    if |s| > 0 && IsSpace(s[0]) then TrimStart(s[1..]) else s
  }

  /** `s.lstrip()` drops the leading whitespace and nothing else. */
  lemma {:induction false} TrimStartSpec(s: string)
    ensures |TrimStart(s)| <= |s| && TrimStart(s) == s[|s| - |TrimStart(s)|..]
    ensures TrimStart(s) != [] ==> !IsSpace(TrimStart(s)[0])
    ensures AllSpace(s[..|s| - |TrimStart(s)|])
    decreases |s|
  {
    if |s| > 0 && IsSpace(s[0]) {
      var t := s[1..];
      TrimStartSpec(t);
      var k := |t| - |TrimStart(t)|;
      assert TrimStart(s) == TrimStart(t) == t[k..] == s[k + 1..];
      assert s[..k + 1] == [s[0]] + t[..k];
    }
  }

  /** `s.rstrip()`. */
  function TrimEnd(s: string): string
    decreases |s|
  {
    if |s| > 0 && IsSpace(s[|s| - 1]) then TrimEnd(s[..|s| - 1]) else s
  }

  /** `s.rstrip()` drops the trailing whitespace and nothing else. */
  lemma {:induction false} TrimEndSpec(s: string)
    ensures |TrimEnd(s)| <= |s| && TrimEnd(s) == s[..|TrimEnd(s)|]
    ensures TrimEnd(s) != [] ==> !IsSpace(TrimEnd(s)[|TrimEnd(s)| - 1])
    ensures AllSpace(s[|TrimEnd(s)|..])
    decreases |s|
  {
    if |s| > 0 && IsSpace(s[|s| - 1]) {
      var r := TrimEnd(s[..|s| - 1]);
      TrimEndSpec(s[..|s| - 1]);
      assert s[|r|..] == s[..|s| - 1][|r|..] + [s[|s| - 1]];
    }
  }

  /** `sub` is `s` with whitespace removed at both ends, found at `lo`. */
  ghost predicate StrippedAt(s: string, sub: string, lo: int)
  {
    OccursAt(s, sub, lo) && AllSpace(s[..lo]) && AllSpace(s[lo + |sub|..])
  }

  /** `s.strip()`. */
  function Strip(s: string): string
  {
    TrimEnd(TrimStart(s))
  }

  /** `s.strip()` is the piece of `s` left once leading and trailing
      whitespace is removed; it starts and ends with a non-space character. */
  lemma StripSpec(s: string)
    ensures |Strip(s)| <= |s|
    ensures Strip(s) != [] ==> !IsSpace(Strip(s)[0]) && !IsSpace(Strip(s)[|Strip(s)| - 1])
    ensures exists lo :: StrippedAt(s, Strip(s), lo)
  {
    var t := TrimStart(s);
    TrimStartSpec(s);
    TrimEndSpec(t);
    StrippedAtPieces(s, |s| - |t|, t, TrimEnd(t));
  }

  lemma StrippedAtPieces(s: string, lo: int, t: string, r: string)
    requires 0 <= lo <= |s| && t == s[lo..] && AllSpace(s[..lo])
    requires |r| <= |t| && r == t[..|r|] && AllSpace(t[|r|..])
    ensures StrippedAt(s, r, lo)
  {
    assert s[lo..lo + |r|] == r;
    assert s[lo + |r|..] == t[|r|..];
  }

  /** `s[:n]`. */
  function Take(s: string, n: nat): string
  {
    if |s| <= n then s else s[..n]
  }

  /** `s[:n]` is the first `n` characters, or the whole text when it is no
      longer. */
  lemma TakeSpec(s: string, n: nat)
    ensures |Take(s, n)| <= n && IsPrefix(Take(s, n), s)
    ensures |s| <= n ==> Take(s, n) == s
    ensures |s| > n ==> |Take(s, n)| == n
  {
  }

  /** Length of the leading run of non-whitespace characters. */
  function WordEnd(s: string): (n: nat)
    ensures n <= |s|
    ensures NoSpace(s[..n])
    ensures n < |s| ==> IsSpace(s[n])
    decreases |s|
  {
    if |s| == 0 || IsSpace(s[0]) then 0 else 1 + WordEnd(s[1..])
  }

  /** `s.split()`: the maximal runs of non-whitespace characters, in order. */
  function Words(s: string): (ws: seq<string>)
    ensures forall i :: 0 <= i < |ws| ==> ws[i] != [] && NoSpace(ws[i])
    decreases |s|
  {
    if s == [] then []
    else if IsSpace(s[0]) then Words(s[1..])
    else
      var n := WordEnd(s);
      [s[..n]] + Words(s[n..])
  }

  /** No character is lost or invented by splitting: the words laid end to end
      are the non-whitespace characters of `s`. */
  lemma {:induction false} WordsCover(s: string)
    ensures Concat(Words(s)) == Filter(NotSpace, s)
    decreases |s|
  {
    if s != [] {
      if IsSpace(s[0]) {
        WordsCoverBlank(s);
        WordsCover(s[1..]);
      } else {
        var n := WordEnd(s);
        var w := s[..n];
        var tail := s[n..];
        assert s == w + tail;
        WordsCoverWord(w, tail);
        WordsCover(tail);
        assert Words(s) == [w] + Words(tail);
        assert ([w] + Words(tail))[1..] == Words(tail);
      }
    }
  }

  /** `w` occurs in `s` at position `p` as a whole run: whitespace or an end
      of `s` on either side of it. */
  ghost predicate RunAt(s: string, w: string, p: int)
  {
    && 0 <= p && p + |w| <= |s| && s[p..p + |w|] == w
    && (p == 0 || IsSpace(s[p - 1]))
    && (p + |w| == |s| || IsSpace(s[p + |w|]))
  }

  /** The words `ws` are whole runs of `s` at the positions `idx`, each one
      starting after the previous one has ended. */
  ghost predicate RunsAt(s: string, ws: seq<string>, idx: seq<int>)
  {
    && |idx| == |ws|
    && (forall k :: 0 <= k < |idx| ==> RunAt(s, ws[k], idx[k]))
    && (forall k :: 0 <= k < |idx| - 1 ==> idx[k] + |ws[k]| < idx[k + 1])
  }

  /** The words of `split()` are maximal: each is a whole run of
      non-whitespace characters of `s`, and they come in the order of `s`.
      With `WordsCover` this leaves only one way to split `s`. */
  lemma WordsAreRuns(s: string)
    ensures exists idx :: RunsAt(s, Words(s), idx)
  {
    var idx := WordPositions(s);
  }

  lemma {:induction false} WordPositions(s: string) returns (idx: seq<int>)
    ensures RunsAt(s, Words(s), idx)
    decreases |s|
  {
    if s == [] {
      idx := [];
    } else if IsSpace(s[0]) {
      var rest := WordPositions(s[1..]);
      RunsShift(s, 1, Words(s[1..]), rest);
      idx := Shift(rest, 1);
    } else {
      var n := WordEnd(s);
      var ws := Words(s[n..]);
      var rest := WordPositions(s[n..]);
      forall k | 0 <= k < |rest|
        ensures rest[k] > 0
      {
        if rest[k] == 0 {
          assert false;
        }
      }
      RunsShift(s, n, ws, rest);
      idx := [0] + Shift(rest, n);
      assert s[0..n] == s[..n];
      assert Words(s) == [s[..n]] + ws;
    }
  }

  function Shift(idx: seq<int>, d: int): (r: seq<int>)
    ensures |r| == |idx|
    ensures forall k :: 0 <= k < |idx| ==> r[k] == idx[k] + d
  {
    seq(|idx|, k requires 0 <= k < |idx| => idx[k] + d)
  }

  /** Runs of a suffix of `s` are runs of `s`, further on by the length of
      what was cut off. */
  lemma RunsShift(s: string, d: int, ws: seq<string>, idx: seq<int>)
    requires 0 < d <= |s| && RunsAt(s[d..], ws, idx)
    requires forall k :: 0 <= k < |idx| ==> idx[k] > 0 || IsSpace(s[d - 1])
    ensures RunsAt(s, ws, Shift(idx, d))
  {
    var t := s[d..];
    forall k | 0 <= k < |idx|
      ensures RunAt(s, ws[k], idx[k] + d)
    {
      var p := idx[k];
      var w := ws[k];
      assert s[p + d..p + d + |w|] == t[p..p + |w|];
      if p > 0 {
        assert s[p + d - 1] == t[p - 1];
      }
      if p + |w| < |t| {
        assert s[p + d + |w|] == t[p + |w|];
      }
    }
  }

  lemma WordsCoverBlank(s: string)
    requires s != [] && IsSpace(s[0])
    ensures Filter(NotSpace, s) == Filter(NotSpace, s[1..])
  {
    assert s == [s[0]] + s[1..];
    FilterAppend(NotSpace, [s[0]], s[1..]);
    assert Filter(NotSpace, [s[0]]) == [];
  }

  lemma WordsCoverWord(w: string, tail: string)
    requires NoSpace(w)
    ensures Filter(NotSpace, w + tail) == w + Filter(NotSpace, tail)
  {
    FilterAppend(NotSpace, w, tail);
    FilterAll(NotSpace, w);
  }

  /** Every character of a word is a character of the split string. */
  lemma WordChar(s: string, i: int, c: char)
    requires 0 <= i < |Words(s)| && c in Words(s)[i]
    ensures c in s
  {
    ConcatMembership(Words(s), i, c);
    WordsCover(s);
    FilterMembership(NotSpace, s);
  }

  /** `sep.join(parts)`. */
  function Join(parts: seq<string>, sep: string): string
  {
    if |parts| == 0 then []
    else if |parts| == 1 then parts[0]
    else parts[0] + sep + Join(parts[1..], sep)
  }

  /** A non-empty join starts with its first part. */
  lemma {:induction false} JoinStartsWith(parts: seq<string>, sep: string)
    requires |parts| > 0
    ensures IsPrefix(parts[0], Join(parts, sep))
  {
  }

  /** A non-empty join ends with its last part. */
  lemma {:induction false} JoinEndsWith(parts: seq<string>, sep: string)
    requires |parts| > 0
    ensures |parts[|parts| - 1]| <= |Join(parts, sep)|
    ensures Join(parts, sep)[|Join(parts, sep)| - |parts[|parts| - 1]|..] == parts[|parts| - 1]
    decreases |parts|
  {
    if |parts| > 1 {
      JoinEndsWith(parts[1..], sep);
    }
  }

  /** Position of the first line feed, or `|s|` when there is none. */
  function LineEnd(s: string): (n: nat)
    ensures n <= |s|
    ensures '\n' !in s[..n]
    ensures n < |s| ==> s[n] == '\n'
    decreases |s|
  {
    if |s| == 0 || s[0] == '\n' then 0 else 1 + LineEnd(s[1..])
  }

  /** The three properties in the contract of `LineEnd` determine it. */
  lemma LineEndAt(s: string, n: nat)
    requires n <= |s| && '\n' !in s[..n]
    requires n < |s| ==> s[n] == '\n'
    ensures LineEnd(s) == n
  {
    assert forall k :: 0 <= k < n ==> s[..n][k] == s[k];
    assert forall k :: 0 <= k < LineEnd(s) ==> s[..LineEnd(s)][k] == s[k];
  }

  predicate EndsWithNewline(s: string)
  {
    |s| > 0 && s[|s| - 1] == '\n'
  }

  /** `s.splitlines()` for line-feed line endings: the empty string has no
      lines, and a final line feed does not open a further empty line. */
  function Lines(s: string): (ls: seq<string>)
    ensures s != [] <==> ls != []
    ensures forall i :: 0 <= i < |ls| ==> '\n' !in ls[i]
    decreases |s|
  {
    if s == [] then []
    else
      var n := LineEnd(s);
      if n == |s| then [s]
      else [s[..n]] + Lines(s[n + 1..])
  }

  /** The line feed `splitlines()` drops at the very end, if there is one. */
  function FinalNewline(s: string): string
  {
    if EndsWithNewline(s) then "\n" else ""
  }

  /** Splitting loses nothing: joining the lines with line feeds, and putting
      back a final line feed if there was one, gives the text again. */
  lemma {:induction false} JoinOfLines(s: string)
    ensures Join(Lines(s), "\n") + FinalNewline(s) == s
    decreases |s|
  {
    if s != [] {
      var n := LineEnd(s);
      if n < |s| {
        var line := s[..n];
        var rest := s[n + 1..];
        assert s == line + "\n" + rest;
        assert Lines(s) == [line] + Lines(rest);
        if rest == [] {
          assert FinalNewline(s) == "\n";
        } else {
          JoinOfLines(rest);
          assert FinalNewline(s) == FinalNewline(rest);
          JoinOfLinesGlue(line, Lines(rest), rest, FinalNewline(rest));
        }
      }
    }
  }

  lemma JoinOfLinesGlue(line: string, ls: seq<string>, rest: string, t: string)
    requires ls != [] && Join(ls, "\n") + t == rest
    ensures Join([line] + ls, "\n") + t == line + "\n" + rest
  {
    JoinCons(line, ls, "\n");
  }

  /** Joining one more part in front adds it and a separator. */
  lemma JoinCons(part: string, parts: seq<string>, sep: string)
    requires parts != []
    ensures Join([part] + parts, sep) == part + sep + Join(parts, sep)
  {
    assert ([part] + parts)[1..] == parts;
  }

  /** Splitting a join of line-feed-free lines gives the lines back, provided
      the last one is not empty (an empty last line would read as a final
      line feed). */
  lemma {:induction false} LinesOfJoin(parts: seq<string>)
    requires forall i :: 0 <= i < |parts| ==> '\n' !in parts[i]
    requires |parts| > 0 ==> parts[|parts| - 1] != []
    ensures Lines(Join(parts, "\n")) == parts
    decreases |parts|
  {
    if |parts| == 1 {
      assert s0: parts[0][..|parts[0]|] == parts[0];
      assert LineEnd(parts[0]) == |parts[0]|;
    } else if |parts| > 1 {
      var p := parts[0];
      var rest := Join(parts[1..], "\n");
      var s := Join(parts, "\n");
      assert s == p + "\n" + rest;
      assert s[..|p|] == p;
      assert s[|p|] == '\n';
      LineEndAt(s, |p|);
      assert s[|p| + 1..] == rest;
      JoinEndsWith(parts[1..], "\n");
      assert rest != [];
      LinesOfJoin(parts[1..]);
    }
  }
}
