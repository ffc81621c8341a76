/** Sequence helpers shared by the model: filtering (a Python list
    comprehension with an `if`), flattening, and the subsequence relation
    used to say that a filter keeps the original order. */
module Seqs {

  /** The elements of `s` that satisfy `p`, in their original order. */
  function Filter<T>(p: T -> bool, s: seq<T>): (r: seq<T>)
    ensures |r| <= |s|
    ensures forall i :: 0 <= i < |r| ==> p(r[i])
  {
    if |s| == 0 then []
    else Filter(p, s[..|s| - 1]) + (if p(s[|s| - 1]) then [s[|s| - 1]] else [])
  }

  /** The concatenation of all the sequences in `ss`. */
  function Concat<T>(ss: seq<seq<T>>): seq<T>
  {
    if |ss| == 0 then [] else ss[0] + Concat(ss[1..])
  }

  /** `r` consists of the elements of `s` at the strictly increasing
      positions `idx`. */
  ghost predicate Picks<T>(idx: seq<int>, r: seq<T>, s: seq<T>)
  {
    && |idx| == |r|
    && (forall k :: 0 <= k < |idx| ==> 0 <= idx[k] < |s| && r[k] == s[idx[k]])
    && (forall k, l :: 0 <= k < l < |idx| ==> idx[k] < idx[l])
  }

  /** `r` is obtained from `s` by deleting elements (order kept, no repeats). */
  ghost predicate IsSubsequence<T>(r: seq<T>, s: seq<T>)
  {
    exists idx :: Picks(idx, r, s)
  }

  /** Filtering distributes over concatenation: each part is filtered on its own. */
  lemma {:induction false} FilterAppend<T>(p: T -> bool, a: seq<T>, b: seq<T>)
    ensures Filter(p, a + b) == Filter(p, a) + Filter(p, b)
    decreases |b|
  {
    if |b| == 0 {
      assert a + b == a;
    } else {
      var b' := b[..|b| - 1];
      assert (a + b)[..|a + b| - 1] == a + b';
      FilterAppend(p, a, b');
    }
  }

  /** An element is kept exactly when it occurs in `s` and satisfies `p`. */
  lemma {:induction false} FilterMembership<T>(p: T -> bool, s: seq<T>)
    ensures forall x :: x in Filter(p, s) <==> x in s && p(x)
    decreases |s|
  {
    if |s| > 0 {
      var s' := s[..|s| - 1];
      FilterMembership(p, s');
      assert s == s' + [s[|s| - 1]];
    }
  }

  /** The filter picks exactly the positions whose element satisfies `p`,
      each once and in increasing order. */
  lemma {:induction false} FilterPositions<T>(p: T -> bool, s: seq<T>)
    ensures exists idx :: Picks(idx, Filter(p, s), s) && Exactly(p, idx, s)
    decreases |s|
  {
    if |s| == 0 {
      assert Picks([], Filter(p, s), s);
    } else {
      var s' := s[..|s| - 1];
      var x := s[|s| - 1];
      assert s == s' + [x];
      FilterPositions(p, s');
      var idx' :| Picks(idx', Filter(p, s'), s') && Exactly(p, idx', s');
      if p(x) {
        PicksExtend(idx', Filter(p, s'), s', x, true);
        ExactlyExtend(p, idx', s', x);
        assert Picks(idx' + [|s'|], Filter(p, s), s);
      } else {
        PicksExtend(idx', Filter(p, s'), s', x, false);
        ExactlyExtend(p, idx', s', x);
        assert Picks(idx', Filter(p, s), s);
      }
    }
  }

  /** The positions `idx` are exactly those of `s` whose element satisfies `p`. */
  ghost predicate Exactly<T>(p: T -> bool, idx: seq<int>, s: seq<T>)
  {
    forall i :: 0 <= i < |s| ==> (i in idx <==> p(s[i]))
  }

  lemma PicksExtend<T>(idx: seq<int>, r: seq<T>, s: seq<T>, x: T, keep: bool)
    requires Picks(idx, r, s)
    ensures keep ==> Picks(idx + [|s|], r + [x], s + [x])
    ensures !keep ==> Picks(idx, r, s + [x])
  {
  }

  lemma ExactlyExtend<T>(p: T -> bool, idx: seq<int>, s: seq<T>, x: T)
    requires Exactly(p, idx, s)
    requires forall k :: 0 <= k < |idx| ==> 0 <= idx[k] < |s|
    ensures Exactly(p, if p(x) then idx + [|s|] else idx, s + [x])
  {
    var idx2 := if p(x) then idx + [|s|] else idx;
    forall i | 0 <= i < |s| + 1
      ensures i in idx2 <==> p((s + [x])[i])
    {
      if i < |s| {
        assert (s + [x])[i] == s[i];
      } else {
        assert i !in idx;
      }
    }
  }

  /** A filter keeps the original order. */
  lemma FilterIsSubsequence<T>(p: T -> bool, s: seq<T>)
    ensures IsSubsequence(Filter(p, s), s)
  {
    FilterPositions(p, s);
  }

  /** A prefix of a subsequence is a subsequence. */
  lemma SubsequencePrefix<T>(r: seq<T>, s: seq<T>, n: nat)
    requires IsSubsequence(r, s) && n <= |r|
    ensures IsSubsequence(r[..n], s)
  {
    var idx :| Picks(idx, r, s);
    assert Picks(idx[..n], r[..n], s);
  }

  /** When no element satisfies `p`, nothing is kept. */
  lemma FilterNone<T>(p: T -> bool, s: seq<T>)
    requires forall i :: 0 <= i < |s| ==> !p(s[i])
    ensures Filter(p, s) == []
  {
    FilterMembership(p, s);
  }

  /** When every element satisfies `p`, everything is kept. */
  lemma {:induction false} FilterAll<T>(p: T -> bool, s: seq<T>)
    requires forall i :: 0 <= i < |s| ==> p(s[i])
    ensures Filter(p, s) == s
    decreases |s|
  {
    if |s| > 0 {
      FilterAll(p, s[..|s| - 1]);
    }
  }

  /** Every element of a member of `ss` occurs in the concatenation. */
  lemma {:induction false} ConcatMembership<T>(ss: seq<seq<T>>, i: int, x: T)
    requires 0 <= i < |ss| && x in ss[i]
    ensures x in Concat(ss)
    decreases |ss|
  {
    if i > 0 {
      ConcatMembership(ss[1..], i - 1, x);
    }
  }
}
