/** Exact-duplicate row removal that keeps the first occurrence of every
    row (`df.drop_duplicates(keep='first')` in web_scrapping.py). */
module Dedup {
  import opened Seqs

  predicate NoDuplicates<T(==)>(s: seq<T>) {
    forall i, j :: 0 <= i < j < |s| ==> s[i] != s[j]
  }

  /** `s` without its repeated elements: an element survives only where it
      occurs for the first time, and the survivors keep their order. */
  function DropDuplicates<T(==, !new)>(s: seq<T>): (r: seq<T>)
    ensures forall y :: y in r <==> y in s
    ensures NoDuplicates(r)
    ensures |r| <= |s|
    ensures s != [] ==> r != [] && r[0] == s[0]
  {
    if s == [] then []
    else
      var n := |s| - 1;
      var p := DropDuplicates(s[..n]);
      assert s == s[..n] + [s[n]];
      if s[n] in p then p else p + [s[n]]
  }

  /** Position `i` of `s` holds the first occurrence of its element. */
  predicate IsFirstOccurrence<T(==)>(s: seq<T>, i: nat)
    requires i < |s|
  {
    s[i] !in s[..i]
  }

  /** The positions of first occurrences, in increasing order. */
  function FirstOccurrences<T(==)>(s: seq<T>): (idx: seq<nat>)
    ensures forall k :: 0 <= k < |idx| ==> idx[k] < |s|
  {
    if s == [] then []
    else
      var n := |s| - 1;
      FirstOccurrences(s[..n]) + (if s[n] !in s[..n] then [n] else [])
  }

  /** FirstOccurrences lists every first occurrence and nothing else, in order. */
  lemma {:induction false} FirstOccurrencesSpec<T>(s: seq<T>)
    ensures StrictlyIncreasing(FirstOccurrences(s))
    ensures forall k :: 0 <= k < |FirstOccurrences(s)| ==> IsFirstOccurrence(s, FirstOccurrences(s)[k])
    ensures forall i :: 0 <= i < |s| && IsFirstOccurrence(s, i) ==> i in FirstOccurrences(s)
  {
    if s != [] {
      var n := |s| - 1;
      var p := FirstOccurrences(s[..n]);
      FirstOccurrencesSpec(s[..n]);
      assert forall i :: 0 <= i < n ==> s[..n][..i] == s[..i] && s[..n][i] == s[i];
    }
  }

  /** The result is exactly the input read at its first occurrences: a
      subsequence of the input that keeps the first copy of every row. */
  lemma {:induction false} DropDuplicatesKeepsFirst<T(!new)>(s: seq<T>)
    ensures DropDuplicates(s) == Project(s, FirstOccurrences(s))
  {
    if s != [] {
      var n := |s| - 1;
      var p := FirstOccurrences(s[..n]);
      DropDuplicatesKeepsFirst(s[..n]);
      assert s == s[..n] + [s[n]];
      assert forall k :: 0 <= k < |p| ==> s[p[k]] == s[..n][p[k]];
      assert Project(s, p) == Project(s[..n], p);
    }
  }

  /** A sequence without duplicates is left as it is. */
  lemma {:induction false} DropDuplicatesOfDistinct<T(!new)>(s: seq<T>)
    requires NoDuplicates(s)
    ensures DropDuplicates(s) == s
  {
    if s != [] {
      var n := |s| - 1;
      assert NoDuplicates(s[..n]);
      DropDuplicatesOfDistinct(s[..n]);
      assert s[n] !in s[..n];
      assert s == s[..n] + [s[n]];
    }
  }

  /** Removing duplicates twice gives the same result as once. */
  lemma DropDuplicatesIdempotent<T(!new)>(s: seq<T>)
    ensures DropDuplicates(DropDuplicates(s)) == DropDuplicates(s)
  {
    DropDuplicatesOfDistinct(DropDuplicates(s));
  }

  /** The first row survives only as the first row: every later copy of it
      is removed. */
  lemma DropDuplicatesHeadOnce<T(!new)>(s: seq<T>)
    requires s != []
    ensures s[0] !in DropDuplicates(s)[1..]
  {
    var r := DropDuplicates(s);
    forall j | 0 <= j < |r| - 1
      ensures r[1..][j] != s[0]
    {
      assert r[1..][j] == r[j + 1];
    }
  }

  /** Only rows of the input survive, so rows of one width stay rectangular. */
  lemma DropDuplicatesRectangular(g: seq<seq<string>>)
    requires IsRectangular(g)
    ensures IsRectangular(DropDuplicates(g))
  {
  }
}
