/** Sequence operations shared by the cell, column and row transformations. */
module Seqs {

  /** `s` with every occurrence of `x` taken out; the other elements keep
      their order (see RemoveAllAppend). On strings this is Python's
      `s.replace(x, "")`; on header rows it is dropping a column by name. */
  function RemoveAll<T(==, !new)>(s: seq<T>, x: T): (r: seq<T>)
    ensures x !in r
    ensures |r| <= |s|
    ensures forall y :: y in r ==> y in s
    ensures x !in s ==> r == s
  {
    if s == [] then []
    else
      assert s == [s[0]] + s[1..];
      (if s[0] == x then [] else [s[0]]) + RemoveAll(s[1..], x)
  }

  /** Removal takes out exactly the occurrences of `x`. */
  lemma {:induction false} RemoveAllLength<T(!new)>(s: seq<T>, x: T)
    ensures |RemoveAll(s, x)| == |s| - multiset(s)[x]
  {
    if s != [] {
      assert s == [s[0]] + s[1..];
      RemoveAllLength(s[1..], x);
    }
  }

  /** Removal leaves the number of occurrences of every other element as it was. */
  lemma {:induction false} RemoveAllKeepsOthers<T(!new)>(s: seq<T>, x: T, y: T)
    requires y != x
    ensures multiset(RemoveAll(s, x))[y] == multiset(s)[y]
  {
    if s != [] {
      assert s == [s[0]] + s[1..];
      RemoveAllKeepsOthers(s[1..], x, y);
    }
  }

  /** Removal distributes over concatenation: it works element by element
      and keeps the survivors in their original order. */
  lemma {:induction false} RemoveAllAppend<T(!new)>(a: seq<T>, b: seq<T>, x: T)
    ensures RemoveAll(a + b, x) == RemoveAll(a, x) + RemoveAll(b, x)
  {
    if a == [] {
      assert a + b == b;
    } else {
      var head: seq<T> := if a[0] == x then [] else [a[0]];
      var ab := a + b;
      assert ab[0] == a[0] && ab[1..] == a[1..] + b;
      assert RemoveAll(ab, x) == head + RemoveAll(ab[1..], x);
      assert RemoveAll(a, x) == head + RemoveAll(a[1..], x);
      RemoveAllAppend(a[1..], b, x);
      AppendAssoc(head, RemoveAll(a[1..], x), RemoveAll(b, x));
    }
  }

  lemma AppendAssoc<T>(p: seq<T>, q: seq<T>, r: seq<T>)
    ensures (p + q) + r == p + (q + r)
  {
  }

  predicate StrictlyIncreasing(idx: seq<nat>) {
    forall k, l :: 0 <= k < l < |idx| ==> idx[k] < idx[l]
  }

  /** The positions of `s` that do not hold `x`, in increasing order: the
      columns that survive when the columns named `x` are dropped. */
  function KeptPositions<T(==)>(s: seq<T>, x: T): (idx: seq<nat>)
    ensures forall k :: 0 <= k < |idx| ==> idx[k] < |s|
  {
    if s == [] then []
    else
      var n := |s| - 1;
      KeptPositions(s[..n], x) + (if s[n] != x then [n] else [])
  }

  /** The kept positions are increasing, point at exactly the elements
      that RemoveAll keeps, and miss no position that does not hold `x`. */
  lemma KeptPositionsSpec<T(!new)>(s: seq<T>, x: T)
    ensures |KeptPositions(s, x)| == |RemoveAll(s, x)|
    ensures StrictlyIncreasing(KeptPositions(s, x))
    ensures forall k :: 0 <= k < |KeptPositions(s, x)| ==> s[KeptPositions(s, x)[k]] == RemoveAll(s, x)[k]
    ensures forall j :: 0 <= j < |s| && s[j] != x ==> j in KeptPositions(s, x)
  {
    KeptPositionsSelect(s, x);
    KeptPositionsIncreasing(s, x);
    KeptPositionsComplete(s, x);
  }

  lemma {:induction false} KeptPositionsSelect<T(!new)>(s: seq<T>, x: T)
    ensures |KeptPositions(s, x)| == |RemoveAll(s, x)|
    ensures forall k :: 0 <= k < |KeptPositions(s, x)| ==> s[KeptPositions(s, x)[k]] == RemoveAll(s, x)[k]
  {
    if s != [] {
      var n := |s| - 1;
      var p := KeptPositions(s[..n], x);
      var r0 := RemoveAll(s[..n], x);
      KeptPositionsSelect(s[..n], x);
      assert s == s[..n] + [s[n]];
      RemoveAllAppend(s[..n], [s[n]], x);
      assert [s[n]] == [s[n]] + [];
      assert RemoveAll([s[n]], x) == if s[n] == x then [] else [s[n]];
      var r := RemoveAll(s, x);
      assert r == r0 + (if s[n] == x then [] else [s[n]]);
      assert forall k :: 0 <= k < |p| ==> s[p[k]] == s[..n][p[k]];
    }
  }

  lemma {:induction false} KeptPositionsIncreasing<T>(s: seq<T>, x: T)
    ensures StrictlyIncreasing(KeptPositions(s, x))
  {
    if s != [] {
      KeptPositionsIncreasing(s[..|s| - 1], x);
    }
  }

  lemma {:induction false} KeptPositionsComplete<T>(s: seq<T>, x: T)
    ensures forall j :: 0 <= j < |s| && s[j] != x ==> j in KeptPositions(s, x)
  {
    if s != [] {
      var n := |s| - 1;
      KeptPositionsComplete(s[..n], x);
      assert forall j :: 0 <= j < n && s[j] != x ==> s[..n][j] != x;
    }
  }

  /** The elements of `s` at the positions `idx`, in that order. */
  function Project<T>(s: seq<T>, idx: seq<nat>): (r: seq<T>)
    requires forall k :: 0 <= k < |idx| ==> idx[k] < |s|
    ensures |r| == |idx|
    ensures forall k :: 0 <= k < |idx| ==> r[k] == s[idx[k]]
  {
    seq(|idx|, k requires 0 <= k < |idx| => s[idx[k]])
  }

  /** Projecting on the kept positions is the same as removing `x`. */
  lemma ProjectKept<T(!new)>(s: seq<T>, x: T)
    ensures Project(s, KeptPositions(s, x)) == RemoveAll(s, x)
  {
    KeptPositionsSpec(s, x);
  }

  /** Every row of the grid has `w` cells. */
  predicate HasWidth(g: seq<seq<string>>, w: nat) {
    forall row :: row in g ==> |row| == w
  }

  /** All rows of the grid have the same number of cells. */
  predicate IsRectangular(g: seq<seq<string>>) {
    forall r1, r2 :: r1 in g && r2 in g ==> |r1| == |r2|
  }
}
