/**
 * Ascending sorted insertion, shared by the two places the library orders
 * values: FilterQueue::orderedWrite (a linked list) and the sorted snapshot
 * that Filter::median builds in _medianValues.
 */
module Ordering {

  /** Ascending order, equal neighbours allowed. */
  predicate Sorted(s: seq<int>) {
    forall i, j :: 0 <= i < j < |s| ==> s[i] <= s[j]
  }

  /**
   * Where an ascending insertion puts `v`: just before the first element
   * strictly greater than `v`, or at the end when there is none. Elements
   * equal to `v` therefore stay in front of it.
   */
  function InsertionPoint(s: seq<int>, v: int): (k: nat)
    ensures k <= |s|
    ensures forall j :: 0 <= j < k ==> s[j] <= v
    ensures k < |s| ==> v < s[k]
  {
    if s == [] || v < s[0] then 0 else 1 + InsertionPoint(s[1..], v)
  }

  /** The three properties above single out one position. */
  lemma InsertionPointUnique(s: seq<int>, v: int, k: nat)
    requires k <= |s|
    requires forall j :: 0 <= j < k ==> s[j] <= v
    requires k < |s| ==> v < s[k]
    ensures k == InsertionPoint(s, v)
  {
  }

  /** `s` with `v` inserted at its insertion point. */
  function Inserted(s: seq<int>, v: int): (r: seq<int>)
    ensures |r| == |s| + 1
    ensures multiset(r) == multiset(s) + multiset{v}
    ensures r[InsertionPoint(s, v)] == v
  {
    var k := InsertionPoint(s, v);
    assert s == s[..k] + s[k..];
    s[..k] + [v] + s[k..]
  }

  /** Where each element of the inserted sequence comes from. */
  lemma InsertedAt(s: seq<int>, v: int, i: nat)
    requires i <= |s|
    ensures var k := InsertionPoint(s, v);
      Inserted(s, v)[i] == if i < k then s[i] else if i == k then v else s[i - 1]
  {
  }

  /** Inserting into an ascending sequence keeps it ascending. */
  lemma InsertedSorted(s: seq<int>, v: int)
    requires Sorted(s)
    ensures Sorted(Inserted(s, v))
  {
    var k := InsertionPoint(s, v);
    var r := Inserted(s, v);
    forall i, j | 0 <= i < j < |r| ensures r[i] <= r[j] {
      InsertedAt(s, v, i);
      InsertedAt(s, v, j);
      if i == k && j > k {
        assert v < s[k] && s[k] <= s[j - 1];
      }
    }
  }

  lemma MultisetOfSnoc(s: seq<int>)
    requires s != []
    ensures multiset(s) == multiset(s[..|s| - 1]) + multiset{s[|s| - 1]}
  {
    assert s == s[..|s| - 1] + [s[|s| - 1]];
  }

  /**
   * The sorted copy obtained by inserting the elements of `s` one at a
   * time, `s[0]` first: it is ascending and holds exactly the elements of `s`.
   */
  function Snapshot(s: seq<int>): (r: seq<int>)
    ensures Sorted(r)
    ensures multiset(r) == multiset(s)
    ensures |r| == |s|
  {
    if s == [] then []
    else
      var prev := Snapshot(s[..|s| - 1]);
      InsertedSorted(prev, s[|s| - 1]);
      MultisetOfSnoc(s);
      Inserted(prev, s[|s| - 1])
  }

  /** One more step of building the snapshot of a prefix of `s`. */
  lemma SnapshotStep(s: seq<int>, i: nat)
    requires i < |s|
    ensures Snapshot(s[..i + 1]) == Inserted(Snapshot(s[..i]), s[i])
  {
    assert s[..i + 1][..i] == s[..i];
  }

  /** Two ascending sequences with the same elements are the same sequence. */
  lemma {:induction false} SortedUnique(a: seq<int>, b: seq<int>)
    requires Sorted(a) && Sorted(b)
    requires multiset(a) == multiset(b)
    ensures a == b
  {
    if a != [] {
      SameFirst(a, b);
      DropFirst(a);
      DropFirst(b);
      SortedUnique(a[1..], b[1..]);
      assert a == [a[0]] + a[1..] && b == [b[0]] + b[1..];
    }
  }

  /** Both start with the smallest value of the multiset. */
  lemma SameFirst(a: seq<int>, b: seq<int>)
    requires Sorted(a) && Sorted(b) && a != []
    requires multiset(a) == multiset(b)
    ensures |b| == |a| && a[0] == b[0]
  {
    assert |b| == |multiset(b)| == |multiset(a)| == |a|;
    assert a[0] in multiset(b);
    assert b[0] in multiset(a);
  }

  lemma DropFirst(a: seq<int>)
    requires a != []
    ensures multiset(a[1..]) == multiset(a) - multiset{a[0]}
  {
    assert a == [a[0]] + a[1..];
  }

  /** The snapshot depends only on which values are present, not on their order. */
  lemma SnapshotIgnoresOrder(s: seq<int>, t: seq<int>)
    requires multiset(s) == multiset(t)
    ensures Snapshot(s) == Snapshot(t)
  {
    SortedUnique(Snapshot(s), Snapshot(t));
  }

  /** The snapshot is the one ascending arrangement of the elements. */
  lemma SnapshotIs(s: seq<int>, t: seq<int>)
    requires Sorted(t) && multiset(s) == multiset(t)
    ensures Snapshot(s) == t
  {
    SortedUnique(Snapshot(s), t);
  }

  /** An ascending sequence is its own snapshot. */
  lemma SnapshotOfSorted(s: seq<int>)
    requires Sorted(s)
    ensures Snapshot(s) == s
  {
    SortedUnique(Snapshot(s), s);
  }
}
