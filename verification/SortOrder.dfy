/** The orders the three sorting back ends work with, and what a sorted result is. */
module SortOrder {

  /** The `uint64_t` elements of the arrays. */
  newtype uint64 = x: int | 0 <= x < 0x1_0000_0000_0000_0000

  /** x comes strictly before y; `rev` asks for the descending order. */
  predicate Lt(x: uint64, y: uint64, rev: bool) {
    if rev then x > y else x < y
  }

  predicate Le(x: uint64, y: uint64, rev: bool) {
    !Lt(y, x, rev)
  }

  ghost predicate Sorted(s: seq<uint64>, rev: bool) {
    forall i, j :: 0 <= i < j < |s| ==> Le(s[i], s[j], rev)
  }

  /** Sorted means ascending, and with rev descending. */
  lemma SortedMeans(s: seq<uint64>)
    ensures Sorted(s, false) <==> forall i, j :: 0 <= i < j < |s| ==> s[i] as int <= s[j] as int
    ensures Sorted(s, true) <==> forall i, j :: 0 <= i < j < |s| ==> s[i] as int >= s[j] as int
  {
    if forall i, j :: 0 <= i < j < |s| ==> s[i] as int <= s[j] as int {
      assert forall i, j :: 0 <= i < j < |s| ==> Le(s[i], s[j], false);
    }
    if forall i, j :: 0 <= i < j < |s| ==> s[i] as int >= s[j] as int {
      assert forall i, j :: 0 <= i < j < |s| ==> Le(s[i], s[j], true);
    }
  }

  ghost predicate IsSortOf(t: seq<uint64>, s: seq<uint64>, rev: bool) {
    Sorted(t, rev) && multiset(t) == multiset(s)
  }

  /** From q on every element comes after all elements before it. */
  ghost predicate Tail(s: seq<uint64>, q: int, rev: bool) {
    forall i, j :: 0 <= i < j < |s| && q <= j ==> Le(s[i], s[j], rev)
  }

  /** The two elements exchanged, everything else in place. */
  function Swap(s: seq<uint64>, i: int, j: int): (t: seq<uint64>)
    requires 0 <= i < |s| && 0 <= j < |s|
    ensures |t| == |s|
  {
    s[i := s[j]][j := s[i]]
  }

  lemma SwapPermutes(s: seq<uint64>, i: int, j: int)
    requires 0 <= i < |s| && 0 <= j < |s|
    ensures multiset(Swap(s, i, j)) == multiset(s)
  {
  }

  /** w is the array as if t stood in the hole at i. */
  ghost predicate Hole(a: array<uint64>, w: seq<uint64>, i: int, t: uint64)
    reads a
  {
    |w| == a.Length && 0 <= i < |w| && w[i] == t && forall j :: 0 <= j < |w| && j != i ==> w[j] == a[j]
  }

  lemma TakeHead(s: seq<uint64>, x: uint64)
    requires s != [] && s[0] == x
    ensures multiset(s[1..]) == multiset(s) - multiset{x}
  {
    assert s == [x] + s[1..];
  }

  /** In a sorted sequence the head is a first element. */
  lemma HeadIsFirst(s: seq<uint64>, x: uint64, rev: bool)
    requires s != [] && Sorted(s, rev) && x in s
    ensures Le(s[0], x, rev)
  {
    var i :| 0 <= i < |s| && s[i] == x;
  }

  /** A sequence has one sorted arrangement per direction. */
  lemma {:induction false} SortedPermutationIsUnique(s: seq<uint64>, t: seq<uint64>, rev: bool)
    requires Sorted(s, rev) && Sorted(t, rev) && multiset(s) == multiset(t)
    ensures s == t
    decreases |s|
  {
    assert |s| == |multiset(s)| == |multiset(t)| == |t|;
    if s != [] {
      assert s[0] in multiset(s) && t[0] in multiset(t);
      HeadIsFirst(s, t[0], rev);
      HeadIsFirst(t, s[0], rev);
      TakeHead(s, s[0]);
      TakeHead(t, s[0]);
      SortedPermutationIsUnique(s[1..], t[1..], rev);
    }
  }
}
