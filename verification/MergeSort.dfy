/** mergesort64: a bottom-up merge sort between the array and a scratch buffer. */
module MergeSort {
  import opened SortOrder
  import opened Words

  /** Merges two runs; on equal elements the right one goes first. */
  function Merged(x: seq<uint64>, y: seq<uint64>, rev: bool): (z: seq<uint64>)
    ensures |z| == |x| + |y|
  {
    if x == [] then y
    else if y == [] || Lt(x[0], y[0], rev) then [x[0]] + Merged(x[1..], y, rev)
    else [y[0]] + Merged(x, y[1..], rev)
  }

  lemma PrependCounts(h: uint64, z: seq<uint64>)
    ensures multiset([h] + z) == multiset{h} + multiset(z)
  {
  }

  lemma HeadCounts(z: seq<uint64>)
    requires z != []
    ensures multiset(z) == multiset{z[0]} + multiset(z[1..])
  {
    assert z == [z[0]] + z[1..];
  }

  lemma {:induction false} MergedPermutes(x: seq<uint64>, y: seq<uint64>, rev: bool)
    ensures multiset(Merged(x, y, rev)) == multiset(x) + multiset(y)
    decreases |x| + |y|
  {
    if x != [] && (y == [] || Lt(x[0], y[0], rev)) {
      MergedPermutes(x[1..], y, rev);
      PrependCounts(x[0], Merged(x[1..], y, rev));
      HeadCounts(x);
    } else if x != [] {
      MergedPermutes(x, y[1..], rev);
      PrependCounts(y[0], Merged(x, y[1..], rev));
      HeadCounts(y);
    }
  }

  lemma PrependSorted(h: uint64, z: seq<uint64>, rev: bool)
    requires Sorted(z, rev) && forall e :: e in z ==> Le(h, e, rev)
    ensures Sorted([h] + z, rev)
  {
    forall i, j | 0 <= i < j < |z| + 1
      ensures Le(([h] + z)[i], ([h] + z)[j], rev)
    {
      assert ([h] + z)[j] == z[j - 1] && z[j - 1] in z;
    }
  }

  lemma {:induction false} MergedSorted(x: seq<uint64>, y: seq<uint64>, rev: bool)
    requires Sorted(x, rev) && Sorted(y, rev)
    ensures Sorted(Merged(x, y, rev), rev)
    decreases |x| + |y|
  {
    if x != [] && (y == [] || Lt(x[0], y[0], rev)) {
      MergedSorted(x[1..], y, rev);
      MergedFrom(x[1..], y, x[0], rev);
      PrependSorted(x[0], Merged(x[1..], y, rev), rev);
    } else if x != [] {
      MergedSorted(x, y[1..], rev);
      MergedFrom(x, y[1..], y[0], rev);
      PrependSorted(y[0], Merged(x, y[1..], rev), rev);
    }
  }

  lemma MergedFrom(x: seq<uint64>, y: seq<uint64>, h: uint64, rev: bool)
    requires Sorted(x, rev) && Sorted(y, rev)
    requires (x != [] ==> Le(h, x[0], rev)) && (y != [] ==> Le(h, y[0], rev))
    ensures forall e :: e in Merged(x, y, rev) ==> Le(h, e, rev)
  {
    MergedPermutes(x, y, rev);
    forall e | e in Merged(x, y, rev)
      ensures Le(h, e, rev)
    {
      assert e in multiset(Merged(x, y, rev));
      assert e in multiset(x) || e in multiset(y);
      if e in x {
        HeadIsFirst(x, e, rev);
      } else {
        HeadIsFirst(y, e, rev);
      }
    }
  }

  /** merge: the runs [l, r) and [r, e) of src are merged into dst. */
  method Merge(src: array<uint64>, dst: array<uint64>, l: nat, r: nat, e: nat, rev: bool)
    requires l <= r <= e <= src.Length && e <= dst.Length && src != dst
    modifies dst
    ensures dst[l..e] == Merged(src[l..r], src[r..e], rev)
    ensures forall i :: 0 <= i < l || e <= i < dst.Length ==> dst[i] == old(dst[i])
  {
    hide Merged;
    ghost var s := src[..];
    ghost var goal := Merged(s[l..r], s[r..e], rev);
    var i, j, k := l, r, l;
    while k < e
      invariant l <= i <= r <= j <= e && l <= k <= e && i - l + j - r == k - l
      invariant Merged(s[i..r], s[j..e], rev) == goal[k - l..]
      invariant forall m :: l <= m < k ==> dst[m] == goal[m - l]
      invariant forall m :: 0 <= m < l || e <= m < dst.Length ==> dst[m] == old(dst[m])
    {
      MergedStep(s[i..r], s[j..e], rev);
      if i < r && (e <= j || Lt(src[i], src[j], rev)) {
        assert s[i..r][1..] == s[i + 1..r];
        dst[k] := src[i];
        i := i + 1;
      } else {
        assert s[j..e][1..] == s[j + 1..e];
        dst[k] := src[j];
        j := j + 1;
      }
      k := k + 1;
    }
  }

  /** The element that comes first, and what is left to merge. */
  lemma MergedStep(x: seq<uint64>, y: seq<uint64>, rev: bool)
    requires x != [] || y != []
    ensures var z := Merged(x, y, rev);
            if x != [] && (y == [] || Lt(x[0], y[0], rev)) then z[0] == x[0] && z[1..] == Merged(x[1..], y, rev)
            else z[0] == y[0] && z[1..] == Merged(x, y[1..], rev)
  {
  }

  // ---------- Passes ----------

  /** From j on, every run of i elements, and the ragged last one, is sorted. */
  ghost predicate Runs(s: seq<uint64>, j: nat, i: nat, rev: bool)
    requires 0 < i
    decreases |s| - j
  {
    j < |s| ==> Sorted(s[j..Min(j + i, |s|)], rev) && Runs(s, j + i, i, rev)
  }

  /** One pass from j on: neighbouring runs of i elements are merged. */
  function Pass(s: seq<uint64>, j: nat, i: nat, rev: bool): (t: seq<uint64>)
    requires 0 < i
    ensures |t| == if j < |s| then |s| - j else 0
    decreases |s| - j
  {
    if |s| <= j then [] else
      var m, e := Min(j + i, |s|), Min(j + 2 * i, |s|);
      Merged(s[j..m], s[m..e], rev) + Pass(s, j + 2 * i, i, rev)
  }

  lemma PassStep(s: seq<uint64>, j: nat, i: nat, rev: bool)
    requires 0 < i && j < |s|
    ensures var m, e := Min(j + i, |s|), Min(j + 2 * i, |s|);
            Pass(s, j, i, rev) == Merged(s[j..m], s[m..e], rev) + Pass(s, j + 2 * i, i, rev)
  {
  }

  lemma JoinCounts(x: seq<uint64>, y: seq<uint64>)
    ensures multiset(x + y) == multiset(x) + multiset(y)
  {
  }

  lemma CutCounts(s: seq<uint64>, j: nat, m: nat, e: nat)
    requires j <= m <= e <= |s|
    ensures multiset(s[j..]) == multiset(s[j..m]) + multiset(s[m..e]) + multiset(s[e..])
  {
    assert s[j..] == s[j..m] + s[m..e] + s[e..];
  }

  lemma {:induction false} PassPermutes(s: seq<uint64>, j: nat, i: nat, rev: bool)
    requires 0 < i && j <= |s|
    ensures multiset(Pass(s, j, i, rev)) == multiset(s[j..])
    decreases |s| - j
  {
    hide Merged, Pass;
    if j < |s| {
      PassStep(s, j, i, rev);
      var m, e := Min(j + i, |s|), Min(j + 2 * i, |s|);
      var rest := Pass(s, j + 2 * i, i, rev);
      JoinCounts(Merged(s[j..m], s[m..e], rev), rest);
      MergedPermutes(s[j..m], s[m..e], rev);
      CutCounts(s, j, m, e);
      if j + 2 * i <= |s| {
        PassPermutes(s, j + 2 * i, i, rev);
      }
    }
  }

  /** A pass doubles the length of the sorted runs. */
  lemma {:induction false} PassDoublesRuns(s: seq<uint64>, t: seq<uint64>, j: nat, i: nat, rev: bool)
    requires 0 < i && Runs(s, j, i, rev) && |t| == |s|
    requires j <= |s| ==> t[j..] == Pass(s, j, i, rev)
    ensures Runs(t, j, 2 * i, rev)
    decreases |s| - j
  {
    hide Merged, Sorted, Pass;
    if j < |s| {
      var m, e := Min(j + i, |s|), Min(j + 2 * i, |s|);
      PassStep(s, j, i, rev);
      RunAt(s, j, i, rev);
      MergedSorted(s[j..m], s[m..e], rev);
      assert t[j..e] == Merged(s[j..m], s[m..e], rev);
      assert t[e..] == Pass(s, j + 2 * i, i, rev);
      PassDoublesRuns(s, t, j + 2 * i, i, rev);
    }
  }

  /** The two runs that are merged at j are sorted, and so are those after them. */
  lemma RunAt(s: seq<uint64>, j: nat, i: nat, rev: bool)
    requires 0 < i && j < |s| && Runs(s, j, i, rev)
    ensures var m, e := Min(j + i, |s|), Min(j + 2 * i, |s|);
            Sorted(s[j..m], rev) && Sorted(s[m..e], rev) && Runs(s, j + 2 * i, i, rev)
  {
    assert Runs(s, j + i, i, rev);
  }

  lemma {:induction false} SingleRuns(s: seq<uint64>, j: nat, rev: bool)
    ensures Runs(s, j, 1, rev)
    decreases |s| - j
  {
    if j < |s| {
      SingleRuns(s, j + 1, rev);
    }
  }

  lemma OneRun(s: seq<uint64>, i: nat, rev: bool)
    requires 0 < i && |s| <= i && Runs(s, 0, i, rev)
    ensures Sorted(s, rev)
  {
    assert s[0..|s|] == s;
  }

  lemma OnePair(s: seq<uint64>, j: nat, i: nat, rev: bool, done: seq<uint64>, goal: seq<uint64>)
    requires 0 < i && j < |s| && done + Pass(s, j, i, rev) == goal
    ensures var m, e := Min(j + i, |s|), Min(j + 2 * i, |s|);
            done + Merged(s[j..m], s[m..e], rev) + Pass(s, j + 2 * i, i, rev) == goal
  {
    hide Merged, Pass;
    PassStep(s, j, i, rev);
    var m, e := Min(j + i, |s|), Min(j + 2 * i, |s|);
    var z, rest := Merged(s[j..m], s[m..e], rev), Pass(s, j + 2 * i, i, rev);
    assert done + z + rest == done + (z + rest);
  }

  /** The two runs at j, the second of them perhaps short or empty. */
  method MergeAt(src: array<uint64>, tmp: array<uint64>, j: nat, i: nat, rev: bool, ghost s: seq<uint64>)
    requires 0 < i && j < src.Length <= tmp.Length && src != tmp && s == src[..]
    modifies tmp
    ensures var m, e := Min(j + i, |s|), Min(j + 2 * i, |s|);
            tmp[..e] == old(tmp[..j]) + Merged(s[j..m], s[m..e], rev)
  {
    hide Merged;
    var m, e := Min(j + i, src.Length), Min(j + 2 * i, src.Length);
    assert src[j..m] == s[j..m] && src[m..e] == s[m..e];
    Merge(src, tmp, j, m, e, rev);
    assert tmp[..e] == tmp[..j] + tmp[j..e];
  }

  /** One pass from src into tmp. */
  method MergePass(src: array<uint64>, tmp: array<uint64>, i: nat, rev: bool)
    requires 0 < i && src.Length <= tmp.Length && src != tmp
    modifies tmp
    ensures tmp[..src.Length] == Pass(src[..], 0, i, rev)
  {
    hide Merged, Pass;
    var cnt := src.Length;
    ghost var s := src[..];
    ghost var goal := Pass(s, 0, i, rev);
    var j := 0;
    ghost var done := tmp[..0];
    assert done + goal == goal;
    while j < cnt
      invariant 0 <= j && done + Pass(s, j, i, rev) == goal && tmp[..Min(j, cnt)] == done
    {
      OnePair(s, j, i, rev, done, goal);
      MergeAt(src, tmp, j, i, rev, s);
      done := tmp[..Min(j + 2 * i, cnt)];
      j := j + 2 * i;
    }
    assert Pass(s, j, i, rev) == [];
    assert done + [] == done;
  }

  /** mergesort64: sorts src in the direction asked for; tmp is scratch. */
  method MergeSort64(src: array<uint64>, tmp: array<uint64>, rev: bool)
    requires src.Length <= tmp.Length && src != tmp
    modifies src, tmp
    ensures IsSortOf(src[..], old(src[..]), rev)
  {
    hide Pass, Runs, Sorted;
    var cnt := src.Length;
    var i := 1;
    SingleRuns(src[..], 0, rev);
    while i < cnt
      invariant 1 <= i && Runs(src[..], 0, i, rev) && multiset(src[..]) == multiset(old(src[..]))
      decreases cnt - i
    {
      ghost var s := src[..];
      MergePass(src, tmp, i, rev);
      ghost var t := tmp[..cnt];
      PassDoublesRuns(s, t, 0, i, rev);
      PassPermutes(s, 0, i, rev);
      var j := 0;
      while j < cnt
        invariant 0 <= j <= cnt && tmp[..cnt] == t
        invariant forall m :: 0 <= m < j ==> src[m] == tmp[m]
      {
        src[j] := tmp[j];
        j := j + 1;
      }
      assert src[..] == t;
      i := 2 * i;
    }
    OneRun(src[..], i, rev);
  }
}
