/** What smoothsort's sift, trinkle and semitrinkle compute, and why they restore a forest. */
module SmoothSpec {
  import opened SortOrder

  // ---------- Shapes ----------

  /** Shape of a binary tree stored in postorder: left subtree, right subtree, root. */
  datatype Tree = Leaf(big: bool) | Node(left: Tree, right: Tree)

  function Count(h: Tree): (n: nat)
    ensures 0 < n
  {
    match h
    case Leaf(_) => 1
    case Node(left, right) => Count(left) + Count(right) + 1
  }

  /** Trees side by side from index 0; the last one is the rightmost. */
  datatype Trees = Nil | Snoc(init: Trees, last: Tree)

  function Size(os: Trees): (n: nat)
    ensures os.Snoc? ==> 0 < n
  {
    match os
    case Nil => 0
    case Snoc(init, last) => Size(init) + Count(last)
  }

  /** Index of the rightmost root. */
  function Root(os: Trees): (r: nat)
    requires os.Snoc?
  {
    Size(os) - 1
  }

  // ---------- Heap-ordered trees ----------

  /** The elements of the tree rooted at r lie inside s. */
  predicate Fits(s: seq<uint64>, r: int, h: Tree) {
    Count(h) - 1 <= r < |s|
  }

  predicate Heap(s: seq<uint64>, r: int, h: Tree, rev: bool)
    requires Fits(s, r, h)
    decreases h
  {
    NearHeap(s, r, h, rev) && ChildrenBefore(s, r, h, s[r], rev)
  }

  /** The roots of both subtrees do not come after x. */
  predicate ChildrenBefore(s: seq<uint64>, r: int, h: Tree, x: uint64, rev: bool)
    requires Fits(s, r, h)
  {
    h.Node? ==> Le(s[r - 1], x, rev) && Le(s[r - 1 - Count(h.right)], x, rev)
  }

  /** Both subtrees are heap-ordered; the root is arbitrary. */
  predicate NearHeap(s: seq<uint64>, r: int, h: Tree, rev: bool)
    requires Fits(s, r, h)
    decreases h, 0
  {
    h.Node? ==> Heap(s, r - 1, h.right, rev) && Heap(s, r - 1 - Count(h.right), h.left, rev)
  }

  lemma {:induction false} HeapFrame(s: seq<uint64>, t: seq<uint64>, r: int, h: Tree, rev: bool)
    requires Fits(s, r, h) && Fits(t, r, h)
    requires forall i :: r - Count(h) < i <= r ==> s[i] == t[i]
    ensures Heap(s, r, h, rev) == Heap(t, r, h, rev)
    decreases h
  {
    if h.Node? {
      HeapFrame(s, t, r - 1, h.right, rev);
      HeapFrame(s, t, r - 1 - Count(h.right), h.left, rev);
    }
  }

  lemma {:induction false} NearHeapFrame(s: seq<uint64>, t: seq<uint64>, r: int, h: Tree, rev: bool)
    requires Fits(s, r, h) && Fits(t, r, h)
    requires forall i :: r - Count(h) < i < r ==> s[i] == t[i]
    ensures NearHeap(s, r, h, rev) == NearHeap(t, r, h, rev)
  {
    if h.Node? {
      HeapFrame(s, t, r - 1, h.right, rev);
      HeapFrame(s, t, r - 1 - Count(h.right), h.left, rev);
    }
  }

  /** A root that neither subtree's root comes after makes a heap. */
  lemma NewRoot(s: seq<uint64>, t: seq<uint64>, r: int, h: Tree, rev: bool)
    requires Fits(s, r, h) && Fits(t, r, h) && NearHeap(s, r, h, rev)
    requires forall i :: r - Count(h) < i < r ==> s[i] == t[i]
    requires ChildrenBefore(s, r, h, t[r], rev)
    ensures Heap(t, r, h, rev)
  {
    NearHeapFrame(s, t, r, h, rev);
  }

  lemma {:induction false} HeapRootIsLast(s: seq<uint64>, r: int, h: Tree, rev: bool)
    requires Fits(s, r, h) && Heap(s, r, h, rev)
    ensures forall i :: r - Count(h) < i <= r ==> Le(s[i], s[r], rev)
    decreases h
  {
    if h.Node? {
      HeapRootIsLast(s, r - 1, h.right, rev);
      HeapRootIsLast(s, r - 1 - Count(h.right), h.left, rev);
    }
  }

  // ---------- sift ----------

  /** Whether the right subtree's root is the one to move up; ties go right. */
  predicate GoRight(s: seq<uint64>, r: int, h: Tree, rev: bool)
    requires Fits(s, r, h) && h.Node?
  {
    Le(s[r - 1 - Count(h.right)], s[r - 1], rev)
  }

  /** The subtree root that may move up, ... */
  function ChildRoot(s: seq<uint64>, r: int, h: Tree, rev: bool): (c: int)
    requires Fits(s, r, h) && h.Node?
    ensures Count(Child(s, r, h, rev)) - 1 <= c < r
    ensures r - Count(h) <= c - Count(Child(s, r, h, rev))
  {
    if GoRight(s, r, h, rev) then r - 1 else r - 1 - Count(h.right)
  }

  /** ... and that subtree. */
  function Child(s: seq<uint64>, r: int, h: Tree, rev: bool): (j: Tree)
    requires Fits(s, r, h) && h.Node?
    ensures j < h
  {
    if GoRight(s, r, h, rev) then h.right else h.left
  }

  /** Sinks the root of the tree to its place. */
  function Sifted(s: seq<uint64>, r: int, h: Tree, rev: bool): (t: seq<uint64>)
    requires Fits(s, r, h)
    ensures |t| == |s|
    decreases h
  {
    if h.Leaf? || Lt(s[ChildRoot(s, r, h, rev)], s[r], rev) then s
    else SiftedBelow(s, r, h, rev)
  }

  /** Promotes the chosen child and goes on below it. */
  function SiftedBelow(s: seq<uint64>, r: int, h: Tree, rev: bool): (t: seq<uint64>)
    requires Fits(s, r, h) && h.Node?
    ensures |t| == |s|
    decreases h, 0
  {
    var c := ChildRoot(s, r, h, rev);
    Sifted(Swap(s, r, c), c, Child(s, r, h, rev), rev)
  }

  lemma {:induction false} SiftPermutes(s: seq<uint64>, r: int, h: Tree, rev: bool)
    requires Fits(s, r, h)
    ensures multiset(Sifted(s, r, h, rev)) == multiset(s)
    ensures h.Node? ==> multiset(SiftedBelow(s, r, h, rev)) == multiset(s)
    decreases h
  {
    if h.Node? {
      var c := ChildRoot(s, r, h, rev);
      SwapPermutes(s, r, c);
      SiftPermutes(Swap(s, r, c), c, Child(s, r, h, rev), rev);
    }
  }

  /** sift stays inside its tree. */
  lemma {:induction false} SiftFrame(s: seq<uint64>, r: int, h: Tree, rev: bool)
    requires Fits(s, r, h)
    ensures forall i :: 0 <= i < |s| && !(r - Count(h) < i <= r) ==> Sifted(s, r, h, rev)[i] == s[i]
    decreases h
  {
    if h.Node? {
      SiftBelowFrame(s, r, h, rev);
    }
  }

  lemma {:induction false} SiftBelowFrame(s: seq<uint64>, r: int, h: Tree, rev: bool)
    requires Fits(s, r, h) && h.Node?
    ensures var t := SiftedBelow(s, r, h, rev);
            t[r] == s[ChildRoot(s, r, h, rev)] &&
            forall i :: 0 <= i < |s| && !(r - Count(h) < i <= r) ==> t[i] == s[i]
    decreases h, 0
  {
    var c := ChildRoot(s, r, h, rev);
    SiftFrame(Swap(s, r, c), c, Child(s, r, h, rev), rev);
  }

  /** A bound on elements around the tree stays a bound. */
  lemma {:induction false} SiftBound(s: seq<uint64>, r: int, h: Tree, rev: bool, lo: int, hi: int, x: uint64)
    requires Fits(s, r, h) && 0 <= lo <= r - Count(h) + 1 && r < hi <= |s|
    requires forall i :: lo <= i < hi ==> Le(s[i], x, rev)
    ensures forall i :: lo <= i < hi ==> Le(Sifted(s, r, h, rev)[i], x, rev)
    ensures h.Node? ==> forall i :: lo <= i < hi ==> Le(SiftedBelow(s, r, h, rev)[i], x, rev)
    decreases h
  {
    if h.Leaf? {
      assert Sifted(s, r, h, rev) == s;
    } else {
      var c := ChildRoot(s, r, h, rev);
      SiftBound(Swap(s, r, c), c, Child(s, r, h, rev), rev, lo, hi, x);
      assert SiftedBelow(s, r, h, rev) == Sifted(Swap(s, r, c), c, Child(s, r, h, rev), rev);
    }
  }

  lemma {:induction false} SiftRestoresHeap(s: seq<uint64>, r: int, h: Tree, rev: bool)
    requires Fits(s, r, h) && NearHeap(s, r, h, rev)
    ensures Heap(Sifted(s, r, h, rev), r, h, rev)
    decreases h
  {
    if h.Node? {
      if !Lt(s[ChildRoot(s, r, h, rev)], s[r], rev) {
        SiftBelowRestoresHeap(s, r, h, rev);
      }
    }
  }

  lemma {:induction false} SiftBelowRestoresHeap(s: seq<uint64>, r: int, h: Tree, rev: bool)
    requires Fits(s, r, h) && h.Node? && NearHeap(s, r, h, rev)
    requires Le(s[r], s[ChildRoot(s, r, h, rev)], rev)
    ensures Heap(SiftedBelow(s, r, h, rev), r, h, rev)
    decreases h, 1
  {
    SiftBelowChild(s, r, h, rev);
    SiftBelowFrame(s, r, h, rev);
    var t := SiftedBelow(s, r, h, rev);
    if GoRight(s, r, h, rev) {
      HeapFrame(s, t, r - 1 - Count(h.right), h.left, rev);
    } else {
      HeapFrame(s, t, r - 1, h.right, rev);
    }
  }

  /** The chosen subtree ends up a heap below the element promoted from it; its sibling is untouched. */
  lemma {:induction false} SiftBelowChild(s: seq<uint64>, r: int, h: Tree, rev: bool)
    requires Fits(s, r, h) && h.Node? && NearHeap(s, r, h, rev)
    requires Le(s[r], s[ChildRoot(s, r, h, rev)], rev)
    ensures var c, j, t := ChildRoot(s, r, h, rev), Child(s, r, h, rev), SiftedBelow(s, r, h, rev);
            Heap(t, c, j, rev) && Le(t[c], t[r], rev) &&
            forall i :: r - Count(h) < i < r && !(c - Count(j) < i <= c) ==> t[i] == s[i]
    decreases h, 0
  {
    var c, j := ChildRoot(s, r, h, rev), Child(s, r, h, rev);
    var w := Swap(s, r, c);
    NearHeapFrame(s, w, c, j, rev);
    SiftRestoresHeap(w, c, j, rev);
    SiftFrame(w, c, j, rev);
    HeapRootIsLast(s, c, j, rev);
    SiftBound(w, c, j, rev, c - Count(j) + 1, c + 1, s[c]);
  }

  // ---------- Forests with ordered roots ----------

  /** Heap-ordered trees side by side from index 0, their roots in order. */
  predicate Forest(s: seq<uint64>, os: Trees, rev: bool)
    requires Size(os) <= |s|
  {
    os.Nil? ||
    (Forest(s, os.init, rev) && Heap(s, Root(os), os.last, rev) &&
     (os.init.Snoc? ==> Le(s[Root(os.init)], s[Root(os)], rev)))
  }

  lemma {:induction false} ForestFrame(s: seq<uint64>, t: seq<uint64>, os: Trees, rev: bool)
    requires Size(os) <= |s| && Size(os) <= |t|
    requires forall i :: 0 <= i < Size(os) ==> s[i] == t[i]
    ensures Forest(s, os, rev) == Forest(t, os, rev)
  {
    if os.Snoc? {
      ForestFrame(s, t, os.init, rev);
      HeapFrame(s, t, Root(os), os.last, rev);
    }
  }

  lemma {:induction false} LastRootIsLast(s: seq<uint64>, os: Trees, rev: bool)
    requires os.Snoc? && Size(os) <= |s| && Forest(s, os, rev)
    ensures forall i :: 0 <= i < Size(os) ==> Le(s[i], s[Root(os)], rev)
  {
    HeapRootIsLast(s, Root(os), os.last, rev);
    if os.init.Snoc? {
      LastRootIsLast(s, os.init, rev);
    }
  }

  // ---------- trinkle ----------

  /** trinkle stops moving left here: the last root is where it belongs among the roots. */
  predicate StopsHere(s: seq<uint64>, os: Trees, rev: bool)
    requires os.Snoc? && Size(os) <= |s|
  {
    os.init.Nil? || Lt(s[Root(os.init)], s[Root(os)], rev)
  }

  /** The previous root is after both children, so it may take the place of the last root. */
  predicate MovesLeft(s: seq<uint64>, os: Trees, rev: bool)
    requires os.Snoc? && os.init.Snoc? && Size(os) <= |s|
  {
    os.last.Leaf? || Lt(s[ChildRoot(s, Root(os), os.last, rev)], s[Root(os.init)], rev)
  }

  /** Moves the last root left over the roots, then down, until the forest is restored. */
  function Trinkled(s: seq<uint64>, os: Trees, rev: bool): (t: seq<uint64>)
    requires os.Snoc? && Size(os) <= |s|
    ensures |t| == |s|
    decreases os
  {
    if StopsHere(s, os, rev) then Sifted(s, Root(os), os.last, rev)
    else if MovesLeft(s, os, rev) then Trinkled(Swap(s, Root(os), Root(os.init)), os.init, rev)
    else SiftedBelow(s, Root(os), os.last, rev)
  }

  lemma {:induction false} TrinklePermutes(s: seq<uint64>, os: Trees, rev: bool)
    requires os.Snoc? && Size(os) <= |s|
    ensures multiset(Trinkled(s, os, rev)) == multiset(s)
    decreases os
  {
    SiftPermutes(s, Root(os), os.last, rev);
    if os.init.Snoc? {
      SwapPermutes(s, Root(os), Root(os.init));
      TrinklePermutes(Swap(s, Root(os), Root(os.init)), os.init, rev);
    }
  }

  /** trinkle touches nothing to the right of the forest. */
  lemma {:induction false} TrinkleFrame(s: seq<uint64>, os: Trees, rev: bool)
    requires os.Snoc? && Size(os) <= |s|
    ensures forall i :: Size(os) <= i < |s| ==> Trinkled(s, os, rev)[i] == s[i]
    decreases os
  {
    if StopsHere(s, os, rev) {
      SiftFrame(s, Root(os), os.last, rev);
    } else if MovesLeft(s, os, rev) {
      TrinkleFrame(Swap(s, Root(os), Root(os.init)), os.init, rev);
    } else {
      SiftBelowFrame(s, Root(os), os.last, rev);
    }
  }

  lemma {:induction false} TrinkleBound(s: seq<uint64>, os: Trees, rev: bool, x: uint64)
    requires os.Snoc? && Size(os) <= |s|
    requires forall i :: 0 <= i < Size(os) ==> Le(s[i], x, rev)
    ensures forall i :: 0 <= i < Size(os) ==> Le(Trinkled(s, os, rev)[i], x, rev)
    decreases os
  {
    if !StopsHere(s, os, rev) && MovesLeft(s, os, rev) {
      var w := Swap(s, Root(os), Root(os.init));
      TrinkleBound(w, os.init, rev, x);
      TrinkleFrame(w, os.init, rev);
    } else {
      SiftBound(s, Root(os), os.last, rev, 0, Size(os), x);
    }
  }

  /** All trees but the last form a forest and the last has an arbitrary root. */
  predicate NearForest(s: seq<uint64>, os: Trees, rev: bool)
    requires os.Snoc? && Size(os) <= |s|
  {
    Forest(s, os.init, rev) && NearHeap(s, Root(os), os.last, rev)
  }

  /** Replacing the last root keeps the rest of the forest. */
  lemma NearForestFrame(s: seq<uint64>, t: seq<uint64>, os: Trees, rev: bool)
    requires os.Snoc? && Size(os) <= |s| && Size(os) <= |t|
    requires forall i :: 0 <= i < Root(os) ==> s[i] == t[i]
    ensures NearForest(s, os, rev) == NearForest(t, os, rev)
  {
    ForestFrame(s, t, os.init, rev);
    NearHeapFrame(s, t, Root(os), os.last, rev);
  }

  /** Given a forest whose last root is arbitrary, trinkle restores every heap and the order of all roots. */
  lemma {:induction false} TrinkleRestoresForest(s: seq<uint64>, os: Trees, rev: bool)
    requires os.Snoc? && Size(os) <= |s| && NearForest(s, os, rev)
    ensures Forest(Trinkled(s, os, rev), os, rev)
    decreases os
  {
    if StopsHere(s, os, rev) {
      TrinkleStops(s, os, rev);
    } else if MovesLeft(s, os, rev) {
      var w := Swap(s, Root(os), Root(os.init));
      NearForestFrame(s, w, os.init, rev);
      TrinkleRestoresForest(w, os.init, rev);
      ExchangeRoots(s, os, rev);
    } else {
      TrinkleSinks(s, os, rev);
    }
  }

  lemma TrinkleStops(s: seq<uint64>, os: Trees, rev: bool)
    requires os.Snoc? && Size(os) <= |s| && NearForest(s, os, rev) && StopsHere(s, os, rev)
    ensures Forest(Sifted(s, Root(os), os.last, rev), os, rev)
  {
    var t := Sifted(s, Root(os), os.last, rev);
    SiftRestoresHeap(s, Root(os), os.last, rev);
    SiftFrame(s, Root(os), os.last, rev);
    ForestFrame(s, t, os.init, rev);
    if os.last.Node? {
      SiftBelowFrame(s, Root(os), os.last, rev);
    }
  }

  lemma TrinkleSinks(s: seq<uint64>, os: Trees, rev: bool)
    requires os.Snoc? && os.init.Snoc? && Size(os) <= |s| && NearForest(s, os, rev)
    requires !StopsHere(s, os, rev) && !MovesLeft(s, os, rev)
    ensures Forest(SiftedBelow(s, Root(os), os.last, rev), os, rev)
  {
    var t := SiftedBelow(s, Root(os), os.last, rev);
    SiftBelowRestoresHeap(s, Root(os), os.last, rev);
    SiftBelowFrame(s, Root(os), os.last, rev);
    ForestFrame(s, t, os.init, rev);
  }

  /** A forest takes in a last tree whose new root is after its children and after the previous root. */
  lemma JoinLast(s: seq<uint64>, t: seq<uint64>, os: Trees, rev: bool)
    requires os.Snoc? && Size(os) <= |s| && Size(os) <= |t|
    requires Forest(t, os.init, rev) && NearHeap(s, Root(os), os.last, rev)
    requires forall i :: Size(os.init) <= i < Root(os) ==> s[i] == t[i]
    requires ChildrenBefore(s, Root(os), os.last, t[Root(os)], rev)
    requires os.init.Snoc? ==> Le(t[Root(os.init)], t[Root(os)], rev)
    ensures Forest(t, os, rev)
  {
    NewRoot(s, t, Root(os), os.last, rev);
  }

  /** Mending a forest whose last root was replaced by an earlier element leaves all below the old root. */
  lemma MendedBelowOldRoot(s: seq<uint64>, w: seq<uint64>, os: Trees, rev: bool)
    requires os.Snoc? && Size(os) <= |s| && Size(os) <= |w| && Forest(s, os, rev)
    requires forall i :: 0 <= i < Root(os) ==> s[i] == w[i]
    requires Le(w[Root(os)], s[Root(os)], rev)
    ensures Le(Trinkled(w, os, rev)[Root(os)], s[Root(os)], rev)
  {
    LastRootIsLast(s, os, rev);
    TrinkleBound(w, os, rev, s[Root(os)]);
  }

  /** Exchanging the last two roots and mending the trees on the left. */
  lemma ExchangeRoots(s: seq<uint64>, os: Trees, rev: bool)
    requires os.Snoc? && os.init.Snoc? && Size(os) <= |s| && NearForest(s, os, rev)
    requires Le(s[Root(os)], s[Root(os.init)], rev)
    requires ChildrenBefore(s, Root(os), os.last, s[Root(os.init)], rev)
    requires Forest(Trinkled(Swap(s, Root(os), Root(os.init)), os.init, rev), os.init, rev)
    ensures Forest(Trinkled(Swap(s, Root(os), Root(os.init)), os.init, rev), os, rev)
  {
    var w := Swap(s, Root(os), Root(os.init));
    MendedBelowOldRoot(s, w, os.init, rev);
    TrinkleFrame(w, os.init, rev);
    JoinLast(s, Trinkled(w, os.init, rev), os, rev);
  }

  // ---------- semitrinkle ----------

  /** os is followed by a tree rooted at r: exchanges its root with the last root of os when out of order. */
  function SemiTrinkled(s: seq<uint64>, os: Trees, r: int, rev: bool): (t: seq<uint64>)
    requires os.Snoc? && Size(os) <= r < |s|
    ensures |t| == |s|
  {
    if Le(s[r], s[Root(os)], rev) then Trinkled(Swap(s, r, Root(os)), os, rev) else s
  }

  lemma SemiTrinklePermutes(s: seq<uint64>, os: Trees, r: int, rev: bool)
    requires os.Snoc? && Size(os) <= r < |s|
    ensures multiset(SemiTrinkled(s, os, r, rev)) == multiset(s)
  {
    SwapPermutes(s, r, Root(os));
    TrinklePermutes(Swap(s, r, Root(os)), os, rev);
  }

  lemma SemiTrinkleFrame(s: seq<uint64>, os: Trees, r: int, rev: bool)
    requires os.Snoc? && Size(os) <= r < |s|
    ensures forall i :: Size(os) <= i < |s| && i != r ==> SemiTrinkled(s, os, r, rev)[i] == s[i]
  {
    TrinkleFrame(Swap(s, r, Root(os)), os, rev);
  }

  lemma SemiTrinkleBound(s: seq<uint64>, os: Trees, r: int, rev: bool, x: uint64)
    requires os.Snoc? && Size(os) <= r < |s|
    requires forall i :: 0 <= i <= r ==> Le(s[i], x, rev)
    ensures forall i :: 0 <= i <= r ==> Le(SemiTrinkled(s, os, r, rev)[i], x, rev)
  {
    TrinkleBound(Swap(s, r, Root(os)), os, rev, x);
    TrinkleFrame(Swap(s, r, Root(os)), os, rev);
  }

  /** semitrinkle takes a heap-ordered tree into the forest on its left. */
  lemma SemiTrinkleExtendsForest(s: seq<uint64>, os: Trees, rev: bool)
    requires os.Snoc? && os.init.Snoc? && Size(os) <= |s|
    requires Forest(s, os.init, rev) && Heap(s, Root(os), os.last, rev)
    ensures Forest(SemiTrinkled(s, os.init, Root(os), rev), os, rev)
  {
    if Le(s[Root(os)], s[Root(os.init)], rev) {
      var w := Swap(s, Root(os), Root(os.init));
      NearForestFrame(s, w, os.init, rev);
      TrinkleRestoresForest(w, os.init, rev);
      assert NearForest(s, os, rev);
      ExchangeRoots(s, os, rev);
    }
  }
}
