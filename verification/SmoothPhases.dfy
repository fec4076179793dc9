/** What smoothsort keeps while it builds its forest and while it takes it apart again. */
module SmoothPhases {
  import opened SortOrder
  import opened SmoothSpec
  import opened Leonardo

  // ---------- Building ----------

  /** Too few of the n elements remain after the trees for the last tree to become part of a larger one. */
  predicate Final(os: Trees, n: int)
    requires os.Snoc?
  {
    n <= Size(os) + Below(os.last)
  }

  /** Every tree is a heap; up to the last final tree the roots are in order. */
  predicate Partial(s: seq<uint64>, os: Trees, rev: bool)
    requires Size(os) <= |s|
  {
    os.Nil? ||
    (Partial(s, os.init, rev) && Heap(s, Root(os), os.last, rev) && (Final(os, |s|) ==> Forest(s, os, rev)))
  }

  lemma {:induction false} PartialFrame(s: seq<uint64>, t: seq<uint64>, os: Trees, rev: bool)
    requires Size(os) <= |s| == |t|
    requires forall i :: 0 <= i < Size(os) ==> s[i] == t[i]
    ensures Partial(s, os, rev) == Partial(t, os, rev)
    decreases os
  {
    if os.Snoc? {
      PartialFrame(s, t, os.init, rev);
      HeapFrame(s, t, Root(os), os.last, rev);
      ForestFrame(s, t, os, rev);
    }
  }

  lemma {:induction false} ForestIsPartial(s: seq<uint64>, os: Trees, rev: bool)
    requires Size(os) <= |s| && Forest(s, os, rev)
    ensures Partial(s, os, rev)
    decreases os
  {
    if os.Snoc? {
      ForestIsPartial(s, os.init, rev);
    }
  }

  lemma BelowIsSmaller(h: Tree)
    requires Leo(h)
    ensures Below(h) <= Count(h)
  {
  }

  /** The last tree that p denotes is no smaller than the one bit 0 stands for. */
  lemma {:induction false} LastIsLarge(p: nat, h: Tree)
    requires 0 < p && Leo(h)
    ensures Leo(Decode(p, h).last) && Below(h) <= Below(Decode(p, h).last)
    decreases p
  {
    if p % 2 == 0 {
      UpIsNext(h);
      BelowIsSmaller(h);
      LastIsLarge(p / 2, Next(h));
    }
  }

  /** A final tree at least two orders below the one before it: that one is final too. */
  lemma FinalBefore(p: nat, h: Tree, n: int)
    requires p % 4 == 1 && Leo(h) && Final(Decode(p, h), n)
    ensures Decode(p, h) == Snoc(Decode(p, h).init, h)
    ensures Decode(p, h).init.Snoc? ==> Final(Decode(p, h).init, n)
  {
    var h1, k := Next(h), p / 4;
    UpIsNext(h);
    UpIsNext(h1);
    LowBits(k, 0, 1);
    assert p == 4 * k + 1;
    assert Decode(p, h) == Snoc(Decode(2 * k, h1), h);
    if k != 0 {
      assert Decode(2 * k, h1) == Decode(k, Next(h1));
      LastIsLarge(k, Next(h1));
    }
  }

  /** Once every element is in a tree, all but the last tree are final. */
  lemma AllFinal(p: nat, h: Tree, n: int)
    requires p % 2 == 1 && Leo(h) && Size(Decode(p, h)) == n
    ensures Decode(p, h) == Snoc(Decode(p, h).init, h)
    ensures Decode(p, h).init.Snoc? ==> Final(Decode(p, h).init, n)
  {
    UpIsNext(h);
    var init := Decode(p / 2, Next(h));
    assert Decode(p, h) == Snoc(init, h);
    if p / 2 != 0 {
      LastIsLarge(p / 2, Next(h));
    }
  }

  /** p ends in 011: the two smallest trees have adjacent orders, and (p + 1) / 4 has the next order instead. */
  lemma AbsorbWord(p: nat, h: Tree)
    requires p % 8 == 3 && Leo(h)
    ensures var h1, h2 := Next(h), Next(Next(h));
            var rest := Decode(p / 8, Next(h2));
            Leo(h2) && h2 == Node(h1, h) && Count(h2) == Count(h1) + Count(h) + 1 && Below(h2) == Count(h1) &&
            Decode(p, h) == Snoc(Snoc(rest, h1), h) && Decode((p + 1) / 4, h2) == Snoc(rest, h2)
  {
    var h1, h2, j := Next(h), Next(Next(h)), p / 8;
    UpIsNext(h);
    UpIsNext(h1);
    LowBits(2 * j, 1, 1);
    LowBits(j, 0, 1);
    LowBits(2 * j + 1, 0, 0);
    LowBits(j, 1, 1);
    assert p == 8 * j + 3;
    assert Decode(2 * j, h2) == Decode(j, Next(h2));
    assert Decode(4 * j + 1, h1) == Snoc(Decode(2 * j, h2), h1);
    assert Decode(2 * j + 1, h2) == Snoc(Decode(j, Next(h2)), h2);
  }

  /** The two smallest trees become the subtrees of a new root. */
  lemma Absorb(s: seq<uint64>, os: Trees, rev: bool)
    requires os.Snoc? && os.init.Snoc? && Size(os) < |s|
    requires Partial(s, os.init, rev) && NearHeap(s, Root(os), os.last, rev)
    ensures var t := Sifted(s, Root(os), os.last, rev);
            Partial(t, os.init.init, rev) && NearHeap(t, Size(os), Node(os.init.last, os.last), rev) &&
            multiset(t) == multiset(s)
  {
    hide Forest, Final, Sifted;
    var t := Sifted(s, Root(os), os.last, rev);
    SiftRestoresHeap(s, Root(os), os.last, rev);
    SiftFrame(s, Root(os), os.last, rev);
    SiftPermutes(s, Root(os), os.last, rev);
    PartialFrame(s, t, os.init.init, rev);
    HeapFrame(s, t, Root(os.init), os.init.last, rev);
  }

  lemma AbsorbShape(p: nat, h: Tree)
    requires p % 8 == 3 && BuildShape(p, h)
    ensures BuildShape((p + 1) / 4, Next(Next(h)))
  {
    var j := p / 8;
    LowBits(2 * j, 1, 1);
    LowBits(j, 0, 1);
    LowBits(2 * j + 1, 0, 0);
    LowBits(j, 1, 1);
    assert p == 8 * j + 3;
    assert NoAdjacent(4 * j + 1) && NoAdjacent(2 * j) && NoAdjacent(j);
  }

  /** A tree that will be absorbed is only sifted. */
  lemma LeaveForLater(s: seq<uint64>, os: Trees, rev: bool)
    requires os.Snoc? && Size(os) <= |s| && !Final(os, |s|)
    requires Partial(s, os.init, rev) && NearHeap(s, Root(os), os.last, rev)
    ensures Partial(Sifted(s, Root(os), os.last, rev), os, rev)
  {
    SiftRestoresHeap(s, Root(os), os.last, rev);
    SiftFrame(s, Root(os), os.last, rev);
    PartialFrame(s, Sifted(s, Root(os), os.last, rev), os.init, rev);
  }

  /** A final tree is put in its place among the roots, all of which are final. */
  lemma PutInPlace(s: seq<uint64>, os: Trees, rev: bool)
    requires os.Snoc? && Size(os) <= |s| && (os.init.Snoc? ==> Final(os.init, |s|))
    requires Partial(s, os.init, rev) && NearHeap(s, Root(os), os.last, rev)
    ensures Forest(Trinkled(s, os, rev), os, rev) && Partial(Trinkled(s, os, rev), os, rev)
  {
    TrinkleRestoresForest(s, os, rev);
    ForestIsPartial(Trinkled(s, os, rev), os, rev);
  }

  /**
   * Build phase: the first elements are in the trees that p and h denote, the last one rooted at r, the
   * place of whose root alone is still open.
   */
  predicate Building(s: seq<uint64>, p: nat, h: Tree, r: int, rev: bool) {
    BuildShape(p, h) && Leo(h) &&
    var os := Decode(p, h);
    os.Snoc? && os.last == h && Size(os) <= |s| && r == Root(os) &&
    Partial(s, os.init, rev) && NearHeap(s, r, h, rev)
  }

  /** The first element alone is a tree of order 1. */
  lemma StartsBuilding(s: seq<uint64>, h: Tree, rev: bool)
    requires s != [] && h.Leaf? && h.big
    ensures Building(s, 1, h, 0, rev)
  {
    assert Decode(1, h) == Snoc(Decode(0, Next(h)), h);
  }

  /** One of the two cases of the build loop always applies. */
  lemma TwoCases(p: nat, h: Tree)
    requires BuildShape(p, h)
    ensures p % 8 == 3 || p % 4 == 1
  {
    var j, x := p / 8, p % 8;
    assert p == 8 * j + x;
    if x == 7 {
      LowBits(2 * j + 1, 1, 1);
      LowBits(j, 1, 1);
    } else if x == 1 || x == 5 {
      LowBits(2 * j + x / 4, 0, 1);
    }
  }

  lemma Merged(s: seq<uint64>, p: nat, h: Tree, r: int, rev: bool)
    requires p % 8 == 3 && Building(s, p, h, r, rev) && r + 1 < |s|
    ensures var t, h2 := Sifted(s, r, h, rev), Next(Next(h));
            Building(t, (p + 1) / 4, h2, r + 1, rev) && multiset(t) == multiset(s) &&
            Count(h2) == Count(h) + (Count(h) + Below(h) + 1) + 1 && Below(h2) == Count(h) + Below(h) + 1
  {
    UpIsNext(h);
    AbsorbWord(p, h);
    AbsorbShape(p, h);
    Absorb(s, Decode(p, h), rev);
  }

  /** The last tree is in order: the element after it may become a tree of its own. */
  predicate Settled(s: seq<uint64>, p: nat, h: Tree, r: int, rev: bool) {
    BuildShape(p, h) && p % 4 == 1 && Leo(h) &&
    var os := Decode(p, h);
    os.Snoc? && Size(os) <= |s| && r == Root(os) && Partial(s, os, rev)
  }

  lemma SettledForest(s: seq<uint64>, p: nat, h: Tree, r: int, rev: bool)
    requires Settled(s, p, h, r, rev)
    ensures BuildShape(p, h) && p % 4 == 1 && Leo(h)
    ensures Size(Decode(p, h)) == r + 1 <= |s| && Partial(s, Decode(p, h), rev)
  {
  }

  lemma SiftSettles(s: seq<uint64>, p: nat, h: Tree, r: int, rev: bool)
    requires p % 4 == 1 && Building(s, p, h, r, rev) && r + 1 + Below(h) < |s|
    ensures var t := Sifted(s, r, h, rev);
            Settled(t, p, h, r, rev) && multiset(t) == multiset(s)
  {
    LeaveForLater(s, Decode(p, h), rev);
    SiftPermutes(s, r, h, rev);
  }

  lemma TrinkleSettles(s: seq<uint64>, p: nat, h: Tree, r: int, rev: bool)
    requires p % 4 == 1 && Building(s, p, h, r, rev) && |s| <= r + 1 + Below(h)
    ensures var t := Trinkled(s, Decode(p, h), rev);
            Settled(t, p, h, r, rev) && multiset(t) == multiset(s)
  {
    FinalBefore(p, h, |s|);
    PutInPlace(s, Decode(p, h), rev);
    TrinklePermutes(s, Decode(p, h), rev);
  }

  /** The last trinkle completes the forest. */
  lemma TrinkleCompletes(s: seq<uint64>, p: nat, h: Tree, rev: bool)
    requires Building(s, p, h, |s| - 1, rev)
    ensures var t := Trinkled(s, Decode(p, h), rev);
            Sorting(t, p, h, |s| - 1, rev) && multiset(t) == multiset(s)
  {
    AllFinal(p, h, |s|);
    PutInPlace(s, Decode(p, h), rev);
    TrinklePermutes(s, Decode(p, h), rev);
  }

  /** The word and tree on the way down to order 1 or 0; bit 0 is clear and the same trees are denoted. */
  predicate Descending(p: nat, h: Tree, os: Trees) {
    0 < p && p % 2 == 0 && Leo(h) && Decode(p, h) == os && NoAdjacent(p / 2) && (Smallest(h) ==> p % 4 == 2)
  }

  lemma DescendFirst(p: nat, h: Tree)
    requires p % 4 == 1 && BuildShape(p, h) && Leo(h)
    ensures !Smallest(h) && Descending(2 * p, Prev(h), Decode(p, h))
  {
    DownIsPrev(h);
    DecodeDouble(p, h);
    var d := 2 * p;
    assert d % 4 == 2 && d / 2 == p && NoAdjacent(p);
  }

  lemma DescendNext(p: nat, h: Tree, os: Trees)
    requires Descending(p, h, os) && h.Node?
    ensures Descending(2 * p, Prev(h), os)
  {
    DownIsPrev(h);
    DecodeDouble(p, h);
    var d := 2 * p;
    assert d / 2 == p && NoAdjacent(p);
  }

  lemma SetBit0(p: nat, h: Tree, os: Trees)
    requires Descending(p, h, os) && h.Leaf?
    ensures BuildShape(p + 1, h) && Decode(p + 1, h) == Snoc(os, h)
  {
    var k, y := p / 4, p / 2 % 2;
    LowBits(k, y, 0);
    LowBits(k, y, 1);
    assert p == 4 * k + 2 * y;
    DecodeOdd(p + 1, h);
  }

  /** Setting bit 0 adds the next element as a tree of its own. */
  lemma NewTree(s: seq<uint64>, os: Trees, p: nat, h: Tree, rev: bool)
    requires Descending(p, h, os) && h.Leaf? && Size(os) < |s| && Partial(s, os, rev)
    ensures Building(s, p + 1, h, Size(os), rev)
  {
    SetBit0(p, h, os);
    hide Descending, BuildShape, Decode;
  }

  // ---------- Taking apart ----------

  /** The last root is where it belongs in the sorted array. */
  lemma LastRootStays(s: seq<uint64>, os: Trees, rev: bool)
    requires os.Snoc? && Size(os) <= |s| && Forest(s, os, rev) && Tail(s, Size(os), rev)
    ensures Tail(s, Root(os), rev)
  {
    LastRootIsLast(s, os, rev);
  }

  lemma SemiTrinkleKeepsTail(s: seq<uint64>, os: Trees, r: int, q: int, rev: bool)
    requires os.Snoc? && Size(os) <= r < q <= |s| && Tail(s, q, rev)
    ensures Tail(SemiTrinkled(s, os, r, rev), q, rev)
    ensures multiset(SemiTrinkled(s, os, r, rev)) == multiset(s)
  {
    var t := SemiTrinkled(s, os, r, rev);
    SemiTrinklePermutes(s, os, r, rev);
    SemiTrinkleFrame(s, os, r, rev);
    forall i, j | 0 <= i < j < |t| && q <= j
      ensures Le(t[i], t[j], rev)
    {
      if i <= r {
        SemiTrinkleBound(s, os, r, rev, s[j]);
      }
    }
  }

  /** The left subtree of the last tree joins the trees before it. */
  function JoinLeft(s: seq<uint64>, os: Trees, rev: bool): (t: seq<uint64>)
    requires os.Snoc? && os.last.Node? && Size(os) <= |s|
    ensures |t| == |s|
  {
    if os.init.Nil? then s else SemiTrinkled(s, os.init, Size(os.init) + Count(os.last.left) - 1, rev)
  }

  /** Then the right subtree joins them. */
  function JoinRight(s: seq<uint64>, os: Trees, rev: bool): (t: seq<uint64>)
    requires os.Snoc? && os.last.Node? && Size(os) <= |s|
    ensures |t| == |s|
  {
    SemiTrinkled(JoinLeft(s, os, rev), Snoc(os.init, os.last.left), Root(os) - 1, rev)
  }

  lemma JoinLeftExtends(s: seq<uint64>, os: Trees, rev: bool)
    requires os.Snoc? && os.last.Node? && Size(os) <= |s| && Forest(s, os, rev) && Tail(s, Size(os), rev)
    ensures var t := JoinLeft(s, os, rev);
            Forest(t, Snoc(os.init, os.last.left), rev) && Heap(t, Root(os) - 1, os.last.right, rev) &&
            Tail(t, Root(os), rev) && multiset(t) == multiset(s)
  {
    hide SemiTrinkled, Tail;
    var os1 := Snoc(os.init, os.last.left);
    LastRootStays(s, os, rev);
    var r := Root(os);
    assert Root(os1) == r - 1 - Count(os.last.right);
    assert NearHeap(s, r, os.last, rev);
    assert Heap(s, r - 1, os.last.right, rev) && Heap(s, Root(os1), os.last.left, rev);
    if os.init.Snoc? {
      SemiTrinkleExtendsForest(s, os1, rev);
      SemiTrinkleFrame(s, os.init, Root(os1), rev);
      SemiTrinkleKeepsTail(s, os.init, Root(os1), Root(os), rev);
      HeapFrame(s, JoinLeft(s, os, rev), Root(os) - 1, os.last.right, rev);
    }
  }

  /** Removing the last root leaves its subtrees as two trees of a forest again. */
  lemma JoinRightExtends(s: seq<uint64>, os: Trees, rev: bool)
    requires os.Snoc? && os.last.Node? && Size(os) <= |s| && Forest(s, os, rev) && Tail(s, Size(os), rev)
    ensures var t, os2 := JoinRight(s, os, rev), Snoc(Snoc(os.init, os.last.left), os.last.right);
            Size(os2) == Root(os) && Forest(t, os2, rev) && Tail(t, Size(os2), rev) &&
            multiset(t) == multiset(s)
  {
    var os2 := Snoc(Snoc(os.init, os.last.left), os.last.right);
    var w := JoinLeft(s, os, rev);
    JoinLeftExtends(s, os, rev);
    SemiTrinkleExtendsForest(w, os2, rev);
    SemiTrinkleKeepsTail(w, os2.init, Root(os2), Root(os), rev);
  }

  /**
   * Sorting phase: the elements up to r form the forest that p and h denote; those after r are in their
   * final places.
   */
  ghost predicate Sorting(s: seq<uint64>, p: nat, h: Tree, r: int, rev: bool) {
    p % 2 == 1 && Leo(h) &&
    var os := Decode(p, h);
    Size(os) <= |s| && r == Root(os) && Forest(s, os, rev) && Tail(s, r + 1, rev)
  }

  lemma LastIsH(s: seq<uint64>, p: nat, h: Tree, r: int, rev: bool)
    requires Sorting(s, p, h, r, rev) && 2 < Count(h)
    ensures p % 2 == 1 && Leo(h) && h.Node?
    ensures var os := Decode(p, h); os.Snoc? && os.last == h && r == Root(os) && Size(os) <= |s|
  {
  }

  /** With a second element there is a second tree to go on with. */
  lemma LeafIsNotAlone(s: seq<uint64>, p: nat, h: Tree, r: int, rev: bool)
    requires Sorting(s, p, h, r, rev) && Count(h) == 1 && 1 <= r
    ensures h.Leaf? && 1 < p
  {
    DecodeOdd(p, h);
    var init := Decode(p - 1, h);
    assert init.Nil? ==> Size(Snoc(init, h)) == 1;
  }

  /** A single last element is in its final place: the trees before it remain. */
  lemma LeafRemoved(s: seq<uint64>, p: nat, h: Tree, r: int, p2: nat, h2: Tree, rev: bool)
    requires Sorting(s, p, h, r, rev) && h.Leaf? && 1 <= r
    requires Leo(h2) && p2 % 2 == 1 && Decode(p2, h2) == Decode(p - 1, h)
    ensures Sorting(s, p2, h2, r - 1, rev)
  {
    var os := Decode(p, h);
    DecodeOdd(p, h);
    LastRootStays(s, os, rev);
  }

  /** Shifting in a 1 adds a tree of the next smaller order. */
  lemma Push(p: nat, h: Tree)
    requires Leo(h) && !Smallest(h)
    ensures Decode(2 * p + 1, Prev(h)) == Snoc(Decode(p, h), Prev(h))
  {
    DecodeDouble(p, h);
    DecodeOdd(2 * p + 1, Prev(h));
  }

  lemma OddDouble(p: int)
    ensures (2 * p + 1) % 2 == 1
  {
  }

  /** The words met while the last tree is replaced by its subtrees. */
  lemma SplitWords(p: nat, h: Tree)
    requires p % 2 == 1 && Leo(h) && h.Node?
    ensures var os, p1, p2 := Decode(p, h), 2 * (p - 1) + 1, 2 * (2 * (p - 1) + 1) + 1;
            os.Snoc? && os.last == h && Decode(p - 1, h) == os.init && p2 % 2 == 1 &&
            Decode(p1, h.left) == Snoc(os.init, h.left) &&
            Decode(p2, h.right) == Snoc(Snoc(os.init, h.left), h.right)
  {
    DecodeOdd(p, h);
    Push(p - 1, h);
    DownIsPrev(h);
    Push(2 * (p - 1) + 1, h.left);
    OddDouble(2 * (p - 1) + 1);
  }

  /** Where the roots of the two subtrees of the last tree are. */
  lemma SplitRoots(os: Trees)
    requires os.Snoc? && os.last.Node? && Leo(os.last)
    ensures var h, l := os.last, Root(os) - Count(os.last) + Below(os.last);
            l == Size(os.init) + Count(h.left) - 1 && l - Below(h) == Size(os.init) - 1 &&
            l + Below(h.left) == Root(os) - 1 && Below(h.left) == Count(h.right) &&
            Root(os) - 1 - Below(h.left) == Root(Snoc(os.init, h.left))
  {
  }

  lemma NodeSplit(s: seq<uint64>, p: nat, h: Tree, r: int, rev: bool)
    requires Sorting(s, p, h, r, rev) && h.Node? && Decode(p, h).Snoc? && Decode(p, h).last == h
    ensures var t := JoinRight(s, Decode(p, h), rev);
            Sorting(t, 2 * (2 * (p - 1) + 1) + 1, h.right, r - 1, rev) && multiset(t) == multiset(s)
  {
    hide Forest, Tail, JoinRight, Decode;
    SplitWords(p, h);
    DownIsPrev(h);
    DownIsPrev(h.left);
    JoinRightExtends(s, Decode(p, h), rev);
  }
}
