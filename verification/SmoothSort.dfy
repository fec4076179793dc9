/** smoothsort64: an in-place sort over a forest of Leonardo heaps. */
module SmoothSort {
  import opened SortOrder
  import opened SmoothSpec
  import opened Leonardo
  import opened SmoothMoves
  import opened SmoothPhases

  // ---------- Building ----------

  ghost predicate Represents(s: State, h: Tree)
    reads s
  {
    s.b == Count(h) && s.c == Below(h)
  }

  /** p ends in 011: the two smallest trees are joined under the next element. */
  method Merge(s: State, ghost h: Tree) returns (ghost h2: Tree)
    requires Building(s.a[..], s.p, h, s.r, s.v) && Represents(s, h) && s.r + 1 < s.a.Length && s.p % 8 == 3
    modifies s`p, s`b, s`c, s`r1, s`b1, s`c1, s.a
    ensures Building(s.a[..], s.p, h2, s.r + 1, s.v) && Represents(s, h2)
    ensures multiset(s.a[..]) == multiset(old(s.a[..]))
  {
    hide BuildShape, Decode, Partial, NearHeap;
    Merged(s.a[..], s.p, h, s.r, s.v);
    s.r1, s.b1, s.c1 := s.r, s.b, s.c;
    Sift(s, h);
    var t := s.b + s.c + 1;
    h2 := Next(Next(h));
    s.p, s.b, s.c := (s.p + 1) / 4, s.b + t + 1, t;
  }

  /** p ends in 01: the last tree is put in order and the next element becomes a tree of its own. */
  method Settle(s: State, ghost h: Tree)
    requires Building(s.a[..], s.p, h, s.r, s.v) && Represents(s, h) && s.p % 4 == 1
    modifies s`r1, s`b1, s`c1, s.a
    ensures Settled(s.a[..], s.p, h, s.r, s.v) && multiset(s.a[..]) == multiset(old(s.a[..]))
  {
    s.r1 := s.r;
    if s.r + 1 + s.c < s.a.Length {
      SiftSettles(s.a[..], s.p, h, s.r, s.v);
      s.b1, s.c1 := s.b, s.c;
      Sift(s, h);
    } else {
      TrinkleSettles(s.a[..], s.p, h, s.r, s.v);
      Trinkle(s, h);
    }
  }

  /** Goes down to order 1 or 0, shifting p left on the way. */
  method Descend(p0: nat, b0: int, c0: int, ghost h: Tree) returns (p: nat, b: int, c: int, ghost h2: Tree)
    requires p0 % 4 == 1 && BuildShape(p0, h) && Leo(h) && b0 == Count(h) && c0 == Below(h)
    ensures Descending(p, h2, Decode(p0, h)) && h2.Leaf? && b == Count(h2) && c == Below(h2)
    ensures b == 1 && (c == 1 || c == -1) && 2 * p0 <= p
  {
    hide BuildShape, Decode, Descending;
    ghost var os := Decode(p0, h);
    DescendFirst(p0, h);
    DownIsPrev(h);
    b, c := Down(b0, c0).0, Down(b0, c0).1;
    p, h2 := 2 * p0, Prev(h);
    while 1 < b
      invariant Descending(p, h2, os) && Leo(h2) && b == Count(h2) && c == Below(h2) && 2 * p0 <= p
      decreases h2
    {
      DescendNext(p, h2, os);
      DownIsPrev(h2);
      b, c := Down(b, c).0, Down(b, c).1;
      p, h2 := 2 * p, Prev(h2);
    }
  }

  /** The next element becomes a tree of order 1, or of order 0 beside one of order 1. */
  method AddTree(s: State, ghost h: Tree) returns (ghost h2: Tree)
    requires Settled(s.a[..], s.p, h, s.r, s.v) && Represents(s, h) && s.r + 1 < s.a.Length
    modifies s`p, s`b, s`c
    ensures Building(s.a[..], s.p, h2, s.r + 1, s.v) && Represents(s, h2)
  {
    hide BuildShape, Decode, Partial, NearHeap, Building, Descending, Settled, Size, Root, Leo, Count, Below;
    ghost var os := Decode(s.p, h);
    SettledForest(s.a[..], s.p, h, s.r, s.v);
    var p, b, c;
    p, b, c, h2 := Descend(s.p, s.b, s.c, h);
    NewTree(s.a[..], os, p, h2, s.v);
    s.p, s.b, s.c := p + 1, b, c;
  }

  /** The next element joins the trees. */
  method Grow(s: State, ghost h: Tree) returns (ghost h2: Tree)
    requires Building(s.a[..], s.p, h, s.r, s.v) && Represents(s, h) && s.r + 1 < s.a.Length
    modifies s`p, s`b, s`c, s`r, s`r1, s`b1, s`c1, s.a
    ensures Building(s.a[..], s.p, h2, s.r, s.v) && Represents(s, h2) && s.r == old(s.r) + 1
    ensures multiset(s.a[..]) == multiset(old(s.a[..]))
  {
    hide BuildShape, Decode, Partial, NearHeap;
    TwoCases(s.p, h);
    if s.p % 8 == 3 {
      h2 := Merge(s, h);
    } else if s.p % 4 == 1 {
      Settle(s, h);
      h2 := AddTree(s, h);
    }
    s.r := s.r + 1;
  }

  /** Arranges the elements into a forest. */
  method Build(s: State) returns (ghost h: Tree)
    requires 1 <= s.a.Length && s.r == 0 && s.p == 1 && s.b == 1 && s.c == 1
    modifies s, s.a
    ensures s.q == s.a.Length && s.r == s.q - 1 && Represents(s, h)
    ensures Sorting(s.a[..], s.p, h, s.r, s.v) && multiset(s.a[..]) == multiset(old(s.a[..]))
  {
    hide BuildShape, Decode, Partial, NearHeap, Trinkled, Forest;
    h := Leaf(true);
    StartsBuilding(s.a[..], h, s.v);
    s.q := 1;
    while s.q < s.a.Length
      invariant s.r == s.q - 1 && s.q <= s.a.Length && Building(s.a[..], s.p, h, s.r, s.v) && Represents(s, h)
      invariant multiset(s.a[..]) == multiset(old(s.a[..]))
    {
      h := Grow(s, h);
      s.q := s.q + 1;
    }
    TrinkleCompletes(s.a[..], s.p, h, s.v);
    s.r1 := s.r;
    Trinkle(s, h);
  }

  /** The last element, a tree of its own, leaves the forest. */
  method RemoveLeaf(s: State, ghost h: Tree) returns (ghost h2: Tree)
    requires Sorting(s.a[..], s.p, h, s.r, s.v) && Represents(s, h) && s.b == 1 && 1 <= s.r
    modifies s`p, s`b, s`c, s`r
    ensures Sorting(s.a[..], s.p, h2, s.r, s.v) && Represents(s, h2) && s.r == old(s.r) - 1
  {
    LeafIsNotAlone(s.a[..], s.p, h, s.r, s.v);
    var p, b, c;
    p, b, c, h2 := SkipZeros(s.p - 1, s.b, s.c, h);
    LeafRemoved(s.a[..], s.p, h, s.r, p, h2, s.v);
    s.p, s.b, s.c, s.r := p, b, c, s.r - 1;
  }

  /** The left subtree of the last tree joins the trees before it, if there are any. */
  method SplitLeft(s: State, ghost h: Tree)
    requires Sorting(s.a[..], s.p, h, s.r, s.v) && Represents(s, h) && 2 < s.b
    modifies s`p, s`r, s`r1, s`b1, s`c1, s.a
    ensures var os := Decode(old(s.p), h);
            os.Snoc? && os.last.Node? && Size(os) <= s.a.Length && s.a[..] == JoinLeft(old(s.a[..]), os, s.v) &&
            s.p == old(s.p) - 1 && s.r == Root(os) - Count(os.last) + Below(os.last)
  {
    hide Decode, Forest, Tail, Sorting, Leo, Below, Count, SemiTrinkled;
    LastIsH(s.a[..], s.p, h, s.r, s.v);
    SplitWords(s.p, h);
    SplitRoots(Decode(s.p, h));
    s.p, s.r := s.p - 1, s.r - s.b + s.c;
    if 0 < s.p {
      SemiTrinkle(s, h);
    }
  }

  /** The last root leaves the forest and its subtrees become trees. */
  method SplitNode(s: State, ghost h: Tree) returns (ghost h2: Tree)
    requires Sorting(s.a[..], s.p, h, s.r, s.v) && Represents(s, h) && 2 < s.b
    modifies s`p, s`b, s`c, s`r, s`r1, s`b1, s`c1, s.a
    ensures Sorting(s.a[..], s.p, h2, s.r, s.v) && Represents(s, h2) && s.r == old(s.r) - 1
    ensures multiset(s.a[..]) == multiset(old(s.a[..]))
  {
    hide Decode, Forest, Tail, Sorting, Leo, Below, Count, SemiTrinkled, JoinLeft;
    ghost var os := Decode(s.p, h);
    ghost var a0 := s.a[..];
    LastIsH(a0, s.p, h, s.r, s.v);
    SplitWords(s.p, h);
    SplitRoots(os);
    NodeSplit(a0, s.p, h, s.r, s.v);
    DownTwice(h);
    SplitLeft(s, h);
    var (b, c) := Down(s.b, s.c);
    s.b, s.c, s.p, s.r := b, c, 2 * s.p + 1, s.r + c;
    SemiTrinkle(s, h.left);
    assert s.a[..] == JoinRight(a0, os, s.v);
    b, c := Down(s.b, s.c).0, Down(s.b, s.c).1;
    s.b, s.c, s.p, h2 := b, c, 2 * s.p + 1, h.right;
  }

  /** smoothsort64: sorts a in the direction asked for. */
  method SmoothSort64(a: array<uint64>, rev: bool)
    requires 1 <= a.Length
    modifies a
    ensures IsSortOf(a[..], old(a[..]), rev)
  {
    var s := new State(a, rev);
    ghost var h := Build(s);
    while 1 < s.q
      invariant 1 <= s.q && s.r == s.q - 1 && Sorting(a[..], s.p, h, s.r, rev) && Represents(s, h)
      invariant multiset(a[..]) == multiset(old(a[..]))
    {
      if s.b == 1 {
        h := RemoveLeaf(s, h);
      } else if 2 < s.b {
        h := SplitNode(s, h);
      }
      s.q := s.q - 1;
    }
    s.q := s.q - 1;
  }
}
