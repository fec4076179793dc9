/** smoothsort64's moves: sift, trinkle and semitrinkle, in place. */
module SmoothMoves {
  import opened SortOrder
  import opened XorSwap
  import opened SmoothSpec
  import opened Leonardo

  /** One step down leads to the left subtree, two to the right one. */
  lemma DownTwice(h: Tree)
    requires Leo(h) && h.Node?
    ensures Leo(h.left) && Down(Count(h), Below(h)) == (Count(h.left), Below(h.left))
    ensures Leo(h.right) && Down(Count(h.left), Below(h.left)) == (Count(h.right), Below(h.right))
    ensures Count(h) - Below(h) == Count(h.right) + 1
  {
    DownIsPrev(h);
    DownIsPrev(h.left);
  }

  /** Skips the absent orders below the smallest tree. */
  method SkipZeros(p: nat, b: int, c: int, ghost h: Tree) returns (p': nat, b': int, c': int, ghost h': Tree)
    requires 0 < p && Leo(h) && b == Count(h) && c == Below(h)
    ensures Leo(h') && b' == Count(h') && c' == Below(h')
    ensures Decode(p', h') == Decode(p, h) && p' % 2 == 1
  {
    p', b', c', h' := p, b, c, h;
    while p' % 2 == 0
      invariant 0 < p' && Leo(h') && b' == Count(h') && c' == Below(h')
      invariant Decode(p', h') == Decode(p, h)
      decreases p'
    {
      UpIsNext(h');
      var (b1, c1) := Up(b', c');
      p', b', c', h' := p' / 2, b1, c1, Next(h');
    }
  }

  class State {
    const a: array<uint64>
    const v: bool        // reverse
    var q: nat           // number of live elements
    var r: int           // root of the last tree
    var p: nat           // tree orders present; bit 0 stands for (b, c)
    var b: int
    var c: int
    var r1: int
    var b1: int
    var c1: int

    constructor (a: array<uint64>, rev: bool)
      ensures this.a == a && v == rev
      ensures r == 0 && p == 1 && b == 1 && c == 1
    {
      this.a := a;
      v := rev;
      r := 0;
      p := 1;
      b := 1;
      c := 1;
    }
  }

  /**
   * Chooses between the two subtrees below the hole at i, as sift and trinkle both do: c is the root
   * to promote, and (x', y') is one step down when that is the right one.
   */
  method PickChild(a: array<uint64>, v: bool, i: int, x: int, y: int, ghost h: Tree, ghost w: seq<uint64>)
    returns (right: bool, c: int, x': int, y': int)
    requires Leo(h) && h.Node? && x == Count(h) && y == Below(h)
    requires |w| == a.Length && Fits(w, i, h) && forall j :: 0 <= j < i ==> w[j] == a[j]
    ensures right == GoRight(w, i, h, v) && c == ChildRoot(w, i, h, v)
    ensures var g := if right then h.left else h;
            Leo(g) && !Smallest(g) && x' == Count(g) && y' == Below(g) && Child(w, i, h, v) == Prev(g)
  {
    DownTwice(h);
    right, c, x', y' := false, i - x + y, x, y;
    if Le(a[c], a[i - 1], v) {
      var (x1, y1) := Down(x, y);
      right, c, x', y' := true, i - 1, x1, y1;
    }
  }

  /** Fills the hole at i from c, which becomes the hole. */
  method MoveHole(a: array<uint64>, i: int, c: int, ghost t: uint64, ghost w: seq<uint64>)
    requires Hole(a, w, i, t) && 0 <= c < i
    modifies a
    ensures Hole(a, Swap(w, i, c), c, t)
  {
    a[i] := a[c];
  }

  /** Sinks a[r1] in the tree h; the hole at i follows the promoted roots down. */
  method Sift(s: State, ghost h: Tree)
    requires Leo(h) && s.b1 == Count(h) && s.c1 == Below(h) && Fits(s.a[..], s.r1, h)
    modifies s`r1, s`b1, s`c1, s.a
    ensures s.a[..] == Sifted(old(s.a[..]), old(s.r1), h, s.v)
  {
    var i, x, y := s.r1, s.b1, s.c1;
    var t := s.a[i];
    ghost var g := h;
    ghost var w := s.a[..];
    ghost var goal := Sifted(w, i, h, s.v);
    while 2 < x
      invariant i <= s.r1 && Hole(s.a, w, i, t) && (i == s.r1 ==> s.a[s.r1] == t)
      invariant (x == 1 && w == goal) ||
                (Leo(g) && x == Count(g) && y == Below(g) && Fits(w, i, g) && Sifted(w, i, g, s.v) == goal)
      decreases x
    {
      var right, r2, x', y' := PickChild(s.a, s.v, i, x, y, g, w);
      if Lt(s.a[r2], t, s.v) {
        x, y := 1, y';
      } else {
        ghost var child := Child(w, i, g, s.v);
        MoveHole(s.a, i, r2, t, w);
        w, i := Swap(w, i, r2), r2;
        DownIsPrev(if right then g.left else g);
        var (x2, y2) := Down(x', y');
        x, y, g := x2, y2, child;
      }
    }
    if 0 != i - s.r1 {
      s.a[i] := t;
    }
    s.r1, s.b1, s.c1 := i, x, y;
  }

  /**
   * Where trinkle stands: bit 0 of p1 and (x, y) stand for g. While p1 is not 0, t is at the last root
   * of the trees os it may still move left over; after that it is left to sift t in g.
   */
  ghost predicate Trinkling(v: bool, p1: nat, i: int, x: int, y: int, g: Tree, os: Trees,
                            w: seq<uint64>, goal: seq<uint64>)
  {
    Leo(g) && x == Count(g) && y == Below(g) &&
    if p1 == 0 then Fits(w, i, g) && Sifted(w, i, g, v) == goal
    else os == Decode(p1, g) && Size(os) <= |w| && i == Root(os) && Trinkled(w, os, v) == goal
  }

  /** One round of trinkle: t stays, moves left over one root, or moves into the last tree. */
  method TrinkleRound(a: array<uint64>, v: bool, p1: nat, i: int, x: int, y: int, t: uint64,
                      ghost g: Tree, ghost os: Trees, ghost w: seq<uint64>, ghost goal: seq<uint64>)
    returns (p2: nat, i2: int, x2: int, y2: int, ghost g2: Tree, ghost os2: Trees, ghost w2: seq<uint64>)
    requires p1 % 2 == 1 && Trinkling(v, p1, i, x, y, g, os, w, goal) && Hole(a, w, i, t)
    modifies a
    ensures Trinkling(v, p2, i2, x2, y2, g2, os2, w2, goal) && Hole(a, w2, i2, t)
    ensures i2 <= i && (i2 == i ==> a[..] == old(a[..]))
    ensures 0 < p2 ==> os2 == os.init
  {
    hide Sifted, Decode;
    DecodeOdd(p1, g);
    p2, i2, x2, y2, g2, os2, w2 := p1 - 1, i, x, y, g, os, w;
    var r3 := i - x;
    if p1 == 1 || Lt(a[r3], t, v) {
      p2 := 0;
    } else if x == 1 {
      MoveHole(a, i, r3, t, w);
      w2, i2, os2 := Swap(w, i, r3), r3, os.init;
    } else if 3 <= x {
      p2, i2, x2, y2, g2, os2, w2 := TrinkleAtNode(a, v, p1 - 1, i, x, y, t, g, os, w, goal);
    }
  }

  /** The round of trinkle that weighs the previous root against the larger child. */
  method TrinkleAtNode(a: array<uint64>, v: bool, p1: nat, i: int, x: int, y: int, t: uint64,
                          ghost g: Tree, ghost os: Trees, ghost w: seq<uint64>, ghost goal: seq<uint64>)
    returns (p2: nat, i2: int, x2: int, y2: int, ghost g2: Tree, ghost os2: Trees, ghost w2: seq<uint64>)
    requires Leo(g) && g.Node? && x == Count(g) && y == Below(g)
    requires 0 < p1 && os.Snoc? && os.last == g && os.init == Decode(p1, g)
    requires Size(os) <= |w| && i == Root(os) && Trinkled(w, os, v) == goal && Hole(a, w, i, t)
    requires !StopsHere(w, os, v)
    modifies a
    ensures Trinkling(v, p2, i2, x2, y2, g2, os2, w2, goal) && Hole(a, w2, i2, t)
    ensures i2 < i && (0 < p2 ==> os2 == os.init)
  {
    hide Sifted, Decode, GoRight, ChildRoot, Child;
    var r3 := i - x;
    var right, r2, x', y' := PickChild(a, v, i, x, y, g, w);
    p2, x2, y2 := p1, x', y';
    g2, os2 := if right then g.left else g, os;
    if right {
      p2 := 2 * p1;
      DecodeDouble(p1, g);
    }
    if Lt(a[r2], a[r3], v) {
      MoveHole(a, i, r3, t, w);
      w2, i2, os2 := Swap(w, i, r3), r3, os.init;
    } else {
      MoveHole(a, i, r2, t, w);
      w2, i2 := Swap(w, i, r2), r2;
      DownIsPrev(g2);
      var (b', c') := Down(x2, y2);
      p2, x2, y2, g2 := 0, b', c', Prev(g2);
    }
  }

  /** Moves a[r1] left over the roots of the forest that p and (b, c) denote, then sinks it. */
  method Trinkle(s: State, ghost h: Tree)
    requires 0 < s.p && Leo(h) && s.b == Count(h) && s.c == Below(h)
    requires Size(Decode(s.p, h)) <= s.a.Length && s.r1 == Root(Decode(s.p, h))
    modifies s`r1, s`b1, s`c1, s.a
    ensures s.a[..] == Trinkled(old(s.a[..]), Decode(s.p, h), s.v)
  {
    var p1, i, x, y := s.p, s.r1, s.b, s.c;
    var t := s.a[i];
    ghost var g := h;
    ghost var os := Decode(s.p, h);
    ghost var w := s.a[..];
    ghost var goal := Trinkled(w, os, s.v);
    while 0 < p1
      invariant i <= s.r1 && Hole(s.a, w, i, t) && (i == s.r1 ==> s.a[s.r1] == t)
      invariant Trinkling(s.v, p1, i, x, y, g, os, w, goal)
      decreases 0 < p1, os
    {
      p1, x, y, g := SkipZeros(p1, x, y, g);
      p1, i, x, y, g, os, w := TrinkleRound(s.a, s.v, p1, i, x, y, t, g, os, w, goal);
    }
    if 0 != i - s.r1 {
      s.a[i] := t;
    }
    s.r1, s.b1, s.c1 := i, x, y;
    assert s.a[..] == w;
    Sift(s, g);
  }

  /** Exchanges a[r] with the root before its tree when that one does not come before it. */
  method SemiTrinkle(s: State, ghost h: Tree)
    requires 0 < s.p && Leo(h) && s.b == Count(h) && s.c == Below(h)
    requires Size(Decode(s.p, h)) <= s.r < s.a.Length && s.r - s.c == Root(Decode(s.p, h))
    modifies s`r1, s`b1, s`c1, s.a
    ensures s.a[..] == SemiTrinkled(old(s.a[..]), Decode(s.p, h), s.r, s.v)
  {
    s.r1 := s.r - s.c;
    if Le(s.a[s.r], s.a[s.r1], s.v) {
      ExchangeInPlace(s.a, s.r, s.r1);
      Trinkle(s, h);
    }
  }
}
