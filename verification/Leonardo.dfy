/** Leonardo trees, and the word and the pair of numbers in which smoothsort keeps its forest. */
module Leonardo {
  import opened SmoothSpec

  /** The orders 0 and 1 are leaves; order k is made of the orders k - 1 and k - 2. */
  predicate Leo(h: Tree) {
    h.Leaf? || (Leo(h.left) && !Smallest(h.left) && h.right == Prev(h.left))
  }

  predicate Smallest(h: Tree) {
    h.Leaf? && !h.big
  }

  /** The tree one order below h. */
  function Prev(h: Tree): Tree
    requires !Smallest(h)
  {
    if h.Leaf? then Leaf(!h.big) else h.left
  }

  /** The tree one order above h. */
  function Next(h: Tree): (g: Tree)
    ensures !Smallest(g) && Prev(g) == h
  {
    if Smallest(h) then Leaf(!h.big) else Node(h, Prev(h))
  }

  /** The number `c` beside b = Count(h); C wraps the -1. */
  function Below(h: Tree): int {
    if Smallest(h) then -1 else Count(Prev(h))
  }

  /** (b, c) moves to the next larger pair of Leonardo numbers ... */
  function Up(b: int, c: int): (int, int) {
    (b + c + 1, b)
  }

  /** ... or to the next smaller one. */
  function Down(b: int, c: int): (int, int) {
    (c, b - c - 1)
  }

  lemma UpIsNext(h: Tree)
    requires Leo(h)
    ensures Leo(Next(h)) && Up(Count(h), Below(h)) == (Count(Next(h)), Below(Next(h)))
  {
  }

  lemma DownIsPrev(h: Tree)
    requires Leo(h) && !Smallest(h)
    ensures Leo(Prev(h)) && Down(Count(h), Below(h)) == (Count(Prev(h)), Below(Prev(h)))
  {
  }

  /** The trees that the bits of p denote when bit 0 stands for h. */
  function Decode(p: nat, h: Tree): (os: Trees)
    ensures p == 0 <==> os.Nil?
    decreases p, h
  {
    if p == 0 then Nil
    else if p % 2 == 0 then Decode(p / 2, Next(h))
    else Snoc(Decode(p / 2, Next(h)), h)
  }

  /** Shifting the word left moves bit 0 to the next smaller order. */
  lemma DecodeDouble(p: nat, h: Tree)
    requires !Smallest(h) && Leo(h)
    ensures Decode(2 * p, Prev(h)) == Decode(p, h)
  {
    var d := 2 * p;
    assert d % 2 == 0 && d / 2 == p;
    assert Next(Prev(h)) == h;
    assert d != 0 ==> Decode(d, Prev(h)) == Decode(d / 2, Next(Prev(h)));
  }

  /** A word whose two lowest bits are y and x. */
  lemma LowBits(k: nat, y: nat, x: nat)
    requires y < 2 && x < 2
    ensures var p := 4 * k + 2 * y + x; p / 2 == 2 * k + y && p % 2 == x && p / 4 == k && p % 4 == 2 * y + x
    ensures (2 * k + y) / 2 == k && (2 * k + y) % 2 == y
  {
  }

  /** With bit 0 set, h is the last tree; without it the others are left. */
  lemma DecodeOdd(p: nat, h: Tree)
    requires p % 2 == 1
    ensures Decode(p, h) == Snoc(Decode(p - 1, h), h) && Decode(p - 1, h) == Decode(p / 2, Next(h))
  {
    assert p == 2 * (p / 2) + 1 && (p - 1) / 2 == p / 2 && (p - 1) % 2 == 0;
  }

  // ---------- The words of the build phase ----------

  /** No two neighbouring bits set. */
  predicate NoAdjacent(z: nat) {
    z == 0 || (z % 4 != 3 && NoAdjacent(z / 2))
  }

  /** Only the two lowest bits may be neighbours, and order 0 only stands beside order 1. */
  predicate BuildShape(p: nat, h: Tree) {
    p % 2 == 1 && NoAdjacent(p / 2) && (Smallest(h) ==> p % 4 == 3)
  }
}
