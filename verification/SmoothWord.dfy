/** Leonardo numbers, the orders of the trees in a word, and how large the word can become. */
module SmoothWord {
  import opened XorSwap
  import opened SmoothSpec
  import opened Leonardo

  function L(k: nat): (b: nat) {
    if k < 2 then 1 else L(k - 1) + L(k - 2) + 1
  }

  function Order(h: Tree): (k: nat)
    ensures k == 0 ==> h.Leaf?
    ensures h.Leaf? ==> k == if h.big then 1 else 0
  {
    match h
    case Leaf(big) => if big then 1 else 0
    case Node(left, _) => Order(left) + 1
  }

  lemma {:induction false} PrevOrder(h: Tree)
    requires Leo(h) && !Smallest(h)
    ensures Leo(Prev(h)) && Order(Prev(h)) == Order(h) - 1
  {
  }

  /** b is the Leonardo number of its order, and c the one before it. */
  lemma {:induction false} PairIsLeonardo(h: Tree)
    requires Leo(h)
    ensures Count(h) == L(Order(h))
    ensures !Smallest(h) ==> Below(h) == L(Order(h) - 1)
  {
    if h.Node? {
      PairIsLeonardo(h.left);
      PrevOrder(h.left);
    }
  }

  /** Orders strictly decrease from left to right and none is below k. */
  predicate Decreasing(os: Trees, k: nat) {
    os.Nil? || (Leo(os.last) && k <= Order(os.last) && Decreasing(os.init, Order(os.last) + 1))
  }

  lemma {:induction false} NextOrder(h: Tree)
    requires Leo(h)
    ensures Leo(Next(h)) && Order(Next(h)) == Order(h) + 1
  {
    UpIsNext(h);
    PrevOrder(Next(h));
  }

  /** Whatever the word, the orders it denotes are distinct and descending. */
  lemma {:induction false} DecodeIsDecreasing(p: nat, h: Tree)
    requires Leo(h)
    ensures Decreasing(Decode(p, h), Order(h))
    decreases p
  {
    if p != 0 {
      NextOrder(h);
      DecodeIsDecreasing(p / 2, Next(h));
    }
  }

  lemma {:induction false} LGrows(k: nat)
    ensures L(k) <= L(k + 1)
  {
  }

  /** A word of n + 1 bits or more denotes at least the elements of the tree its top bit stands for. */
  lemma {:induction false} TopBitIsLarge(p: nat, h: Tree, n: nat)
    requires Leo(h) && Pow2(n) <= p
    ensures L(Order(h) + n) <= Size(Decode(p, h))
    decreases p
  {
    NextOrder(h);
    PairIsLeonardo(h);
    if 0 < n {
      TopBitIsLarge(p / 2, Next(h), n - 1);
    } else if p % 2 == 0 {
      TopBitIsLarge(p / 2, Next(h), 0);
      LGrows(Order(h));
    }
  }

  /** p stays below 2^n (n = 64 for size_t) while there are fewer elements than the Leonardo number of order n. */
  lemma WordFits(p: nat, h: Tree, n: nat)
    requires Leo(h) && Size(Decode(p, h)) < L(n)
    ensures p < Pow2(n)
  {
    hide L, Pow2, Decode, Size, Leo, Order;
    if Pow2(n) <= p {
      TopBitIsLarge(p, h, n);
      LMonotone(n, Order(h) + n);
    }
  }

  lemma {:induction false} LMonotone(j: nat, k: nat)
    requires j <= k
    ensures L(j) <= L(k)
    decreases k - j
  {
    if j < k {
      LMonotone(j, k - 1);
      LGrows(k - 1);
    }
  }
}
