/** The two kinds of challenge, from the random numbers to the text that is hashed. */
module Challenge {
  import opened SortOrder
  import opened Decimal
  import opened Grid
  import opened MakeGrid
  import opened PathQueue
  import ShortPath
  import HeapSort
  import MergeSort
  import SmoothSort
  import opened Mt64

  // ---------- Random numbers ----------

  /** A word of the generator as a number. */
  function Word(x: bv64): (w: uint64)
    ensures w as int == x as int
  {
    x as int as uint64
  }

  /** The k-th random number after seeding. */
  function Number(seed: bv64, k: nat): uint64 {
    Word(Temper(X(seed, k + NN)))
  }

  function Numbers(seed: bv64, n: nat): (s: seq<uint64>)
    ensures |s| == n && forall i :: 0 <= i < n ==> s[i] == Number(seed, i)
  {
    hide Number;
    if n == 0 then [] else Numbers(seed, n - 1) + [Number(seed, n - 1)]
  }

  method Convert(words: seq<bv64>, nums: array<uint64>)
    requires |words| == nums.Length
    modifies nums
    ensures forall j :: 0 <= j < nums.Length ==> nums[j] == Word(words[j])
  {
    hide Word;
    for i := 0 to nums.Length
      invariant forall j :: 0 <= j < i ==> nums[j] == Word(words[j])
    {
      nums[i] := Word(words[i]);
    }
  }

  /** mt64_seed and mt64_randn, as sortlist calls them. */
  method Generate(mt: Mt64, seed: bv64, nums: array<uint64>)
    requires mt.mt.Length == NN
    modifies mt, mt.mt, nums
    ensures nums[..] == Numbers(seed, nums.Length)
  {
    hide X, Temper, Word;
    var words := new bv64[nums.Length];
    mt.Seed(seed);
    mt.RandN(words, seed, 0);
    Convert(words[..], nums);
  }

  // ---------- Sorting ----------

  datatype Kind = Sort | RSort | Unexpected
  datatype Backend = UseHeapSort | UseMergeSort | UseSmoothSort

  /** t is the text of the numbers in order: what the challenge asks for, whatever the back end. */
  ghost predicate IsSolution(t: Text, nums: seq<uint64>, rev: bool) {
    exists s :: IsSortOf(s, nums, rev) && t == Concatenated(s)
  }

  /** The choice of the back end cannot change the text. */
  lemma BackendsAgree(t: Text, u: Text, nums: seq<uint64>, rev: bool)
    requires IsSolution(t, nums, rev) && IsSolution(u, nums, rev)
    ensures t == u
  {
    var x :| IsSortOf(x, nums, rev) && t == Concatenated(x);
    var y :| IsSortOf(y, nums, rev) && u == Concatenated(y);
    SortedPermutationIsUnique(x, y, rev);
  }

  /** sort; an unexpected kind ends the program. */
  method SortNumbers(kind: Kind, backend: Backend, nums: array<uint64>, mtmp: array<uint64>) returns (ok: bool)
    requires if backend == UseMergeSort then nums.Length <= mtmp.Length && nums != mtmp else 1 <= nums.Length
    modifies nums, mtmp
    ensures ok <==> kind != Unexpected
    ensures if ok then IsSortOf(nums[..], old(nums[..]), kind == RSort) else nums[..] == old(nums[..])
  {
    if kind == Unexpected {
      return false;
    }
    var rev := kind == RSort;
    match backend {
      case UseHeapSort => HeapSort.HeapSort64(nums, rev);
      case UseMergeSort => MergeSort.MergeSort64(nums, mtmp, rev);
      case UseSmoothSort => SmoothSort.SmoothSort64(nums, rev);
    }
    ok := true;
  }

  /** The part of sortlist between the random numbers and the hash. */
  method SortList(kind: Kind, backend: Backend, nums: array<uint64>, mtmp: array<uint64>, str: array<byte>)
    returns (ok: bool, l: nat)
    requires if backend == UseMergeSort then nums.Length <= mtmp.Length && nums != mtmp else 1 <= nums.Length
    requires (nums.Length + 1) * U64STRLEN <= str.Length
    modifies nums, mtmp, str
    ensures ok <==> kind != Unexpected
    ensures ok ==> l < str.Length && IsSolution(str[..l], old(nums[..]), kind == RSort)
  {
    hide IsSortOf, Concatenated;
    l := 0;
    ok := SortNumbers(kind, backend, nums, mtmp);
    if ok {
      l := MkU64Str(nums, str);
      assert IsSortOf(nums[..], old(nums[..]), kind == RSort) && str[..l] == Concatenated(nums[..]);
    }
  }

  /** The same from the seed on: the text depends on the seed, the length and the direction only. */
  method SolveSortList(kind: Kind, backend: Backend, mt: Mt64, seed: bv64,
                       nums: array<uint64>, mtmp: array<uint64>, str: array<byte>)
    returns (ok: bool, l: nat)
    requires if backend == UseMergeSort then nums.Length <= mtmp.Length && nums != mtmp else 1 <= nums.Length
    requires mt.mt.Length == NN && (nums.Length + 1) * U64STRLEN <= str.Length
    modifies mt, mt.mt, nums, mtmp, str
    ensures ok <==> kind != Unexpected
    ensures ok ==> l < str.Length && IsSolution(str[..l], Numbers(seed, nums.Length), kind == RSort)
  {
    hide IsSolution, Numbers;
    Generate(mt, seed, nums);
    ok, l := SortList(kind, backend, nums, mtmp, str);
  }

  // ---------- Shortest path ----------

  /**
   * The part of shortpath between the random numbers and the hash: the grid is that of the random numbers, and
   * the text is that of its canonical path; it is empty iff no path leads to the destination.
   */
  method ShortestPath(qu: Queue, grid: array<char>, nblks: nat, rnd: seq<nat>)
    returns (ok: bool, sol: Text, ghost a: nat, ghost b: nat, ghost src: nat, ghost dst: nat, ghost path: seq<nat>)
    requires qu.Indexed() && 0 < qu.n && |qu.cells| == qu.n * qu.n == grid.Length
    modifies grid, qu`q, qu`qs, qu.cells
    ensures ok <==> exists a', b' :: Places(rnd, qu.n, nblks, a', b')
    ensures ok ==> Populated(grid[..], rnd, qu.n, nblks, a, b, src, dst)
    ensures ok && sol == [] ==> forall p :: !IsPath(Graph(qu.n, grid[..], src), p, dst)
    ensures ok && sol != [] ==>
      Canonical(Graph(qu.n, grid[..], src), path, dst) && sol == ShortPath.PathText(path, qu.n)
  {
    hide Populated, Places, IsPath, Canonical, Queue.Linked, Queue.Placed, ShortPath.PathText, ValidGraph;
    var i, j, next, r;
    sol, path := [], [];
    ok, i, j, next, a, b := PopGrid(grid, qu.n, nblks, rnd);
    src, dst := i, j;
    if ok {
      ghost var g := Graph(qu.n, grid[..], src);
      PopulatedIsWalled(grid[..], rnd, qu.n, nblks, a, b, src, dst);
      PlacesInGrid(grid[..], rnd, qu.n, nblks, a, b, src, dst);
      r, sol, path := ShortPath.Search(qu, grid, qu.cells[i], qu.cells[j], g, dst);
    }
  }

  lemma PlacesInGrid(s: seq<char>, rnd: seq<nat>, n: nat, m: nat, a: nat, b: nat, src: int, dst: int)
    requires 0 < n && Populated(s, rnd, n, m, a, b, src, dst)
    ensures 0 <= src < n * n && 0 <= dst < n * n && |s| == n * n
  {
  }

  // ---------- Shortest path of a seed ----------

  /** The first n random numbers of a seed, for the places. */
  function Stream(seed: bv64, n: nat): (s: seq<nat>)
    ensures |s| == n && forall i :: 0 <= i < n ==> s[i] == Number(seed, i) as nat
  {
    hide Number;
    if n == 0 then [] else Stream(seed, n - 1) + [Number(seed, n - 1) as nat]
  }

  /** The same from the seed on, with the first limit random numbers, drawn beforehand. */
  method SolveShortestPath(qu: Queue, grid: array<char>, nblks: nat, mt: Mt64, seed: bv64, limit: nat)
    returns (ok: bool, sol: Text, ghost a: nat, ghost b: nat, ghost src: nat, ghost dst: nat, ghost path: seq<nat>)
    requires qu.Indexed() && 0 < qu.n && |qu.cells| == qu.n * qu.n == grid.Length && mt.mt.Length == NN
    modifies mt, mt.mt, grid, qu`q, qu`qs, qu.cells
    ensures ok <==> exists a', b' :: Places(Stream(seed, limit), qu.n, nblks, a', b')
    ensures ok ==> Populated(grid[..], Stream(seed, limit), qu.n, nblks, a, b, src, dst)
    ensures ok && sol == [] ==> forall p :: !IsPath(Graph(qu.n, grid[..], src), p, dst)
    ensures ok && sol != [] ==>
      Canonical(Graph(qu.n, grid[..], src), path, dst) && sol == ShortPath.PathText(path, qu.n)
  {
    hide *;
    var rnd := Draws(mt, seed, limit);
    ok, sol, a, b, src, dst, path := ShortestPath(qu, grid, nblks, rnd);
  }

  method Draws(mt: Mt64, seed: bv64, limit: nat) returns (rnd: seq<nat>)
    requires mt.mt.Length == NN
    modifies mt, mt.mt
    ensures rnd == Stream(seed, limit)
  {
    hide X, Temper, Word, Stream, Mt64.At;
    mt.Seed(seed);
    rnd := [];
    for i := 0 to limit
      invariant mt.At(seed, i) && |rnd| == i
      invariant forall j :: 0 <= j < i ==> rnd[j] == Number(seed, j) as nat
    {
      var x := mt.Rand(seed, i);
      rnd := rnd + [Word(x) as nat];
    }
  }

  /** With more random numbers than needed the grid is the same. */
  lemma PlacesOfPrefix(rnd: seq<nat>, more: seq<nat>, n: nat, m: nat, a: nat, b: nat)
    requires 0 < n && rnd <= more && Places(rnd, n, m, a, b)
    ensures Places(more, n, m, a, b)
    ensures Draw(more, 0, a, n) == Draw(rnd, 0, a, n)
    ensures Draw(more, 2 * a + 2, b, n) == Draw(rnd, 2 * a + 2, b, n)
  {
    hide IndexOf;
    assert forall from: nat, k: nat :: from + 2 * k + 2 <= |rnd| ==> Draw(more, from, k, n) == Draw(rnd, from, k, n);
    hide Draw;
  }

  lemma StandsOfPrefix(rnd: seq<nat>, more: seq<nat>, h: nat, m: nat, n: nat, src: int, dst: int)
    requires 0 < n && rnd <= more && h + 2 * m <= |rnd|
    ensures forall c :: Stands(rnd, h, m, n, src, dst, c) == Stands(more, h, m, n, src, dst, c)
  {
    hide IndexOf, Inside;
    assert forall k :: 0 <= k < m ==> Draw(more, h, k, n) == Draw(rnd, h, k, n);
    hide Draw;
  }

  lemma GridOfPrefix(rnd: seq<nat>, more: seq<nat>, n: nat, m: nat,
                     s: seq<char>, a: nat, b: nat, src: int, dst: int,
                     t: seq<char>, c: nat, d: nat, from: int, to: int)
    requires 0 < n && rnd <= more && Populated(s, rnd, n, m, a, b, src, dst) && Populated(t, more, n, m, c, d, from, to)
    ensures s == t && src == from && dst == to
  {
    hide Places, Draw, Stands;
    assert Places(rnd, n, m, a, b) && Places(more, n, m, c, d);
    PlacesOfPrefix(rnd, more, n, m, a, b);
    PlacesAreUnique(more, n, m, a, b, m, c, d);
    EnoughFor(rnd, n, m, a, b);
    StandsOfPrefix(rnd, more, 2 * a + 2 * b + 4, m, n, src, dst);
  }

  lemma EnoughFor(rnd: seq<nat>, n: nat, m: nat, a: nat, b: nat)
    requires 0 < n && Places(rnd, n, m, a, b)
    ensures 2 * a + 2 * b + 4 + 2 * m <= |rnd|
  {
  }

  /** The grid, the start and the destination are functions of the seed, the width and the number of blockers. */
  lemma GridOfSeed(seed: bv64, l: nat, k: nat, n: nat, m: nat,
                   s: seq<char>, a: nat, b: nat, src: int, dst: int,
                   t: seq<char>, c: nat, d: nat, from: int, to: int)
    requires l <= k && 0 < n
    requires Populated(s, Stream(seed, l), n, m, a, b, src, dst)
    requires Populated(t, Stream(seed, k), n, m, c, d, from, to)
    ensures s == t && src == from && dst == to
  {
    hide Number, Populated, Stream;
    assert Stream(seed, l) <= Stream(seed, k);
    GridOfPrefix(Stream(seed, l), Stream(seed, k), n, m, s, a, b, src, dst, t, c, d, from, to);
  }
}
