/** Mersenne Twister 64: the in-place generator, and the unbounded recurrence whose tempered elements it yields. */
module Mt64 {

  const NN: nat := 312
  const MM: nat := 156
  const UM: bv64 := 0xFFFF_FFFF_8000_0000
  const LM: bv64 := 0x7FFF_FFFF
  const MAG1: bv64 := 0xb502_6f5a_a966_19e9
  const DEFAULTSEED: bv64 := 5489

  function Xor(x: bv64, y: bv64): bv64 { x ^ y }

  // ---------- The recurrence ----------

  function Mag01(x: bv64): bv64 {
    if x & 1 == 0 then 0 else MAG1
  }

  /** The upper 33 bits of u and the lower 31 bits of l, times the matrix of the recurrence. */
  function Twist(u: bv64, l: bv64): bv64 {
    var x := (u & UM) | (l & LM);
    Xor(x >> 1, Mag01(x))
  }

  function Fold(x: bv64): bv64 { x ^ (x >> 62) }

  function Scale(y: bv64, i: bv64): bv64 { 6364136223846793005 * y + i }

  function SeedNext(x: bv64, i: nat): bv64
    requires i < NN
  {
    Scale(Fold(x), i as bv64)
  }

  /** Element k of the sequence that a seed determines. */
  function X(seed: bv64, k: nat): bv64
    decreases k, seed
  {
    if k == 0 then seed
    else if k < NN then SeedNext(X(seed, k - 1), k)
    else Xor(X(seed, k - NN + MM), Twist(X(seed, k - NN), X(seed, k - NN + 1)))
  }

  lemma XStep(seed: bv64, k: nat)
    ensures X(seed, 0) == seed
    ensures 0 < k < NN ==> X(seed, k) == SeedNext(X(seed, k - 1), k)
    ensures X(seed, k + NN) == Xor(X(seed, k + MM), Twist(X(seed, k), X(seed, k + 1)))
  {
    hide Twist, Xor, SeedNext;
  }

  /** From the word that the twist contributes, the bits it was made of: the upper 33 of u, the lower 31 of l. */
  lemma TwistUndone(u: bv64, l: bv64)
    ensures var v := Twist(u, l);
            (if v >> 63 == 0 then v << 1 else ((v ^ 0xb502_6f5a_a966_19e9) << 1) | 1) ==
            (u & 0xFFFF_FFFF_8000_0000) | (l & 0x7FFF_FFFF)
  {
  }

  /** The recurrence, read backwards: elements k + 312 and k + 156 give the bits of elements k and k + 1. */
  lemma BlockUndone(seed: bv64, k: nat)
    ensures var v := X(seed, k + 312) ^ X(seed, k + 156);
            (if v >> 63 == 0 then v << 1 else ((v ^ 0xb502_6f5a_a966_19e9) << 1) | 1) ==
            (X(seed, k) & 0xFFFF_FFFF_8000_0000) | (X(seed, k + 1) & 0x7FFF_FFFF)
  {
    XStep(seed, k);
    hide X, Twist;
    var a, t := X(seed, k + 156), Twist(X(seed, k), X(seed, k + 1));
    assert (a ^ t) ^ a == t;
    TwistUndone(X(seed, k), X(seed, k + 1));
  }

  /** The inverse of the multiplier takes the number back, once i is subtracted. */
  function Unscale(y: bv64, i: bv64): bv64 { 0xC097_EF87_329E_28A5 * (y - i) }

  lemma ScaleIs(y: bv64, i: bv64)
    ensures Scale(y, i) == 6364136223846793005 * y + i
  {
  }

  lemma UnscaleUndoes(y: bv64, i: bv64)
    ensures Unscale(6364136223846793005 * y + i, i) == y
  {
  }

  lemma ScaleUndone(y: bv64, i: bv64)
    ensures Unscale(Scale(y, i), i) == y
  {
    hide Scale, Unscale;
    ScaleIs(y, i);
    UnscaleUndoes(y, i);
  }

  lemma FoldIs(x: bv64)
    ensures Fold(x) == x ^ (x >> 62)
  {
  }

  /** The seeding, read backwards: an element gives the one before it, with its upper two bits folded in. */
  lemma SeedingUndone(seed: bv64, k: nat)
    requires 0 < k < 312
    ensures X(seed, 0) == seed
    ensures Unscale(X(seed, k), k as bv64) == X(seed, k - 1) ^ (X(seed, k - 1) >> 62)
  {
    hide X, Unscale, Scale, Fold;
    XStep(seed, k);
    FoldIs(X(seed, k - 1));
    ScaleUndone(Fold(X(seed, k - 1)), k as bv64);
  }

  // ---------- Tempering ----------

  function Step1(x: bv64): bv64 { x ^ ((x >> 29) & 0x5555_5555_5555_5555) }
  function Step2(x: bv64): bv64 { x ^ ((x << 17) & 0x71D6_7FFF_EDA6_0000) }
  function Step3(x: bv64): bv64 { x ^ ((x << 37) & 0xFFF7_EEE0_0000_0000) }
  function Step4(x: bv64): bv64 { x ^ (x >> 43) }

  function Temper(x: bv64): bv64 {
    Step4(Step3(Step2(Step1(x))))
  }

  // A step is undone from the end that it leaves alone, as many bits at a time as it shifts by.

  function Back1(d: bv64): bv64 {
    var d1 := d ^ ((d >> 29) & 0x5555_5555_5555_5555);
    d ^ ((d1 >> 29) & 0x5555_5555_5555_5555)
  }

  function Back2(c: bv64): bv64 {
    var c1 := c ^ ((c << 17) & 0x71D6_7FFF_EDA6_0000);
    var c2 := c ^ ((c1 << 17) & 0x71D6_7FFF_EDA6_0000);
    c ^ ((c2 << 17) & 0x71D6_7FFF_EDA6_0000)
  }

  /** The last two steps undo themselves. */
  function Back3(b: bv64): bv64 { b ^ ((b << 37) & 0xFFF7_EEE0_0000_0000) }
  function Back4(a: bv64): bv64 { a ^ (a >> 43) }

  // That each of these functions is the term it abbreviates is stated apart from the laws of those terms: the
  // laws are then identities between bit-vector terms, and their combination needs no bit of any of them.

  lemma StepsAre(x: bv64)
    ensures Step1(x) == x ^ ((x >> 29) & 0x5555_5555_5555_5555)
    ensures Step2(x) == x ^ ((x << 17) & 0x71D6_7FFF_EDA6_0000)
  {
  }

  lemma LastStepsAre(x: bv64)
    ensures Step3(x) == x ^ ((x << 37) & 0xFFF7_EEE0_0000_0000)
    ensures Step4(x) == x ^ (x >> 43)
  {
  }

  lemma Back1Is(d: bv64)
    ensures Back1(d) == d ^ (((d ^ ((d >> 29) & 0x5555_5555_5555_5555)) >> 29) & 0x5555_5555_5555_5555)
  {
  }

  lemma Back2Is(c: bv64)
    ensures var c1 := c ^ ((c << 17) & 0x71D6_7FFF_EDA6_0000);
            var c2 := c ^ ((c1 << 17) & 0x71D6_7FFF_EDA6_0000);
            Back2(c) == c ^ ((c2 << 17) & 0x71D6_7FFF_EDA6_0000)
  {
  }

  lemma LastBacksAre(x: bv64)
    ensures Back3(x) == x ^ ((x << 37) & 0xFFF7_EEE0_0000_0000)
    ensures Back4(x) == x ^ (x >> 43)
  {
  }

  lemma BackUndoes(x: bv64)
    ensures Back1(x ^ ((x >> 29) & 0x5555_5555_5555_5555)) == x
    ensures Back2(x ^ ((x << 17) & 0x71D6_7FFF_EDA6_0000)) == x
  {
  }

  lemma LastBackUndoes(x: bv64)
    ensures Back3(x ^ ((x << 37) & 0xFFF7_EEE0_0000_0000)) == x
    ensures Back4(x ^ (x >> 43)) == x
  {
  }

  lemma StepUndoes(d: bv64)
    ensures Step1(d ^ (((d ^ ((d >> 29) & 0x5555_5555_5555_5555)) >> 29) & 0x5555_5555_5555_5555)) == d
    ensures var c1 := d ^ ((d << 17) & 0x71D6_7FFF_EDA6_0000);
            var c2 := d ^ ((c1 << 17) & 0x71D6_7FFF_EDA6_0000);
            Step2(d ^ ((c2 << 17) & 0x71D6_7FFF_EDA6_0000)) == d
  {
  }

  lemma LastStepUndoes(x: bv64)
    ensures Step3(x ^ ((x << 37) & 0xFFF7_EEE0_0000_0000)) == x
    ensures Step4(x ^ (x >> 43)) == x
  {
  }

  lemma StepsUndone(x: bv64)
    ensures Back1(Step1(x)) == x && Back2(Step2(x)) == x
    ensures Step1(Back1(x)) == x && Step2(Back2(x)) == x
  {
    hide Step1, Step2, Back1, Back2;
    StepsAre(x);
    Back1Is(x);
    Back2Is(x);
    BackUndoes(x);
    StepUndoes(x);
  }

  lemma LastStepsUndone(x: bv64)
    ensures Back3(Step3(x)) == x && Back4(Step4(x)) == x
    ensures Step3(Back3(x)) == x && Step4(Back4(x)) == x
  {
    hide Step3, Step4, Back3, Back4;
    LastStepsAre(x);
    LastBacksAre(x);
    LastBackUndoes(x);
    LastStepUndoes(x);
  }

  /** The tempering loses nothing: it is a bijection on 64-bit words, with this inverse. */
  lemma TemperIsBijective(x: bv64)
    ensures Back1(Back2(Back3(Back4(Temper(x))))) == x
    ensures Temper(Back1(Back2(Back3(Back4(x))))) == x
  {
    hide Step1, Step2, Step3, Step4, Back1, Back2, Back3, Back4;
    var x1 := Step1(x);
    var x2 := Step2(x1);
    var x3 := Step3(x2);
    LastStepsUndone(x3);
    LastStepsUndone(x2);
    StepsUndone(x1);
    StepsUndone(x);
    var y4 := Back4(x);
    var y3 := Back3(y4);
    var y2 := Back2(y3);
    StepsUndone(y2);
    StepsUndone(y3);
    LastStepsUndone(y4);
    LastStepsUndone(x);
  }

  // ---------- The generator ----------

  /** Elements base + NN on up to index i, elements base on from there. */
  ghost predicate Renewed(s: seq<bv64>, seed: bv64, base: nat, i: nat) {
    |s| == NN && i <= NN &&
    (forall j :: 0 <= j < i ==> s[j] == X(seed, base + NN + j)) &&
    (forall j :: i <= j < NN ==> s[j] == X(seed, base + j))
  }

  lemma Renewal(s: seq<bv64>, seed: bv64, base: nat)
    requires |s| == NN
    ensures Renewed(s, seed, base, 0) <==> forall j :: 0 <= j < NN ==> s[j] == X(seed, base + j)
    ensures Renewed(s, seed, base, NN) <==> forall j :: 0 <= j < NN ==> s[j] == X(seed, base + NN + j)
  {
    hide X;
  }

  lemma Renew(s: seq<bv64>, seed: bv64, base: nat, i: nat)
    requires Renewed(s, seed, base, i) && i < NN
    ensures |s| == NN
    ensures var far := s[if i < NN - MM then i + MM else i + MM - NN];
            var next := s[if i < NN - 1 then i + 1 else 0];
            Renewed(s[i := Xor(far, Twist(s[i], next))], seed, base, i + 1)
  {
    hide X, Twist, Xor;
    XStep(seed, base + i);
  }

  class Mt64 {
    const mt: array<bv64>
    var mti: nat

    constructor ()
      ensures mt.Length == 312 && fresh(mt) && mti == NN + 1 && At(5489, 0)
    {
      mt := new bv64[NN](_ => 0);
      mti := NN + 1;
    }

    /** The array holds the NN elements from base on. */
    ghost predicate Holds(seed: bv64, base: nat)
      reads mt
    {
      mt.Length == NN && forall i :: 0 <= i < NN ==> mt[i] == X(seed, base + i)
    }

    /** Seeded with seed and asked for n numbers since; a generator never seeded behaves as seeded by default. */
    ghost predicate At(seed: bv64, n: nat)
      reads this, mt
    {
      mt.Length == NN &&
      if mti == NN + 1 then seed == DEFAULTSEED && n == 0
      else mti <= NN && Holds(seed, n + NN - mti)
    }

    method Seed(seed: bv64)
      requires mt.Length == NN
      modifies this, mt
      ensures At(seed, 0) && mti == NN
    {
      hide X, SeedNext;
      XStep(seed, 0);
      mt[0] := seed;
      var i := 1;
      while i < NN
        invariant 1 <= i <= NN && forall j :: 0 <= j < i ==> mt[j] == X(seed, j)
      {
        XStep(seed, i);
        mt[i] := SeedNext(mt[i - 1], i);
        i := i + 1;
      }
      mti := i;
    }

    /** Overwrites the elements from base on by the next NN, in place. */
    method NextBlock(ghost seed: bv64, ghost base: nat)
      requires Holds(seed, base)
      modifies mt
      ensures Holds(seed, base + NN)
    {
      hide X, Twist, Xor, Renewed;
      Renewal(mt[..], seed, base);
      var i := 0;
      while i < NN - MM
        invariant 0 <= i <= NN - MM && Renewed(mt[..], seed, base, i)
      {
        Renew(mt[..], seed, base, i);
        mt[i] := Xor(mt[i + MM], Twist(mt[i], mt[i + 1]));
        i := i + 1;
      }
      while i < NN - 1
        invariant NN - MM <= i <= NN - 1 && Renewed(mt[..], seed, base, i)
      {
        Renew(mt[..], seed, base, i);
        mt[i] := Xor(mt[i + MM - NN], Twist(mt[i], mt[i + 1]));
        i := i + 1;
      }
      Renew(mt[..], seed, base, NN - 1);
      mt[NN - 1] := Xor(mt[MM - 1], Twist(mt[NN - 1], mt[0]));
      Renewal(mt[..], seed, base);
    }

    /** The n-th number after seeding is the tempered element n + NN of the recurrence. */
    method Rand(ghost seed: bv64, ghost n: nat) returns (x: bv64)
      requires At(seed, n)
      modifies this, mt
      ensures x == Temper(X(seed, n + NN)) && At(seed, n + 1)
    {
      hide X, Step1, Step2, Step3, Step4;
      if NN <= mti {
        if mti == NN + 1 {
          Seed(DEFAULTSEED);
        }
        NextBlock(seed, n);
        mti := 0;
      }
      x := mt[mti];
      mti := mti + 1;
      x := Step1(x);
      x := Step2(x);
      x := Step3(x);
      x := Step4(x);
    }

    /** mt64_randn: fills buf with the next numbers. */
    method RandN(buf: array<bv64>, ghost seed: bv64, ghost n: nat)
      requires At(seed, n) && buf != mt
      modifies this, mt, buf
      ensures At(seed, n + buf.Length)
      ensures forall i :: 0 <= i < buf.Length ==> buf[i] == Temper(X(seed, n + i + NN))
    {
      hide X, Temper;
      var i := 0;
      while i < buf.Length
        invariant 0 <= i <= buf.Length && At(seed, n + i)
        invariant forall j :: 0 <= j < i ==> buf[j] == Temper(X(seed, n + j + NN))
      {
        buf[i] := Rand(seed, n + i);
        i := i + 1;
      }
    }
  }
}
