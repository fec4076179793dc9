/** The nonces: one counter that every solver advances, brought into the range of the solver that asks. */
module Nonce {
  import opened SortOrder
  import opened Words

  const STEP: nat := 3917

  /** The nonce for counter value sn in the range [min, max). */
  function NonceAt(sn: nat, min: nat, max: nat): (n: nat)
    requires min < max
    ensures min <= n < max
  {
    sn % (max - min) + min
  }

  /** The nonce is the one number of the range that lies sn above min, but for multiples of the width. */
  lemma NonceResidue(sn: nat, min: nat, max: nat, n: nat)
    requires min < max
    ensures n == NonceAt(sn, min, max) <==> min <= n < max && (n - min) % (max - min) == sn % (max - min)
  {
  }

  /** The counter after k ticks. */
  function Later(sn: nat, k: nat): (t: nat)
    ensures t < WORD
  {
    (sn + STEP * k) % WORD
  }

  class Counter {
    var sn: uint64

    /** getnonce; one call is one tick of the counter. */
    method GetNonce(min: uint64, max: uint64) returns (n: uint64)
      requires min < max
      modifies this
      ensures sn as nat == Later(old(sn) as nat, 1)
      ensures n as nat == NonceAt(sn as nat, min as nat, max as nat)
      ensures sn as int - old(sn) as int == 3917 || old(sn) as int - sn as int == 0x1_0000_0000_0000_0000 - 3917
      ensures min <= n < max && (n - min) % (max - min) == sn % (max - min)
    {
      sn := ((sn as nat + STEP) % WORD) as uint64;
      n := sn % (max - min) + min;
      NonceResidue(sn as nat, min as nat, max as nat, n as nat);
    }
  }

  /** So k calls, whoever makes them, advance the counter by k ticks. */
  lemma LaterAdds(sn: nat, j: nat, k: nat)
    ensures Later(Later(sn, j), k) == Later(sn, j + k)
  {
    var a := sn + STEP * j;
    assert a + STEP * k == sn + STEP * (j + k);
    assert a == WORD * (a / WORD) + a % WORD;
    SameRemainder(a % WORD + STEP * k, a / WORD, WORD);
  }

  lemma NotWrapped(sn: nat, k: nat)
    requires sn + STEP * k < WORD
    ensures Later(sn, k) == sn + STEP * k
  {
  }

  lemma WrappedOnce(sn: nat, k: nat)
    requires WORD <= sn + STEP * k < 2 * WORD
    ensures Later(sn, k) == sn + STEP * k - WORD
  {
  }

  // ---------- Multiples of the step modulo the width of a range ----------

  /** No number but 1 divides both. */
  ghost predicate Coprime(a: nat, b: nat) {
    forall d :: 1 < d && Divides(d, a) ==> !Divides(d, b)
  }

  ghost predicate Divides(d: int, a: int) {
    exists q :: a == d * q
  }

  lemma DividesSum(d: int, a: int, b: int, m: int, n: int)
    requires Divides(d, a) && Divides(d, b)
    ensures Divides(d, a * m + b * n)
  {
    var q :| a == d * q;
    var r :| b == d * r;
    assert a * m + b * n == d * (q * m + r * n);
  }

  /** Euclid's algorithm, with the factors of Bezout's identity. */
  lemma {:induction false} Bezout(a: nat, b: nat) returns (g: nat, u: int, v: int)
    requires 0 < a
    ensures 0 < g && Divides(g, a) && Divides(g, b) && a * u + b * v == g
    decreases b
  {
    if b == 0 {
      g, u, v := a, 1, 0;
      assert a == g * 1 && b == g * 0;
    } else {
      var x, y;
      g, x, y := Bezout(b, a % b);
      var q := a / b;
      u, v := y, x - q * y;
      assert a == b * q + a % b;
      DividesSum(g, b, a % b, q, 1);
      assert a * y + b * (x - q * y) == b * x + (a - b * q) * y;
    }
  }

  lemma CoprimeIsOne(a: nat, b: nat, u: int, v: int)
    requires a * u + b * v == 1
    ensures Coprime(a, b)
  {
    forall d | 1 < d && Divides(d, a)
      ensures !Divides(d, b)
    {
      NotOfOne(d);
      if Divides(d, b) {
        DividesSum(d, a, b, u, v);
      }
    }
  }

  lemma NotOfOne(d: int)
    requires 1 < d
    ensures !Divides(d, 1)
  {
    forall q
      ensures 1 != d * q
    {
      SmallMultiple(q, d);
    }
  }

  /** Numbers have the same remainder iff they differ by a multiple. */
  lemma SameResidue(a: int, b: int, w: int)
    requires 0 < w
    ensures a % w == b % w <==> Divides(w, b - a)
  {
    var p, q := a / w, b / w;
    assert a == w * p + a % w && b == w * q + b % w;
    if a % w == b % w {
      assert b - a == w * (q - p);
    }
    if Divides(w, b - a) {
      var m :| b - a == w * m;
      SameRemainder(a, m, w);
    }
  }

  lemma SameRemainder(a: int, m: int, w: int)
    requires 0 < w
    ensures (a + w * m) % w == a % w
  {
    var r, t := a % w, (a + w * m) % w;
    var p, q := a / w, (a + w * m) / w;
    assert a == w * p + r && a + w * m == w * q + t;
    assert r - t == w * (q - p - m);
    SmallMultiple(q - p - m, w);
  }

  /** A multiple of the step is a multiple of a width without common factor only if the other factor is. */
  lemma StepCancels(k: int, w: nat)
    requires 0 < w && Coprime(STEP, w)
    ensures Divides(w, STEP * k) <==> Divides(w, k)
  {
    if Divides(w, STEP * k) {
      var g, u, v := Bezout(STEP, w);
      assert w == w * 1;
      DividesSum(w, STEP * k, w, u, k * v);
      Regroup(k, u, v, w);
    }
    if Divides(w, k) {
      var q :| k == w * q;
      assert STEP * k == w * (STEP * q);
    }
  }

  lemma Regroup(k: int, u: int, v: int, w: int)
    requires STEP * u + w * v == 1
    ensures STEP * k * u + w * (k * v) == k
  {
    assert STEP * k * u + w * (k * v) == k * (STEP * u + w * v);
  }

  lemma NotDivides(d: int, w: int)
    requires 0 < d < w || -w < d < 0
    ensures !Divides(w, d)
  {
    forall q
      ensures d != w * q
    {
      SmallMultiple(q, w);
    }
  }

  // ---------- Two draws ----------

  /** Exactly when two draws k ticks apart give the same nonce, however often the counter wraps. */
  lemma SameNonce(sn: nat, k: nat, min: nat, max: nat)
    requires min < max && sn < WORD
    ensures NonceAt(sn, min, max) == NonceAt(Later(sn, k), min, max) <==>
            Divides(max - min, STEP * k - WORD * ((sn + STEP * k) / WORD))
  {
    var a := sn + STEP * k;
    assert a == WORD * (a / WORD) + a % WORD;
    SameResidue(sn, a % WORD, max - min);
  }

  /** Fewer ticks apart than the range is wide, and with no wrap in between, two draws differ. */
  lemma DrawsDiffer(sn: nat, k: nat, min: nat, max: nat)
    requires min < max && Coprime(STEP, max - min) && 0 < k < max - min && sn + STEP * k < WORD
    ensures NonceAt(sn, min, max) != NonceAt(Later(sn, k), min, max)
  {
    NotWrapped(sn, k);
    SameResidue(sn, sn + STEP * k, max - min);
    StepCancels(k, max - min);
    NotDivides(k, max - min);
  }

  /** That two such draws always differ is the same as that the step and the width have no common factor. */
  lemma DrawsDifferIffCoprime(min: nat, max: nat)
    requires min < max < WORD
    ensures Coprime(STEP, max - min) <==>
            forall sn: nat, k: nat :: 0 < k < max - min && sn + STEP * k < WORD ==>
              NonceAt(sn, min, max) != NonceAt(Later(sn, k), min, max)
  {
    if Coprime(STEP, max - min) {
      forall sn: nat, k: nat | 0 < k < max - min && sn + STEP * k < WORD
        ensures NonceAt(sn, min, max) != NonceAt(Later(sn, k), min, max)
      {
        DrawsDiffer(sn, k, min, max);
      }
    } else {
      var k := DrawsCollide(min, max);
      assert 0 + STEP * k < WORD;
    }
  }

  /** No number from 2 to d divides n. */
  predicate NoDivisorUpTo(n: nat, d: nat) {
    d < 2 || (n % d != 0 && NoDivisorUpTo(n, d - 1))
  }

  lemma {:induction false} NoSmallDivisor(n: nat, d: nat, m: nat)
    requires NoDivisorUpTo(n, m) && 2 <= d <= m
    ensures n % d != 0
  {
    if d < m {
      NoSmallDivisor(n, d, m - 1);
    }
  }

  lemma NoSmallDivisors()
    ensures NoDivisorUpTo(STEP, 62)
  {
    assert NoDivisorUpTo(3917, 8);
    assert NoDivisorUpTo(3917, 16);
    assert NoDivisorUpTo(3917, 24);
    assert NoDivisorUpTo(3917, 32);
    assert NoDivisorUpTo(3917, 40);
    assert NoDivisorUpTo(3917, 48);
    assert NoDivisorUpTo(3917, 56);
    assert NoDivisorUpTo(3917, 62);
  }

  lemma NoSmallFactor(d: nat, q: int)
    requires 2 <= d <= 62
    ensures STEP != d * q
  {
    NoSmallDivisors();
    NoSmallDivisor(STEP, d, 62);
    hide NoDivisorUpTo;
    SameRemainder(0, q, d);
  }

  lemma FactorBounds(d: int, q: int)
    requires 1 < d
    ensures q <= 0 ==> d * q <= 0
    ensures 63 <= d && 63 <= q ==> STEP < d * q
  {
    if 63 <= d && 63 <= q {
      assert 63 * q <= d * q;
    }
  }

  /** The step is a prime number. */
  lemma StepIsPrime(d: int)
    requires 1 < d && Divides(d, STEP)
    ensures d == STEP
  {
    var q :| STEP == d * q;
    FactorBounds(d, q);
    if d <= 62 {
      NoSmallFactor(d, q);
    } else if 2 <= q {
      assert STEP == q * d;
      NoSmallFactor(q, d);
    }
  }

  lemma DrawsCollide(min: nat, max: nat) returns (k: nat)
    requires min < max < WORD && !Coprime(STEP, max - min)
    ensures 0 < k < max - min && STEP * k < WORD && NonceAt(0, min, max) == NonceAt(Later(0, k), min, max)
  {
    var w := max - min;
    var d :| 1 < d && Divides(d, STEP) && Divides(d, w);
    StepIsPrime(d);
    var m :| w == STEP * m;
    k := m;
    NotWrapped(0, k);
    assert w == w * 1;
    SameResidue(0, w, w);
  }

  // ---------- Across a wrap ----------

  /** The number of ticks by which a wrap sets the draws back in a range of width w. */
  lemma WrapShift(w: nat) returns (t: nat)
    requires 0 < w && Coprime(STEP, w)
    ensures t < w && Divides(w, STEP * t - WORD) && (t == 0 <==> Divides(w, WORD))
  {
    var g, u, v := Bezout(STEP, w);
    t := WORD * u % w;
    var q := WORD * u / w;
    assert WORD * u == w * q + t;
    calc {
      STEP * t - WORD;
      { assert STEP * (WORD * u) == WORD * (STEP * u) == WORD * (1 - w * v); }
      w * (-(WORD * v) - STEP * q);
    }
    assert w == w * 1;
    if t == 0 {
      var z :| STEP * t - WORD == w * z;
      assert WORD == w * -z;
    } else if Divides(w, WORD) {
      DividesSum(w, STEP * t - WORD, WORD, 1, 1);
      StepCancels(t, w);
      NotDivides(t, w);
    }
  }

  /** The tick whose unwrapped counter gives the same nonce as tick k does. */
  function Shifted(sn: nat, k: nat, t: nat): int {
    if sn + STEP * k < WORD then k else k - t
  }

  /** Two draws, the second of them perhaps after a wrap, against the draws that never wrap. */
  lemma SameAsUnwrapped(sn: nat, k: nat, j: nat, w: nat, t: nat)
    requires 0 < w && Coprime(STEP, w) && sn < WORD && STEP * k <= WORD && Divides(w, STEP * t - WORD)
    ensures Later(sn, k) % w == (sn + STEP * j) % w <==> Divides(w, Shifted(sn, k, t) - j)
  {
    var a, b := sn + STEP * j, Later(sn, k);
    SameResidue(a, b, w);
    if sn + STEP * k < WORD {
      NotWrapped(sn, k);
      assert b - a == STEP * (k - j);
      StepCancels(k - j, w);
    } else {
      WrappedOnce(sn, k);
      assert b - a == STEP * (k - t - j) + (STEP * t - WORD);
      StepCancels(k - t - j, w);
      if Divides(w, b - a) {
        DividesSum(w, b - a, STEP * t - WORD, 1, -1);
      }
      if Divides(w, STEP * (k - t - j)) {
        DividesSum(w, STEP * (k - t - j), STEP * t - WORD, 1, 1);
      }
    }
  }

  /**
   * Over a wrap the law on two draws holds iff the width divides 2^64 as well: a range in which as many draws
   * as it is wide wrap once at most.
   */
  lemma DrawsDifferOverWrap(min: nat, max: nat)
    requires min < max && Coprime(STEP, max - min) && STEP * (max - min) <= WORD
    ensures Divides(max - min, WORD) <==>
            forall sn: nat, k: nat :: sn < WORD && 0 < k < max - min ==>
              NonceAt(sn, min, max) != NonceAt(Later(sn, k), min, max)
  {
    var w := max - min;
    var t := WrapShift(w);
    if t == 0 {
      forall sn: nat, k: nat | sn < WORD && 0 < k < w
        ensures NonceAt(sn, min, max) != NonceAt(Later(sn, k), min, max)
      {
        StepGrows(k, w);
        SameAsUnwrapped(sn, k, 0, w, t);
        NotDivides(k, w);
      }
    } else {
      StepGrows(t, w);
      SameAsUnwrapped(WORD - 1, t, 0, w, t);
      assert 0 == w * 0;
      assert NonceAt(WORD - 1, min, max) == NonceAt(Later(WORD - 1, t), min, max);
    }
  }

  lemma StepGrows(k: nat, w: nat)
    requires k <= w
    ensures STEP * k <= STEP * w
  {
  }

  // ---------- As many draws as the range is wide ----------

  /** Without a wrap they give every nonce of the range. */
  lemma UnwrappedCover(sn: nat, min: nat, max: nat, n: nat) returns (k: nat)
    requires min <= n < max && Coprime(STEP, max - min)
    ensures k < max - min && (sn + STEP * k) % (max - min) == n - min
  {
    var w := max - min;
    var g, u, v := Bezout(STEP, w);
    var t := n - min - sn;
    k := t * u % w;
    var q := t * u / w;
    assert t * u == w * q + k;
    calc {
      sn + STEP * k;
      sn + STEP * (t * u - w * q);
      { assert STEP * (t * u) == t * (STEP * u) == t * (1 - w * v); }
      sn + t + w * (-(t * v) - STEP * q);
    }
    SameRemainder(n - min, -(t * v) - STEP * q, w);
    SmallRemainder(n - min, w);
  }

  lemma SmallRemainder(a: nat, w: nat)
    requires a < w
    ensures a % w == a
  {
  }

  /** The draw from sn on, sn included, that gives n. */
  ghost predicate Drawn(sn: nat, min: nat, max: nat, n: nat)
    requires min < max
  {
    exists k: nat :: k < max - min && NonceAt(Later(sn, k), min, max) == n
  }

  lemma Covered(sn: nat, min: nat, max: nat, n: nat)
    requires min <= n < max && Coprime(STEP, max - min) && STEP * (max - min) <= WORD && sn < WORD
    requires sn + STEP * (max - min - 1) < WORD || Divides(max - min, WORD)
    ensures Drawn(sn, min, max, n)
  {
    var w := max - min;
    var k := UnwrappedCover(sn, min, max, n);
    var t := WrapShift(w);
    StepGrows(k, w);
    StepGrows(k, w - 1);
    SameAsUnwrapped(sn, k, k, w, t);
    assert 0 == w * 0;
    assert NonceAt(Later(sn, k), min, max) == n;
  }

  /** With a wrap that shifts the draws by t ticks, the draws before it and after it leave out tick j. */
  lemma MissedTick(sn: nat, w: int, t: nat) returns (j: nat)
    requires 0 < t < w && sn < WORD <= sn + STEP * (w - 1)
    ensures j < w && forall k :: 0 <= k < w ==> -w < Shifted(sn, k, t) - j < 0 || 0 < Shifted(sn, k, t) - j < w
  {
    var m := (WORD - 1 - sn) / STEP;
    assert sn + STEP * m < WORD <= sn + STEP * (m + 1);
    assert m < w - 1;
    j := if t - 1 <= m then w - 1 else if m + 1 <= w - t then w - t else m + 1;
    forall k | 0 <= k < w
      ensures -w < Shifted(sn, k, t) - j < 0 || 0 < Shifted(sn, k, t) - j < w
    {
      assert sn + STEP * k < WORD <==> k <= m;
    }
  }

  lemma Missed(sn: nat, min: nat, max: nat) returns (n: nat)
    requires min < max && Coprime(STEP, max - min) && STEP * (max - min) <= WORD
    requires sn < WORD <= sn + STEP * (max - min - 1) && !Divides(max - min, WORD)
    ensures min <= n < max && !Drawn(sn, min, max, n)
  {
    var w := max - min;
    var t := WrapShift(w);
    var j := MissedTick(sn, w, t);
    n := (sn + STEP * j) % w + min;
    forall k: nat | k < w
      ensures NonceAt(Later(sn, k), min, max) != n
    {
      StepGrows(k, w);
      SameAsUnwrapped(sn, k, j, w, t);
      NotDivides(Shifted(sn, k, t) - j, w);
    }
  }

  /** They give every nonce of the range iff the counter does not wrap among them or the width divides 2^64. */
  lemma DrawsCoverIff(sn: nat, min: nat, max: nat)
    requires min < max && Coprime(STEP, max - min) && STEP * (max - min) <= WORD && sn < WORD
    ensures (forall n :: min <= n < max ==> Drawn(sn, min, max, n)) <==>
            sn + STEP * (max - min - 1) < WORD || Divides(max - min, WORD)
  {
    if sn + STEP * (max - min - 1) < WORD || Divides(max - min, WORD) {
      forall n | min <= n < max
        ensures Drawn(sn, min, max, n)
      {
        Covered(sn, min, max, n);
      }
    } else {
      var n := Missed(sn, min, max);
    }
  }

  // ---------- The ranges of the solvers ----------

  const NONCEMIN: nat := 30000000
  const NONCEMAX: nat := 99999999 + 1
  const MAXSLV: nat := 4

  /** init_mining: nmin and nmax of solver i. */
  function Range(i: nat): (nat, nat)
    requires i < MAXSLV
  {
    var r := (NONCEMAX - NONCEMIN) / MAXSLV;
    (NONCEMIN + i * r, NONCEMIN + i * r + r)
  }

  predicate InRange(i: nat, n: nat) {
    i < MAXSLV && Range(i).0 <= n < Range(i).1
  }

  /** The step has no factor in common with the widths the miner uses. */
  lemma MiningWidthIsCoprime(i: nat)
    requires i < MAXSLV
    ensures Range(i).0 < Range(i).1 && Coprime(STEP, Range(i).1 - Range(i).0)
    ensures STEP * (Range(i).1 - Range(i).0) <= WORD
  {
    CoprimeIsOne(STEP, 17500000, -5222747, 1169);
  }

  /** They do not divide 2^64, so over a wrap two draws of a solver can agree. */
  lemma MiningDrawsOverWrap(i: nat)
    requires i < MAXSLV
    ensures !Divides(Range(i).1 - Range(i).0, WORD)
    ensures exists sn: nat, k: nat :: sn < WORD && 0 < k < Range(i).1 - Range(i).0 &&
              NonceAt(sn, Range(i).0, Range(i).1) == NonceAt(Later(sn, k), Range(i).0, Range(i).1)
  {
    MiningWidthIsCoprime(i);
    assert WORD % 17500000 != 0 % 17500000;
    SameResidue(0, WORD, 17500000);
    DrawsDifferOverWrap(Range(i).0, Range(i).1);
  }

  /** The solvers share out all nonces from NONCEMIN to NONCEMAX: each belongs to one range. */
  lemma RangesPartition(n: nat)
    requires 30000000 <= n <= 99999999
    ensures exists i :: InRange(i, n)
    ensures forall i, j :: InRange(i, n) && InRange(j, n) ==> i == j
  {
    var i := (n - NONCEMIN) / 17500000;
    assert InRange(i, n);
  }
}
