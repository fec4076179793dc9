/** The exclusive-or of 64-bit words, and the exchange of two words by three of them. */
module XorSwap {
  import opened SortOrder

  function Pow2(n: nat): (p: nat)
    ensures 0 < p
  {
    if n == 0 then 1 else 2 * Pow2(n - 1)
  }

  /** Bitwise exclusive-or of two n-bit numbers. */
  function XorBits(x: nat, y: nat, n: nat): (z: nat)
    requires x < Pow2(n) && y < Pow2(n)
    ensures z < Pow2(n)
  {
    if n == 0 then 0 else 2 * XorBits(x / 2, y / 2, n - 1) + if x % 2 == y % 2 then 0 else 1
  }

  lemma {:induction false} XorBitsCancel(x: nat, y: nat, n: nat)
    requires x < Pow2(n) && y < Pow2(n)
    ensures XorBits(XorBits(x, y, n), y, n) == x
    ensures XorBits(XorBits(x, y, n), x, n) == y
  {
    if n != 0 {
      XorBitsCancel(x / 2, y / 2, n - 1);
      var z := XorBits(x, y, n);
      assert z / 2 == XorBits(x / 2, y / 2, n - 1) && z % 2 == if x % 2 == y % 2 then 0 else 1;
    }
  }

  lemma {:induction false} XorBitsSymmetric(x: nat, y: nat, n: nat)
    requires x < Pow2(n) && y < Pow2(n)
    ensures XorBits(x, y, n) == XorBits(y, x, n)
  {
    if n != 0 {
      XorBitsSymmetric(x / 2, y / 2, n - 1);
    }
  }

  lemma {:induction false} Pow2Sum(m: nat, n: nat)
    ensures Pow2(m + n) == Pow2(m) * Pow2(n)
  {
    if m != 0 {
      Pow2Sum(m - 1, n);
    }
  }

  lemma WordSize()
    ensures Pow2(64) == 0x1_0000_0000_0000_0000
  {
    assert Pow2(4) == 16;
    Pow2Sum(4, 4);
    assert Pow2(8) == 0x100;
    Pow2Sum(8, 8);
    assert Pow2(16) == 0x1_0000;
    Pow2Sum(16, 16);
    assert Pow2(32) == 0x1_0000_0000;
    Pow2Sum(32, 32);
  }

  function Xor(x: uint64, y: uint64): uint64 {
    WordSize();
    XorBits(x as nat, y as nat, 64) as uint64
  }

  lemma XorCancel(x: uint64, y: uint64)
    ensures Xor(Xor(x, y), y) == x && Xor(Xor(x, y), x) == y && Xor(x, y) == Xor(y, x)
  {
    WordSize();
    XorBitsCancel(x as nat, y as nat, 64);
    XorBitsSymmetric(x as nat, y as nat, 64);
  }

  /** Three exclusive-ors exchange two different elements. */
  method ExchangeInPlace(a: array<uint64>, i: nat, j: nat)
    requires i < a.Length && j < a.Length && i != j
    modifies a
    ensures a[..] == Swap(old(a[..]), i, j)
  {
    a[i] := Xor(a[i], a[j]);
    a[j] := Xor(a[j], a[i]);
    a[i] := Xor(a[i], a[j]);
    XorCancel(old(a[i]), old(a[j]));
    XorCancel(old(a[j]), Xor(old(a[i]), old(a[j])));
  }
}
