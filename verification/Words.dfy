/** Numbers in machine words: how many there are, their minimum, and small multiples. */
module Words {

  /** The number of values of a 64-bit word. */
  const WORD: nat := 0x1_0000_0000_0000_0000

  function Min(a: int, b: int): int {
    if a <= b then a else b
  }

  /** Strictly between -w and w, 0 is the only multiple of w. */
  lemma SmallMultiple(q: int, w: int)
    requires 0 < w
    ensures -w < w * q < w ==> q == 0
  {
    if 1 <= q {
      assert w * q == w + w * (q - 1) && 0 <= w * (q - 1);
    } else if q <= -1 {
      assert w * q == -w + w * (q + 1) && w * (q + 1) <= 0;
    }
  }
}
