/** Decimal text: u64str, strnrev and mku64str, and the number a text stands for. */
module Decimal {
  import opened SortOrder
  import opened Words
  import opened XorSwap

  newtype byte = x: int | 0 <= x < 256

  const ZERO: byte := 48
  const U64STRLEN: nat := 20

  type Text = seq<byte>

  // ---------- Numbers and their digits ----------

  /** The decimal digits of v, most significant first; zero has none. */
  function Digits(v: nat): (s: Text) {
    if v == 0 then [] else Digits(v / 10) + [ZERO + (v % 10) as byte]
  }

  predicate IsNumeral(s: Text) {
    (forall i :: 0 <= i < |s| ==> ZERO <= s[i] < ZERO + 10) && (s != [] ==> s[0] != ZERO)
  }

  /** The number a text of digits stands for. */
  function Parse(s: Text): int {
    if s == [] then 0 else 10 * Parse(s[..|s| - 1]) + (s[|s| - 1] as int - ZERO as int)
  }

  lemma {:induction false} ParseDigits(v: nat)
    ensures Parse(Digits(v)) == v && IsNumeral(Digits(v))
    ensures v != 0 ==> Digits(v) != []
  {
    if v != 0 {
      ParseDigits(v / 10);
      assert Digits(v)[..|Digits(v)| - 1] == Digits(v / 10);
    }
  }

  /** Digits and Parse are inverse: every numeral is the text of the number it stands for. */
  lemma {:induction false} DigitsParse(s: Text)
    requires IsNumeral(s)
    ensures 0 <= Parse(s) && Digits(Parse(s)) == s
  {
    if s != [] {
      var n := |s| - 1;
      var init, d := s[..n], s[n] as int - ZERO as int;
      DigitsParse(init);
      var v := Parse(s);
      assert v == 10 * Parse(init) + d && v / 10 == Parse(init) && v % 10 == d;
      assert s == init + [s[n]];
    }
  }

  function Pow10(n: nat): (p: nat)
    ensures 0 < p
  {
    if n == 0 then 1 else 10 * Pow10(n - 1)
  }

  /** A number has at most n digits just when it is below 10^n. */
  lemma {:induction false} DigitCount(v: nat, n: nat)
    ensures |Digits(v)| <= n <==> v < Pow10(n)
  {
    if v != 0 && n != 0 {
      DigitCount(v / 10, n - 1);
    }
  }

  /** The digit at place i, counted from the left, is that of the power of ten with as many zeros as places follow. */
  lemma {:induction false} DigitAt(v: nat, i: nat)
    requires i < |Digits(v)|
    ensures Digits(v)[i] as int == '0' as int + v / Pow10(|Digits(v)| - 1 - i) % 10
  {
    var m := |Digits(v)| - 1 - i;
    DigitsEnd(v);
    if m != 0 {
      DigitAt(v / 10, i);
      QuotientOfQuotient(v, Pow10(m - 1));
      hide Digits;
      assert Pow10(m) == 10 * Pow10(m - 1);
    } else {
      hide Digits;
    }
  }

  lemma DigitsEnd(v: nat)
    requires Digits(v) != []
    ensures v != 0 && Digits(v) == Digits(v / 10) + [('0' as int + v % 10) as byte]
  {
  }

  lemma QuotientOfQuotient(v: nat, d: nat)
    requires 0 < d
    ensures v / 10 / d == v / (10 * d)
  {
    var q, r, s := v / 10 / d, v / 10 % d, v % 10;
    assert v == 10 * (v / 10) + s && v / 10 == d * q + r;
    assert v == 10 * d * q + (10 * r + s) && 0 <= 10 * r + s < 10 * d;
    UniqueQuotient(v, 10 * d, q, 10 * r + s);
  }

  lemma UniqueQuotient(v: nat, d: nat, q: nat, r: nat)
    requires v == d * q + r && r < d
    ensures v / d == q
  {
    var p, t := v / d, v % d;
    assert v == d * p + t;
    assert d * (q - p) == t - r;
    SmallMultiple(q - p, d);
  }

  /** No 64-bit number needs more than U64STRLEN digits. */
  lemma WordDigits(v: uint64)
    ensures |Digits(v as nat)| <= 20 == U64STRLEN
  {
    DigitCount(v as nat, 20);
    assert Pow10(5) == 1_00000;
    assert Pow10(10) == 1_00000_00000 by { Pow10Sum(5, 5); }
    assert Pow10(20) == 1_00000_00000_00000_00000 by { Pow10Sum(10, 10); }
  }

  lemma {:induction false} Pow10Sum(m: nat, n: nat)
    ensures Pow10(m + n) == Pow10(m) * Pow10(n)
  {
    if m != 0 {
      Pow10Sum(m - 1, n);
    }
  }

  // ---------- Reversal ----------

  function Reversed(s: Text): (r: Text)
    ensures |r| == |s|
    ensures forall i :: 0 <= i < |s| ==> r[i] == s[|s| - 1 - i]
  {
    if s == [] then [] else Reversed(s[1..]) + [s[0]]
  }

  function XorByte(x: byte, y: byte): byte {
    assert Pow2(8) == 256;
    XorBits(x as nat, y as nat, 8) as byte
  }

  lemma XorByteCancel(x: byte, y: byte)
    ensures XorByte(XorByte(x, y), y) == x && XorByte(XorByte(x, y), x) == y && XorByte(x, y) == XorByte(y, x)
  {
    assert Pow2(8) == 256;
    XorBitsCancel(x as nat, y as nat, 8);
    XorBitsSymmetric(x as nat, y as nat, 8);
  }

  /** Three exclusive-ors exchange two different bytes. */
  method ExchangeBytes(b: array<byte>, i: nat, j: nat)
    requires i < b.Length && j < b.Length && i != j
    modifies b
    ensures b[i] == old(b[j]) && b[j] == old(b[i])
    ensures forall k :: 0 <= k < b.Length && k != i && k != j ==> b[k] == old(b[k])
  {
    hide XorByte;
    b[i] := XorByte(b[i], b[j]);
    b[j] := XorByte(b[j], b[i]);
    b[i] := XorByte(b[i], b[j]);
    XorByteCancel(old(b[i]), old(b[j]));
    XorByteCancel(old(b[j]), XorByte(old(b[i]), old(b[j])));
  }

  /** strnrev: reverses the l bytes from o on. */
  method StrNRev(b: array<byte>, o: nat, l: nat)
    requires o + l <= b.Length
    modifies b
    ensures forall k :: o <= k < o + l ==> b[k] == old(b[2 * o + l - 1 - k])
    ensures forall k :: 0 <= k < o || o + l <= k < b.Length ==> b[k] == old(b[k])
  {
    var p, e := l / 2, l - 1;
    var i := 0;
    while i < p
      invariant 0 <= i <= p
      invariant forall k :: 0 <= k < b.Length && !(o <= k < o + i || o + l - i <= k < o + l) ==> b[k] == old(b[k])
      invariant forall k :: o <= k < o + i || o + l - i <= k < o + l ==> b[k] == old(b[2 * o + l - 1 - k])
    {
      ExchangeBytes(b, o + i, o + e - i);
      i := i + 1;
    }
  }

  // ---------- Printing ----------

  /** u64str: writes the digits of val at o. */
  method U64Str(val: uint64, buf: array<byte>, o: nat) returns (i: nat)
    requires o + |Digits(val as nat)| <= buf.Length
    modifies buf
    ensures i == |Digits(val as nat)| && buf[o..o + i] == Digits(val as nat)
    ensures forall k :: 0 <= k < o || o + i <= k < buf.Length ==> buf[k] == old(buf[k])
  {
    hide Digits;
    ghost var goal := Digits(val as nat);
    ghost var done: Text := [];  // the digits written so far, last one first
    var v := val;
    i := 0;
    Extremes();
    while v != 0
      invariant o + i + |Digits(v as nat)| <= buf.Length
      invariant i == |done| && goal == Digits(v as nat) + Reversed(done)
      invariant forall k :: 0 <= k < i ==> done[k] == buf[o + k]
      invariant forall k :: 0 <= k < o || o + i <= k < buf.Length ==> buf[k] == old(buf[k])
      decreases v
    {
      var d := ZERO + (v % 10) as byte;
      DigitStep(v);
      ReversedStep(done, d);
      buf[o + i] := d;
      v := v / 10;
      assert Digits(v as nat) + [d] + Reversed(done) == Digits(v as nat) + ([d] + Reversed(done));
      done := done + [d];
      i := i + 1;
    }
    StrNRev(buf, o, i);
    assert forall k :: 0 <= k < i ==> buf[o + k] == Reversed(done)[k];
  }

  lemma Extremes()
    ensures Digits(0) == [] && Reversed([]) == []
  {
  }

  lemma DigitStep(v: uint64)
    requires v != 0
    ensures Digits(v as nat) == Digits((v / 10) as nat) + [ZERO + (v % 10) as byte]
  {
  }

  lemma ReversedStep(s: Text, d: byte)
    ensures Reversed(s + [d]) == [d] + Reversed(s)
  {
  }

  /** The texts of the numbers one after the other. */
  function Concatenated(nums: seq<uint64>): (s: Text) {
    if nums == [] then [] else Concatenated(nums[..|nums| - 1]) + Digits(nums[|nums| - 1] as nat)
  }

  lemma ConcatenatedEnd(nums: seq<uint64>)
    requires nums != []
    ensures Concatenated(nums) == Concatenated(nums[..|nums| - 1]) + Digits(nums[|nums| - 1] as nat)
  {
  }

  lemma ConcatenatedOne(v: uint64)
    ensures Concatenated([v]) == Digits(v as nat)
  {
    assert [v][..0] == [];
  }

  /** The text of two lists one after the other is the text of the first and then that of the second. */
  lemma {:induction false} ConcatenatedSplits(a: seq<uint64>, b: seq<uint64>)
    ensures Concatenated(a + b) == Concatenated(a) + Concatenated(b)
  {
    if b == [] {
      assert a + b == a;
    } else {
      var m := |b| - 1;
      ConcatenatedSplits(a, b[..m]);
      ConcatenatedEnd(a + b);
      ConcatenatedEnd(b);
      hide Concatenated, Digits;
      assert (a + b)[..|a + b| - 1] == a + b[..m];
      var init, last := Concatenated(b[..m]), Digits(b[m] as nat);
      assert Concatenated(a) + init + last == Concatenated(a) + (init + last);
    }
  }

  lemma {:induction false} ConcatenatedFits(nums: seq<uint64>)
    ensures |Concatenated(nums)| <= U64STRLEN * |nums|
  {
    if nums != [] {
      ConcatenatedFits(nums[..|nums| - 1]);
      WordDigits(nums[|nums| - 1]);
    }
  }

  /** mku64str: the texts of all numbers and a NUL, in a buffer of the size sortlist_resize allocates. */
  method MkU64Str(buf: array<uint64>, dst: array<byte>) returns (o: nat)
    requires (buf.Length + 1) * U64STRLEN <= dst.Length
    modifies dst
    ensures o < dst.Length && dst[..o] == Concatenated(buf[..]) && dst[o] == 0
  {
    ghost var nums := buf[..];
    o := 0;
    var i := 0;
    while i < buf.Length
      invariant 0 <= i <= buf.Length
      invariant o <= U64STRLEN * i && dst[..o] == Concatenated(nums[..i])
    {
      WordDigits(buf[i]);
      assert nums[..i + 1][..i] == nums[..i];
      ghost var done := dst[..o];
      var l := U64Str(buf[i], dst, o);
      assert dst[..o + l] == done + Digits(nums[i] as nat);
      o := o + l;
      i := i + 1;
    }
    assert nums[..i] == nums;
    dst[o] := 0;
  }
}
