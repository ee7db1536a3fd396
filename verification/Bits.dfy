/** The bit operations of 32-bit code on natural numbers, and what they mean as arithmetic. */
module Bits {

  type u8 = x: int | 0 <= x < 256

  const U32_LIMIT: nat := 0x1_0000_0000

  function BitOr(x: nat, y: nat): nat
    decreases x + y
  {
    if x == 0 && y == 0 then 0
    else (if x % 2 == 1 || y % 2 == 1 then 1 else 0) + 2 * BitOr(x / 2, y / 2)
  }

  function BitAnd(x: nat, y: nat): nat
    decreases x + y
  {
    if x == 0 || y == 0 then 0
    else (if x % 2 == 1 && y % 2 == 1 then 1 else 0) + 2 * BitAnd(x / 2, y / 2)
  }

  function Pow2(n: nat): (p: nat)
    ensures p > 0
  {
    if n == 0 then 1 else 2 * Pow2(n - 1)
  }

  lemma {:induction false} OrZero(x: nat)
    ensures BitOr(x, 0) == x
  {
    if x != 0 { OrZero(x / 2); }
  }

  lemma OrStep(x: nat, d: nat)
    ensures BitOr(2 * x, 2 * d + 1) == 2 * BitOr(x, d) + 1
  {
  }

  /** Setting the three low bits of a multiple of 8. */
  lemma OrSeven(x: nat)
    ensures BitOr(8 * x, 7) == 8 * x + 7
  {
    OrStep(4 * x, 3);
    OrStep(2 * x, 1);
    OrStep(x, 0);
    OrZero(x);
  }

  /** Or-ing a number below 2^n into a multiple of 2^n adds it. */
  lemma {:induction false} OrIsSum(x: nat, d: nat, n: nat)
    requires d < Pow2(n)
    ensures BitOr(Pow2(n) * x, d) == Pow2(n) * x + d
  {
    if n == 0 {
      OrZero(x);
    } else {
      var y := Pow2(n - 1) * x;
      assert Pow2(n) * x == 2 * y;
      OrIsSum(x, d / 2, n - 1);
    }
  }

  /** A mask of n ones keeps a number below 2^n. */
  lemma {:induction false} AndOnes(x: nat, n: nat)
    requires x < Pow2(n)
    ensures BitAnd(x, Pow2(n) - 1) == x
  {
    if n > 0 {
      AndOnes(x / 2, n - 1);
      assert (Pow2(n) - 1) / 2 == Pow2(n - 1) - 1;
    }
  }

  lemma AndDoubled(x: nat, b: nat, y: nat)
    requires b < 2
    ensures BitAnd(2 * x + b, 2 * y) == 2 * BitAnd(x, y)
  {
    assert (2 * x + b) / 2 == x && 2 * y / 2 == y;
  }

  lemma TwoTimes(p: nat, q: nat)
    ensures (2 * p) * q == 2 * (p * q)
  {
  }

  /** n zeros at the bottom of a mask clear the low n bits and hand the rest to the rest of the mask. */
  lemma {:induction false} AndShifted(q: nat, r: nat, m: nat, n: nat)
    requires r < Pow2(n)
    ensures BitAnd(Pow2(n) * q + r, Pow2(n) * m) == Pow2(n) * BitAnd(q, m)
    decreases n
  {
    if n > 0 {
      hide BitAnd;
      var p := Pow2(n - 1);
      assert Pow2(n) == 2 * p;
      hide Pow2;
      var x, y, z := p * q + r / 2, p * m, BitAnd(q, m);
      AndShifted(q, r / 2, m, n - 1);
      AndDoubled(x, r % 2, y);
      TwoTimes(p, q);
      TwoTimes(p, m);
      TwoTimes(p, z);
      assert (2 * p) * q + r == 2 * x + r % 2;
    }
  }

  /** `address & 0xFFFFF000` is the start of the address's page, for every 32-bit address. */
  lemma PageMask(x: nat)
    requires x < U32_LIMIT
    ensures BitAnd(x, 0xFFFFF000) == x - x % 0x1000
  {
    assert Pow2(12) == 0x1000;
    assert Pow2(20) == 0x100000 by { assert Pow2(16) == 0x10000; }
    AndShifted(x / 0x1000, x % 0x1000, Pow2(20) - 1, 12);
    AndOnes(x / 0x1000, 20);
  }

  lemma {:induction false} AndLow(q: nat, r: nat, n: nat)
    requires r < Pow2(n)
    ensures BitAnd(Pow2(n) * q + r, Pow2(n) - 1) == r
    decreases n
  {
    if n > 0 {
      var p := Pow2(n - 1);
      AndLow(q, r / 2, n - 1);
      TwoTimes(p, q);
      assert (Pow2(n) * q + r) / 2 == p * q + r / 2 && (Pow2(n) - 1) / 2 == p - 1;
    }
  }

  /** `address & 0xFFF` is the offset of the address in its page. */
  lemma PageOffset(x: nat)
    ensures BitAnd(x, 0xFFF) == x % 0x1000
  {
    assert Pow2(12) == 0x1000;
    AndLow(x / 0x1000, x % 0x1000, 12);
  }

  // ----- words in memory ----------------------------------------------------------------------------

  function Byte(m: seq<u8>, a: nat): nat { if a < |m| then m[a] else 0 }

  /** A little-endian 32-bit word. */
  function Word(m: seq<u8>, a: nat): (w: nat)
    ensures w < U32_LIMIT
  {
    Byte(m, a) + 0x100 * Byte(m, a + 1) + 0x10000 * Byte(m, a + 2) + 0x1000000 * Byte(m, a + 3)
  }

  function WordByte(w: nat, k: nat): u8
    requires k < 4
  {
    (if k == 0 then w else if k == 1 then w / 0x100 else if k == 2 then w / 0x10000 else w / 0x1000000) % 0x100
  }

  lemma BytesOfWord(w: nat)
    requires w < U32_LIMIT
    ensures WordByte(w, 0) + 0x100 * WordByte(w, 1) + 0x10000 * WordByte(w, 2) + 0x1000000 * WordByte(w, 3) == w
  {
  }

  /** A word only depends on its four bytes. */
  lemma SameWord(m: seq<u8>, m': seq<u8>, a: nat)
    requires |m| == |m'| && forall i :: a <= i < a + 4 && i < |m| ==> m'[i] == m[i]
    ensures Word(m', a) == Word(m, a)
  {
  }

  lemma ZeroWord(m: seq<u8>, a: nat)
    requires forall i :: a <= i < a + 4 && i < |m| ==> m[i] == 0
    ensures Word(m, a) == 0
  {
  }

  // ----- magic numbers, most significant byte first -------------------------------------------

  function BigEndian(w: nat): (s: seq<u8>)
    ensures |s| == 4
  {
    [WordByte(w, 3), WordByte(w, 2), WordByte(w, 1), WordByte(w, 0)]
  }

  /** The four bytes at i, read as get_header_or_footer reads them. */
  function MagicAt(s: seq<u8>, i: nat): nat
    requires i + 4 <= |s|
  {
    ((Byte(s, i) * 0x100 + Byte(s, i + 1)) * 0x100 + Byte(s, i + 2)) * 0x100 + Byte(s, i + 3)
  }

  lemma BytesUnique(a: u8, b: u8, c: u8, d: u8, a': u8, b': u8, c': u8, d': u8)
    ensures ((a * 0x100 + b) * 0x100 + c) * 0x100 + d == ((a' * 0x100 + b') * 0x100 + c') * 0x100 + d'
            <==> a == a' && b == b' && c == c' && d == d'
  {
  }

  lemma MagicOfBytes(s: seq<u8>, i: nat, w: nat)
    requires i + 4 <= |s| && w < U32_LIMIT
    ensures MagicAt(s, i) == w <==> s[i..i + 4] == BigEndian(w)
  {
    BytesOfWord(w);
    assert s[i..i + 4] == [s[i], s[i + 1], s[i + 2], s[i + 3]];
    BytesUnique(s[i], s[i + 1], s[i + 2], s[i + 3], WordByte(w, 3), WordByte(w, 2), WordByte(w, 1), WordByte(w, 0));
  }

  lemma {:induction false} OrByte(x: nat, b: u8)
    ensures BitOr(0x100 * x, b) == 0x100 * x + b
  {
    assert Pow2(8) == 0x100;
    OrIsSum(x, b, 8);
  }
}
