/** Bytes and 32-bit words in memory, and which of them a store leaves alone. */
module Memory {
  import opened Bits

  /** Nothing outside [lo, hi) differs. */
  ghost predicate SameOutside(m: seq<u8>, m': seq<u8>, lo: nat, hi: nat) {
    |m| == |m'| && forall i :: 0 <= i < |m| && !(lo <= i < hi) ==> m'[i] == m[i]
  }

  /** Nothing outside the n bytes at a and the k bytes at b differs. */
  ghost predicate SameBut(m: seq<u8>, m': seq<u8>, a: nat, n: nat, b: nat, k: nat) {
    |m| == |m'| && forall i :: 0 <= i < |m| && !(a <= i < a + n) && !(b <= i < b + k) ==> m'[i] == m[i]
  }

  /** Nothing below an address differs. */
  ghost predicate SameBelow(m: seq<u8>, m': seq<u8>, limit: nat) {
    |m| == |m'| && forall i :: 0 <= i < |m| && i < limit ==> m'[i] == m[i]
  }

  lemma ButIsBelow(m: seq<u8>, m': seq<u8>, a: nat, n: nat, b: nat, k: nat, limit: nat)
    requires SameBut(m, m', a, n, b, k) && limit <= a && limit <= b
    ensures SameBelow(m, m', limit)
  {
  }

  lemma BelowTwice(m: seq<u8>, m': seq<u8>, m'': seq<u8>, limit: nat, more: nat)
    requires SameBelow(m, m', limit) && SameBelow(m', m'', more) && limit <= more
    ensures SameBelow(m, m'', limit)
  {
  }

  lemma ZerosBelow(m: seq<u8>, m': seq<u8>, a: nat, n: nat, limit: nat)
    requires SameBelow(m, m', limit) && a + n <= limit && forall i :: a <= i < a + n && i < |m| ==> m[i] == 0
    ensures forall i :: a <= i < a + n && i < |m'| ==> m'[i] == 0
  {
  }

  lemma OutsideWord(m: seq<u8>, m': seq<u8>, lo: nat, hi: nat, a: nat)
    requires SameOutside(m, m', lo, hi) && (a + 4 <= lo || hi <= a)
    ensures Word(m', a) == Word(m, a)
  {
    SameWord(m, m', a);
  }

  lemma BelowWord(m: seq<u8>, m': seq<u8>, limit: nat, a: nat)
    requires SameBelow(m, m', limit) && a + 4 <= limit
    ensures Word(m', a) == Word(m, a)
  {
    SameWord(m, m', a);
  }

  /** Storing a 32-bit word into memory. */
  method StoreWord(mem: array<u8>, a: nat, w: nat)
    requires a + 4 <= mem.Length && w < U32_LIMIT
    modifies mem
    ensures Word(mem[..], a) == w && SameOutside(old(mem[..]), mem[..], a, a + 4)
  {
    BytesOfWord(w);
    mem[a], mem[a + 1] := WordByte(w, 0), WordByte(w, 1);
    mem[a + 2], mem[a + 3] := WordByte(w, 2), WordByte(w, 3);
  }

  method LoadWord(mem: array<u8>, a: nat) returns (w: nat)
    requires a + 4 <= mem.Length
    ensures w == Word(mem[..], a)
  {
    var b0: nat, b1: nat, b2: nat, b3: nat := mem[a], mem[a + 1], mem[a + 2], mem[a + 3];
    w := b0 + 0x100 * b1 + 0x10000 * b2 + 0x1000000 * b3;
  }
}
