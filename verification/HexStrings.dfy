/** Numbers as text: digits are produced backwards, reversed in place, and parsed with shifts. */
module HexStrings {
  import opened Bits

  const NUL: u8 := 0

  // ----- digits ---------------------------------------------------------------------------

  function Digit(d: nat): (c: u8)
    requires d < 16
    ensures c != NUL
  {
    if d < 10 then d + 0x30 else d - 10 + 0x41
  }

  /** What a character counts for in hex_ascii_to_u32, or 16. */
  function DigitValue(c: u8): (d: nat)
    ensures d <= 16
  {
    if 0x2F < c < 0x3A then c - 0x30
    else if 0x40 < c < 0x47 then c - 0x37
    else if 0x60 < c < 0x67 then c - 0x57
    else 16
  }

  /** The digits of v, most significant first, without leading zeros. */
  function Digits(v: nat, base: nat): (s: seq<u8>)
    requires 2 <= base <= 16
    ensures s != [] && forall i :: 0 <= i < |s| ==> s[i] != NUL
    decreases v
  {
    if v < base then [Digit(v)] else Digits(v / base, base) + [Digit(v % base)]
  }

  ghost predicate AllDigits(s: seq<u8>, base: nat) { forall i :: 0 <= i < |s| ==> DigitValue(s[i]) < base }

  /** The number a digit string denotes. */
  function ValueOf(s: seq<u8>, base: nat): nat
    requires AllDigits(s, base)
  {
    if s == [] then 0 else ValueOf(s[..|s| - 1], base) * base + DigitValue(s[|s| - 1])
  }

  function Reversed(s: seq<u8>): (r: seq<u8>)
    ensures |r| == |s| && forall i :: 0 <= i < |s| ==> r[i] == s[|s| - 1 - i]
  {
    seq(|s|, i requires 0 <= i < |s| => s[|s| - 1 - i])
  }

  lemma DigitOf(d: nat)
    requires d < 16
    ensures DigitValue(Digit(d)) == d
  {
  }

  lemma DivMod(v: nat, base: nat)
    requires 2 <= base
    ensures v == v / base * base + v % base && v % base < base
    ensures v / base == 0 <==> v < base
    ensures v >= base ==> v / base < v
  {
  }

  lemma DigitsStep(v: nat, base: nat)
    requires 2 <= base <= 16
    ensures var s := Digits(v, base);
      && s[|s| - 1] == Digit(v % base)
      && (v / base == 0 ==> |s| == 1)
      && (v / base > 0 ==> s[..|s| - 1] == Digits(v / base, base))
  {
    DivMod(v, base);
  }

  /** Reading the digits of a number gives the number. */
  lemma {:induction false} DigitsDenote(v: nat, base: nat)
    requires 2 <= base <= 16
    ensures AllDigits(Digits(v, base), base) && ValueOf(Digits(v, base), base) == v
    decreases v
  {
    DivMod(v, base);
    DigitsStep(v, base);
    DigitOf(v % base);
    var s := Digits(v, base);
    if v >= base {
      DigitsDenote(v / base, base);
      assert s == Digits(v / base, base) + [Digit(v % base)];
      hide Digits, Digit, DigitValue;
      assert s[..|s| - 1] == Digits(v / base, base);
    } else {
      assert s[..0] == [];
    }
  }

  // ----- reversing in place -----------------------------------------------------------------

  /** reverse_string_at: whatever from is, the characters swapped are the first to - from. */
  method ReverseStringAt(a: array<u8>, from: nat, to: nat) returns (status: int)
    requires to <= a.Length
    modifies a
    ensures status == if to < from then -1 else 0
    ensures to < from ==> a[..] == old(a[..])
    ensures from <= to ==> a[..] == Reversed(old(a[..to - from])) + old(a[to - from..])
  {
    var i := to - from;
    if i < 0 { return -1; }
    var j := 0;
    while j < i / 2
      invariant 0 <= j <= i / 2
      invariant forall k :: 0 <= k < j ==> a[k] == old(a[i - 1 - k]) && a[i - 1 - k] == old(a[k])
      invariant forall k :: j <= k < i - j ==> a[k] == old(a[k])
      invariant a[i..] == old(a[i..])
    {
      a[j], a[i - j - 1] := a[i - j - 1], a[j];
      j := j + 1;
    }
    assert a[..i] == Reversed(old(a[..i])) by {
      forall k | 0 <= k < i ensures a[k] == old(a[i - 1 - k]) {
        if k >= j && i - 1 - k < j { assert a[i - 1 - (i - 1 - k)] == old(a[i - 1 - k]); }
      }
    }
    return 0;
  }

  /** What reverse_string_at does to a string, and what its parameters suggest. */
  function ReversedAt(s: seq<u8>, from: nat, to: nat): seq<u8>
    requires from <= to <= |s|
  {
    Reversed(s[..to - from]) + s[to - from..]
  }

  function ReversedBetween(s: seq<u8>, from: nat, to: nat): seq<u8>
    requires from <= to <= |s|
  {
    s[..from] + Reversed(s[from..to]) + s[to..]
  }

  lemma LastReversed(s: seq<u8>, from: nat, to: nat)
    requires 0 < from < to == |s|
    ensures ReversedBetween(s, from, to)[to - 1] == s[from] && ReversedAt(s, from, to)[to - 1] == s[to - 1]
  {
    assert s[from..to][0] == s[from];
  }

  lemma BothReversed(s: seq<u8>, from: nat, to: nat)
    requires from <= to <= |s| && (from == 0 || to - from <= 1)
    ensures ReversedAt(s, from, to) == ReversedBetween(s, from, to)
  {
    if from == 0 {
      assert s[0..to] == s[..to];
    } else {
      assert s == s[..from] + s[from..to] + s[to..];
    }
  }

  /** It reverses [from, to) of every string exactly when from is 0 or there is nothing to swap. */
  lemma ReverseAtExact(from: nat, to: nat)
    requires from <= to
    ensures (forall s: seq<u8> :: to <= |s| ==> ReversedAt(s, from, to) == ReversedBetween(s, from, to))
            <==> from == 0 || to - from <= 1
  {
    hide Reversed, ReversedAt, ReversedBetween;
    if from == 0 || to - from <= 1 {
      forall s: seq<u8> | to <= |s| ensures ReversedAt(s, from, to) == ReversedBetween(s, from, to) {
        BothReversed(s, from, to);
      }
    } else {
      // A single 1 in position from is moved to the other end of the range, or not at all.
      var s := seq(to, i => if i == from then 1 else 0 as u8);
      LastReversed(s, from, to);
      assert s[from] == 1 && s[to - 1] == 0;
    }
  }

  /** The length of the string in a buffer. */
  function StringLength(s: seq<u8>): (n: nat)
    ensures n <= |s|
    ensures n < |s| ==> s[n] == NUL
    ensures forall i :: 0 <= i < n ==> s[i] != NUL
  {
    if s == [] || s[0] == NUL then 0 else 1 + StringLength(s[1..])
  }

  /** reverse_string */
  method ReverseString(a: array<u8>)
    requires StringLength(a[..]) < a.Length
    modifies a
    ensures var n := old(StringLength(a[..])); a[..] == Reversed(old(a[..n])) + old(a[n..])
  {
    var i := 0;
    while a[i] != NUL
      invariant i <= StringLength(a[..])
      decreases a.Length - i
    {
      i := i + 1;
    }
    assert i == StringLength(a[..]);
    var _ := ReverseStringAt(a, 0, i);
  }

  // ----- printing --------------------------------------------------------------------------

  function Power(b: nat, n: nat): nat { if n == 0 then 1 else b * Power(b, n - 1) }

  lemma PowerOne(base: nat)
    ensures Power(base, 1) == base
  {
    assert Power(base, 0) == 1;
  }

  lemma Monotone(x: nat, y: nat, b: nat)
    requires x <= y
    ensures b * x <= b * y
  {
  }

  lemma QuotientTimes(v: nat, b: nat)
    requires 0 < b
    ensures b * (v / b) <= v
  {
  }

  lemma QuotientBelow(v: nat, b: nat, m: nat)
    requires 0 < b && v < b * m
    ensures v / b < m
  {
    QuotientTimes(v, b);
    if m <= v / b { Monotone(m, v / b, b); }
  }

  lemma DigitCount(v: nat, base: nat, n: nat)
    requires 2 <= base <= 16 && 0 < n && v < Power(base, n)
    ensures |Digits(v, base)| <= n
    decreases n
  {
    DigitsStep(v, base);
    DivMod(v, base);
    if n == 1 {
      PowerOne(base);
    } else if v >= base {
      QuotientBelow(v, base, Power(base, n - 1));
      DigitCount(v / base, base, n - 1);
    }
  }

  lemma LastOfPrefix(s: seq<u8>, n: nat)
    requires 0 < n <= |s|
    ensures s[..n][n - 1] == s[n - 1] && s[..n][..n - 1] == s[..n - 1]
  {
  }

  /** Position i from the end of the digits holds the next digit, and what is left of the number the rest. */
  lemma DigitAt(all: seq<u8>, i: nat, rest: nat, base: nat)
    requires 2 <= base <= 16 && i <= |all| && all[..|all| - i] == Digits(rest, base)
    ensures i < |all| && all[|all| - 1 - i] == Digit(rest % base)
    ensures rest / base == 0 ==> i + 1 == |all|
    ensures rest / base > 0 ==> all[..|all| - (i + 1)] == Digits(rest / base, base)
    ensures 0 < rest ==> rest / base < rest
  {
    DigitsStep(rest, base);
    DivMod(rest, base);
    hide Digits, Digit;
    LastOfPrefix(all, |all| - i);
  }

  /** The first i positions hold digits from the end on, and nothing else has changed. */
  ghost predicate DigitsWritten(before: seq<u8>, now: seq<u8>, all: seq<u8>, i: nat) {
    && i <= |all| <= |before| == |now|
    && (forall k :: 0 <= k < i ==> now[k] == all[|all| - 1 - k])
    && (forall k :: i <= k < |before| ==> now[k] == before[k])
  }

  lemma DigitsOneMore(before: seq<u8>, now: seq<u8>, all: seq<u8>, i: nat, c: u8)
    requires DigitsWritten(before, now, all, i) && i < |all| && c == all[|all| - 1 - i]
    ensures DigitsWritten(before, now[i := c], all, i + 1)
  {
  }

  lemma AllDigitsWritten(before: seq<u8>, now: seq<u8>, all: seq<u8>)
    requires DigitsWritten(before, now, all, |all|)
    ensures now == Reversed(all) + before[|all|..]
  {
  }

  lemma NoDigitWritten(before: seq<u8>, all: seq<u8>)
    requires |all| <= |before|
    ensures DigitsWritten(before, before, all, 0) && all[..|all| - 0] == all
  {
  }

  /** The digit loop: the digits of v, least significant first, from position 0 on. */
  method WriteDigits(v: nat, base: nat, a: array<u8>) returns (i: nat)
    requires 2 <= base <= 16 && |Digits(v, base)| <= a.Length
    modifies a
    ensures i == |Digits(v, base)| && a[..] == Reversed(Digits(v, base)) + old(a[i..])
  {
    hide Digit, Digits, Reversed, DigitsWritten;
    ghost var all, before, now := Digits(v, base), a[..], a[..];
    NoDigitWritten(before, all);
    DigitAt(all, 0, v, base);
    DigitsOneMore(before, now, all, 0, Digit(v % base));
    i := 0;
    var rest: nat := v;
    a[i] := Digit(rest % base);
    now := now[i := Digit(rest % base)];
    i, rest := 1, rest / base;
    while rest > 0
      invariant i <= |all| && (rest == 0 ==> i == |all|)
      invariant rest > 0 ==> all[..|all| - i] == Digits(rest, base)
      invariant a[..] == now && DigitsWritten(before, now, all, i)
      decreases rest
    {
      DigitAt(all, i, rest, base);
      DigitsOneMore(before, now, all, i, Digit(rest % base));
      a[i] := Digit(rest % base);
      now := now[i := Digit(rest % base)];
      i, rest := i + 1, rest / base;
    }
    AllDigitsWritten(before, now, all);
  }

  /** Text in front of a position, and one character put there. */
  lemma PutAt(s: seq<u8>, t: seq<u8>, c: u8)
    requires |t| < |s| && t <= s
    ensures t + [c] <= s[|t| := c]
  {
  }

  const X: u8 := 0x78
  const ZERO: u8 := 0x30
  const MINUS: u8 := 0x2D

  function HexText(v: nat): seq<u8> { [ZERO, X] + Digits(v, 16) }

  lemma HexDigitCount(v: nat)
    requires v < U32_LIMIT
    ensures |Digits(v, 16)| <= 8
  {
    assert Power(16, 4) == 0x10000;
    assert Power(16, 8) == 16 * (16 * (16 * (16 * Power(16, 4))));
    DigitCount(v, 16, 8);
  }

  /** A string without NUL in front of a NUL is found whole. */
  lemma StringLengthIs(s: seq<u8>, t: seq<u8>)
    requires t < s && s[|t|] == NUL && forall i :: 0 <= i < |t| ==> t[i] != NUL
    ensures StringLength(s) == |t|
  {
    assert forall i :: 0 <= i < |t| ==> s[i] == t[i];
  }

  /** Digits written backwards, with what is appended to them, read forwards once reversed. */
  lemma TextHasNoNul(digits: seq<u8>, rest: seq<u8>)
    requires forall i :: 0 <= i < |digits| ==> digits[i] != NUL
    requires forall i :: 0 <= i < |rest| ==> rest[i] != NUL
    ensures var text := Reversed(digits) + rest;
      Reversed(text) == Reversed(rest) + digits && forall i :: 0 <= i < |text| ==> text[i] != NUL
  {
  }

  /** What reverse_string leaves of a text and its NUL. */
  lemma TextReversed(before: seq<u8>, after: seq<u8>, text: seq<u8>)
    requires text < before && before[|text|] == NUL
    requires after == Reversed(before[..|text|]) + before[|text|..]
    ensures Reversed(text) + [NUL] <= after
  {
    assert before[..|text|] == text;
  }

  lemma ReversedPair(x: u8, y: u8)
    ensures Reversed([x, y]) == [y, x] && Reversed([x]) == [x] && Reversed([]) == []
  {
  }

  /** u32_to_hex_ascii */
  method U32ToHexAscii(v: nat, a: array<u8>)
    requires v < U32_LIMIT && 11 <= a.Length
    modifies a
    ensures HexText(v) + [NUL] <= a[..]
  {
    hide Digits, Reversed, StringLength;
    HexDigitCount(v);
    var i := WriteDigits(v, 16, a);
    ghost var digits, s := Reversed(Digits(v, 16)), a[..];
    PutAt(s, digits, X);
    PutAt(s[i := X], digits + [X], ZERO);
    PutAt(s[i := X][i + 1 := ZERO], digits + [X] + [ZERO], NUL);
    s := s[i := X][i + 1 := ZERO][i + 2 := NUL];
    a[i] := X;
    i := i + 1;
    a[i] := ZERO;
    i := i + 1;
    a[i] := NUL;
    assert a[..] == s && digits + [X] + [ZERO] == digits + [X, ZERO];
    TextHasNoNul(Digits(v, 16), [X, ZERO]);
    StringLengthIs(s, digits + [X, ZERO]);
    ReversedPair(X, ZERO);
    ReverseString(a);
    TextReversed(s, a[..], digits + [X, ZERO]);
  }

  // ----- parsing ---------------------------------------------------------------------------

  /** What one character makes of the value so far: a 32-bit shift and an or. */
  function ShiftIn(value: nat, d: nat): nat { BitOr(value * 0x10 % U32_LIMIT, d) }

  /** hex_ascii_to_u32 from position i on, with the value so far. */
  function ParseFrom(s: seq<u8>, value: nat): nat {
    if s == [] then value
    else if DigitValue(s[0]) == 16 then U32_LIMIT - 1
    else ParseFrom(s[1..], ShiftIn(value, DigitValue(s[0])))
  }

  lemma TerminatedLength(a: seq<u8>, s: seq<u8>)
    requires 2 <= |a| && s == a[2..] && exists n :: 2 <= n < |a| && a[n] == NUL
    ensures StringLength(s) < |s|
  {
    var n :| 2 <= n < |a| && a[n] == NUL;
    assert s[n - 2] == NUL;
  }

  /** hex_ascii_to_u32: the characters behind the first two, up to the NUL. */
  method HexAsciiToU32(a: array<u8>) returns (value: nat)
    requires 2 <= a.Length && exists n :: 2 <= n < a.Length && a[n] == NUL
    ensures var s := a[2..]; value == ParseFrom(s[..StringLength(s)], 0)
  {
    hide BitOr;
    var i := 2;
    value := 0;
    ghost var s := a[2..];
    ghost var n := StringLength(s);
    TerminatedLength(a[..], s);
    while a[i] != NUL
      invariant 2 <= i <= 2 + n < a.Length
      invariant ParseFrom(s[i - 2..n], value) == ParseFrom(s[..n], 0)
      decreases a.Length - i
    {
      assert s[i - 2] == a[i] && s[i - 2..n][1..] == s[i - 1..n];
      value := value * 0x10 % U32_LIMIT;
      if a[i] > 0x2F && a[i] < 0x3A {
        value := BitOr(value, a[i] - 0x30);
      } else if a[i] > 0x40 && a[i] < 0x47 {
        value := BitOr(value, a[i] - 0x37);
      } else if a[i] > 0x60 && a[i] < 0x67 {
        value := BitOr(value, a[i] - 0x57);
      } else {
        return U32_LIMIT - 1;
      }
      i := i + 1;
    }
    assert i - 2 == n && s[n..n] == [];
  }

  /** Shifting left by four and or-ing a digit in is base-16 arithmetic, modulo 2^32. */
  lemma ShiftInIsArithmetic(value: nat, d: nat)
    requires d < 16
    ensures ShiftIn(value, d) == (value * 16 + d) % U32_LIMIT
  {
    var q := value % 0x1000_0000;
    assert value * 16 % U32_LIMIT == 16 * q;
    assert (value * 16 + d) % U32_LIMIT == 16 * q + d;
    assert Pow2(4) == 16;
    OrIsSum(q, d, 4);
  }

  lemma ModSmall(v: nat)
    requires v < U32_LIMIT
    ensures v % U32_LIMIT == v
  {
  }

  lemma ModStep(v: nat, d: nat)
    ensures (v % U32_LIMIT * 16 + d) % U32_LIMIT == (v * 16 + d) % U32_LIMIT
  {
    var q := v / U32_LIMIT;
    assert v * 16 + d == v % U32_LIMIT * 16 + d + U32_LIMIT * (16 * q);
  }

  /** Parsing digits gives the number they denote, its low 32 bits if there are more than eight. */
  lemma {:induction false} ParseDenotes(s: seq<u8>, t: seq<u8>)
    requires AllDigits(s, 16) && AllDigits(t, 16)
    ensures AllDigits(s + t, 16)
    ensures ParseFrom(t, ValueOf(s, 16) % U32_LIMIT) == ValueOf(s + t, 16) % U32_LIMIT
    decreases |t|
  {
    if t == [] {
      assert s + t == s;
    } else {
      var d := DigitValue(t[0]);
      var s' := s + [t[0]];
      assert s' + t[1..] == s + t && s'[..|s'| - 1] == s;
      ParseDenotes(s', t[1..]);
      ShiftInIsArithmetic(ValueOf(s, 16) % U32_LIMIT, d);
      assert ValueOf(s', 16) == ValueOf(s, 16) * 16 + d;
      ModStep(ValueOf(s, 16), d);
    }
  }

  lemma ParseDigits(s: seq<u8>)
    requires AllDigits(s, 16)
    ensures ParseFrom(s, 0) == ValueOf(s, 16) % U32_LIMIT
  {
    var e: seq<u8> := [];
    assert ValueOf(e, 16) == 0 && e + s == s;
    hide ParseFrom, ValueOf;
    ParseDenotes(e, s);
  }

  // ----- round trips -------------------------------------------------------------------------

  /** Printing and parsing a 32-bit number gives it back. */
  lemma HexRoundTrip(v: nat)
    requires v < U32_LIMIT
    ensures ParseFrom(HexText(v)[2..], 0) == v
  {
    hide Digits, ParseFrom, ValueOf;
    DigitsDenote(v, 16);
    assert HexText(v)[2..] == Digits(v, 16);
    ParseDigits(Digits(v, 16));
  }

  /** Printing into a buffer and parsing the buffer gives the number back. */
  method PrintThenParse(v: nat, a: array<u8>) returns (value: nat)
    requires v < U32_LIMIT && 11 <= a.Length
    modifies a
    ensures value == v
  {
    hide Digits, ParseFrom, StringLength, Reversed;
    U32ToHexAscii(v, a);
    ghost var digits := Digits(v, 16);
    assert a[..][2..][..|digits|] == digits && a[|digits| + 2] == NUL;
    StringLengthIs(a[2..], digits);
    HexRoundTrip(v);
    assert HexText(v)[2..] == digits;
    value := HexAsciiToU32(a);
  }

  /** A character that is no hex digit makes the whole parse fail. */
  lemma {:induction false} ParseFails(s: seq<u8>, value: nat)
    requires !AllDigits(s, 16)
    ensures ParseFrom(s, value) == U32_LIMIT - 1
    decreases |s|
  {
    hide ShiftIn;
    if DigitValue(s[0]) < 16 {
      var i :| 0 <= i < |s| && DigitValue(s[i]) >= 16;
      assert s[1..][i - 1] == s[i];
      ParseFails(s[1..], ShiftIn(value, DigitValue(s[0])));
    }
  }

  /** The error code is returned for a bad character, and for digits that denote the same number, and only then. */
  lemma ParseErrorExact(s: seq<u8>)
    ensures ParseFrom(s, 0) == U32_LIMIT - 1 <==> (AllDigits(s, 16) ==> ValueOf(s, 16) % U32_LIMIT == U32_LIMIT - 1)
  {
    hide ParseFrom, ValueOf, AllDigits;
    if AllDigits(s, 16) { ParseDigits(s); } else { ParseFails(s, 0); }
  }

  /** Which characters are digits, in print and when parsed: '0' to '9', 'A' to 'F', and 'a' to 'f' only when parsed. */
  lemma DigitCharacters(d: nat, c: u8)
    requires d < 16
    ensures Digit(d) as int == if d < 10 then 0x30 + d else 0x41 + d - 10
    ensures DigitValue(c) == d <==> c == Digit(d) || (d >= 10 && c == 0x61 + d - 10)
    ensures DigitValue(c) == 16 <==> !(0x30 <= c <= 0x39) && !(0x41 <= c <= 0x46) && !(0x61 <= c <= 0x66)
  {
  }

  function DecimalText(v: int): seq<u8> {
    if v < 0 then [MINUS] + Digits(-v, 10) else Digits(v, 10)
  }

  /** The characters in front of the digits. */
  lemma TextPrefixes(v: nat, w: int)
    ensures HexText(v) == [0x30, 0x78] + Digits(v, 16)
    ensures DecimalText(w) == if w < 0 then [0x2D] + Digits(-w, 10) else Digits(w, 10)
  {
  }

  function UpperCase(c: u8): u8 { if 0x60 < c < 0x67 then c - 0x20 else c }

  function UpperCased(s: seq<u8>): (t: seq<u8>)
    ensures |t| == |s| && forall i :: 0 <= i < |s| ==> t[i] == UpperCase(s[i])
  {
    seq(|s|, i requires 0 <= i < |s| => UpperCase(s[i]))
  }

  /** Upper case, without leading zeros except for the last digit. */
  function Canonical(s: seq<u8>): seq<u8> {
    if |s| > 1 && s[0] == ZERO then Canonical(s[1..]) else UpperCased(s)
  }

  ghost predicate AllZeros(s: seq<u8>) { forall i :: 0 <= i < |s| ==> s[i] == ZERO }

  lemma {:induction false} ZeroIffZeros(s: seq<u8>)
    requires AllDigits(s, 16)
    ensures ValueOf(s, 16) == 0 <==> AllZeros(s)
  {
    if s != [] {
      var t := s[..|s| - 1];
      ZeroIffZeros(t);
      assert s == t + [s[|s| - 1]];
    }
  }

  lemma {:induction false} CanonicalAppend(s: seq<u8>, c: u8)
    requires s != []
    ensures Canonical(s + [c]) == if AllZeros(s) then [UpperCase(c)] else Canonical(s) + [UpperCase(c)]
  {
    var t := s + [c];
    assert t[0] == s[0] && t[1..] == s[1..] + [c];
    if s[0] != ZERO {
      assert Canonical(t) == UpperCased(s) + [UpperCase(c)];
    } else if |s| == 1 {
      assert t[1..] == [c] && Canonical([c]) == [UpperCase(c)];
    } else {
      CanonicalAppend(s[1..], c);
      assert AllZeros(s) <==> AllZeros(s[1..]) by {
        if AllZeros(s[1..]) { assert forall i :: 0 < i < |s| ==> s[i] == s[1..][i - 1]; }
      }
    }
  }

  lemma DigitOfValue(c: u8)
    requires DigitValue(c) < 16
    ensures Digit(DigitValue(c)) == UpperCase(c)
  {
  }

  lemma {:induction false} DigitsOfValue(s: seq<u8>)
    requires AllDigits(s, 16) && s != []
    ensures Digits(ValueOf(s, 16), 16) == Canonical(s)
    decreases |s|
  {
    var t, c := s[..|s| - 1], s[|s| - 1];
    DigitOfValue(c);
    if t == [] {
      assert ValueOf(t, 16) == 0 && s == [c];
    } else {
      DigitsOfValue(t);
      ZeroIffZeros(t);
      CanonicalAppend(t, c);
      assert s == t + [c];
      var v := ValueOf(t, 16);
      assert (v * 16 + DigitValue(c)) / 16 == v && (v * 16 + DigitValue(c)) % 16 == DigitValue(c);
    }
  }

  lemma {:induction false} ValueBelow(s: seq<u8>)
    requires AllDigits(s, 16)
    ensures ValueOf(s, 16) < Power(16, |s|)
  {
    if s != [] { ValueBelow(s[..|s| - 1]); }
  }

  lemma EightDigitsFit(s: seq<u8>)
    requires AllDigits(s, 16) && |s| <= 8
    ensures ValueOf(s, 16) < U32_LIMIT
    decreases 8 - |s|
  {
    if |s| == 8 {
      ValueBelow(s);
      assert Power(16, 4) == 0x10000;
      assert Power(16, 8) == 16 * (16 * (16 * (16 * Power(16, 4))));
    } else {
      var t := s + [ZERO];
      assert t[..|s|] == s;
      EightDigitsFit(t);
    }
  }

  /** Parsing one to eight hex digits and printing the result gives the canonical form of the string. */
  lemma ParseThenPrint(s: seq<u8>)
    requires AllDigits(s, 16) && 1 <= |s| <= 8
    ensures HexText(ParseFrom(s, 0)) == [ZERO, X] + Canonical(s)
  {
    hide Digits, ParseFrom, ValueOf, Canonical;
    EightDigitsFit(s);
    ParseDigits(s);
    ModSmall(ValueOf(s, 16));
    DigitsOfValue(s);
  }

  // ----- decimal ---------------------------------------------------------------------------

  /** What a decimal text denotes. */
  function DecimalValue(s: seq<u8>): int
    requires s != [] && AllDigits(if s[0] == MINUS then s[1..] else s, 10)
  {
    if s[0] == MINUS then -(ValueOf(s[1..], 10) as int) else ValueOf(s, 10)
  }

  lemma DecimalDigitCount(v: nat)
    requires v < 0x8000_0000
    ensures |Digits(v, 10)| <= 10
  {
    assert Power(10, 5) == 100000;
    assert Power(10, 10) == 10 * (10 * (10 * (10 * (10 * Power(10, 5)))));
    DigitCount(v, 10, 10);
  }

  /** int_to_ascii, for every int whose negation is an int. */
  method IntToAscii(v: int, a: array<u8>)
    requires -0x8000_0000 < v < 0x8000_0000 && 12 <= a.Length
    modifies a
    ensures DecimalText(v) + [NUL] <= a[..]
  {
    hide Digits, Reversed, StringLength;
    var val: nat, sign := if v < 0 then -v else v, v < 0;
    DecimalDigitCount(val);
    var i := WriteDigits(val, 10, a);
    ghost var text, signs, s := Reversed(Digits(val, 10)), [], a[..];
    if sign {
      PutAt(s, text, MINUS);
      a[i] := MINUS;
      i := i + 1;
      text, signs, s := text + [MINUS], [MINUS], s[i - 1 := MINUS];
    }
    assert a[..] == s && |text| == i && text == Reversed(Digits(val, 10)) + signs;
    PutAt(s, text, NUL);
    a[i] := NUL;
    s := s[i := NUL];
    assert a[..] == s;
    TextHasNoNul(Digits(val, 10), signs);
    StringLengthIs(s, text);
    ReversedPair(MINUS, MINUS);
    ReverseString(a);
    TextReversed(s, a[..], text);
  }

  /** A printed number denotes the number that was printed. */
  lemma DecimalRoundTrip(v: int)
    ensures var s := DecimalText(v);
      && s != [] && AllDigits(if s[0] == MINUS then s[1..] else s, 10)
      && DecimalValue(s) == v
  {
    DigitsDenote(if v < 0 then -v else v, 10);
    var s := DecimalText(v);
    if v < 0 { assert s[1..] == Digits(-v, 10); } else { assert DigitValue(s[0]) < 10; }
  }
}
