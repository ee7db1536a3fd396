/** HarshFS framing: a header magic, the payload, a footer magic; the size is found by scanning. */
module Framing {
  import opened Bits

  const FILE_HEADER: nat := 0x8D32CA15
  const FILE_FOOTER: nat := 0xD918CA12
  const FRAME: nat := 8

  /** create_data, as a value. */
  function Framed(d: seq<u8>): (f: seq<u8>)
    ensures |f| == |d| + FRAME
  {
    BigEndian(FILE_HEADER) + d + BigEndian(FILE_FOOTER)
  }

  predicate MagicIn(s: seq<u8>, w: nat) {
    exists i :: 0 <= i && i + 4 <= |s| && MagicAt(s, i) == w
  }

  /** The first place at or after i where w can be read, or |s|. */
  function Find(s: seq<u8>, i: nat, w: nat): (j: nat)
    requires i <= |s|
    ensures i <= j <= |s|
    ensures j < |s| ==> j + 4 <= |s| && MagicAt(s, j) == w
    ensures forall k :: i <= k < j && k + 4 <= |s| ==> MagicAt(s, k) != w
    decreases |s| - i
  {
    if i + 4 > |s| then |s| else if MagicAt(s, i) == w then i else Find(s, i + 1, w)
  }

  lemma FindIs(s: seq<u8>, i: nat, w: nat, j: nat)
    requires i <= j && j + 4 <= |s| && MagicAt(s, j) == w
    requires forall k :: i <= k < j ==> MagicAt(s, k) != w
    ensures Find(s, i, w) == j
  {
    assert Find(s, i, w) >= j;
  }

  /** The scan of check_validity and get_data_size stays inside the buffer. */
  ghost predicate Terminated(s: seq<u8>) {
    && 4 <= |s| < U32_LIMIT
    && (MagicAt(s, 0) == FILE_HEADER ==> Find(s, 4, FILE_FOOTER) < |s|)
  }

  predicate HasHeader(s: seq<u8>) { 4 <= |s| && MagicAt(s, 0) == FILE_HEADER }

  /** get_data_size, as a value. */
  function DataSize(s: seq<u8>): nat
    requires 4 <= |s|
  {
    if !HasHeader(s) then 0 else Find(s, 4, FILE_FOOTER) - 4
  }

  // ----- the code -------------------------------------------------------------------------

  /** get_header_or_footer */
  method GetHeaderOrFooter(data: seq<u8>, at: nat) returns (magic: nat)
    requires at + 4 <= |data|
    ensures magic == MagicAt(data, at)
  {
    hide BitOr;
    magic := 0;
    OrByte(0, data[at]);
    OrByte(data[at], data[at + 1]);
    OrByte(data[at] as int * 0x100 + data[at + 1], data[at + 2]);
    OrByte((data[at] as int * 0x100 + data[at + 1]) * 0x100 + data[at + 2], data[at + 3]);
    var i := 0;
    while i < 4
      invariant i <= 4
      invariant magic == (if i == 0 then 0 else if i == 1 then data[at] as int
        else if i == 2 then data[at] as int * 0x100 + data[at + 1]
        else if i == 3 then (data[at] as int * 0x100 + data[at + 1]) * 0x100 + data[at + 2]
        else MagicAt(data, at))
    {
      magic := magic * 0x100 % U32_LIMIT;
      magic := BitOr(magic, data[at + i]);
      i := i + 1;
    }
  }

  /** check_validity: -1 for a wrong header. */
  method CheckValidity(data: seq<u8>) returns (status: int)
    requires Terminated(data)
    ensures status == if HasHeader(data) then 0 else -1
  {
    var header := GetHeaderOrFooter(data, 0);
    if header != FILE_HEADER { return -1; }
    var size := 0;
    var footer := GetHeaderOrFooter(data, 4);
    while footer != FILE_FOOTER
      invariant 4 + size <= Find(data, 4, FILE_FOOTER) && footer == MagicAt(data, 4 + size)
      decreases |data| - size
    {
      if size >= 0xFFFFFFFF { return -1; }
      size := size + 1;
      footer := GetHeaderOrFooter(data, 4 + size);
    }
    status := 0;
  }

  /** get_data_size */
  method GetDataSize(data: seq<u8>) returns (size: int)
    requires Terminated(data)
    ensures size == DataSize(data)
    ensures !HasHeader(data) ==> size == 0
  {
    var status := CheckValidity(data);
    if status == -1 { return 0; }
    size := 0;
    var footer := GetHeaderOrFooter(data, 4);
    while footer != FILE_FOOTER
      invariant 4 + size <= Find(data, 4, FILE_FOOTER) && footer == MagicAt(data, 4 + size)
      decreases |data| - size
    {
      if size >= 0xFFFFFFFF { return 0; }
      size := size + 1;
      footer := GetHeaderOrFooter(data, 4 + size);
    }
    FindIs(data, 4, FILE_FOOTER, 4 + size);
  }

  /** create_data */
  method CreateData(data: array<u8>) returns (framed: array<u8>)
    ensures fresh(framed) && framed[..] == Framed(data[..])
  {
    var size := data.Length;
    framed := new u8[size + 8](_ => 0);
    var at := 0;
    for i := 0 to 4
      invariant at == i && forall k :: 0 <= k < i ==> framed[k] == BigEndian(FILE_HEADER)[k]
    {
      framed[at] := WordByte(FILE_HEADER, 3 - i);
      at := at + 1;
    }
    for i := 0 to size
      invariant at == 4 + i
      invariant forall k :: 0 <= k < 4 ==> framed[k] == BigEndian(FILE_HEADER)[k]
      invariant forall k :: 0 <= k < i ==> framed[4 + k] == data[k]
    {
      framed[at] := data[i];
      at := at + 1;
    }
    for i := 0 to 4
      invariant at == 4 + size + i
      invariant forall k :: 0 <= k < 4 ==> framed[k] == BigEndian(FILE_HEADER)[k]
      invariant forall k :: 0 <= k < size ==> framed[4 + k] == data[k]
      invariant forall k :: 0 <= k < i ==> framed[4 + size + k] == BigEndian(FILE_FOOTER)[k]
    {
      framed[at] := WordByte(FILE_FOOTER, 3 - i);
      at := at + 1;
    }
  }

  // ----- where a magic number is found --------------------------------------------------------

  /** The first byte of the magic number does not recur in it, so two matches never overlap. */
  predicate Borderless(w: nat) {
    var b := BigEndian(w);
    b[0] != b[1] && b[0] != b[2] && b[0] != b[3]
  }

  lemma SameMagic(s: seq<u8>, i: nat, t: seq<u8>, j: nat)
    requires i + 4 <= |s| && j + 4 <= |t|
    requires s[i] == t[j] && s[i + 1] == t[j + 1] && s[i + 2] == t[j + 2] && s[i + 3] == t[j + 3]
    ensures MagicAt(s, i) == MagicAt(t, j)
  {
  }

  /** What lies in front of the place where a scan starts does not matter. */
  lemma {:induction false} FindShift(a: seq<u8>, s: seq<u8>, i: nat, w: nat)
    requires i <= |s|
    ensures Find(a + s, |a| + i, w) == |a| + Find(s, i, w)
    decreases |s| - i
  {
    if i + 4 <= |s| {
      SameMagic(a + s, |a| + i, s, i);
      if MagicAt(s, i) != w { FindShift(a, s, i + 1, w); }
    }
  }

  /** No match of a borderless magic number straddles the start of that number itself. */
  lemma NoStraddle(d: seq<u8>, w: nat, rest: seq<u8>, i: nat)
    requires i < |d| < i + 4 && w < U32_LIMIT && Borderless(w)
    ensures MagicAt(d + BigEndian(w) + rest, i) != w
  {
    var s, k := d + BigEndian(w) + rest, |d| - i;
    MagicOfBytes(s, i, w);
    assert s[i..i + 4][k] == s[i + k] == BigEndian(w)[0];
    assert k == 1 || k == 2 || k == 3;
  }

  /** A scan for a number that was written behind d finds its first occurrence in d, or else that place. */
  lemma {:induction false} FindMarked(d: seq<u8>, i: nat, w: nat, rest: seq<u8>)
    requires i <= |d| && w < U32_LIMIT && Borderless(w)
    ensures Find(d + BigEndian(w) + rest, i, w) == Find(d, i, w)
    decreases |d| - i
  {
    var s := d + BigEndian(w) + rest;
    hide Borderless;
    if i == |d| {
      assert s[i..i + 4] == BigEndian(w);
      MagicOfBytes(s, i, w);
    } else {
      FindMarked(d, i + 1, w, rest);
      if i + 4 <= |d| {
        SameMagic(s, i, d, i);
      } else {
        NoStraddle(d, w, rest, i);
        assert Find(d, i + 1, w) == |d|;
      }
    }
  }

  lemma FindNothing(s: seq<u8>, i: nat, w: nat)
    requires i <= |s|
    ensures Find(s, i, w) == |s| <==> !MagicIn(s[i..], w)
  {
    var j := Find(s, i, w);
    if j < |s| {
      SameMagic(s, j, s[i..], j - i);
    } else if MagicIn(s[i..], w) {
      var k: nat :| k + 4 <= |s[i..]| && MagicAt(s[i..], k) == w;
      SameMagic(s, i + k, s[i..], k);
    }
  }

  // ----- reading back what was framed ---------------------------------------------------------

  lemma FooterIsBorderless()
    ensures Borderless(FILE_FOOTER)
  {
  }

  /** The scan finds the first footer magic of the payload, and the frame's own footer if there is none. */
  lemma ScanOfFrame(d: seq<u8>)
    ensures HasHeader(Framed(d))
    ensures DataSize(Framed(d)) == Find(d, 0, FILE_FOOTER)
    ensures Find(Framed(d), 4, FILE_FOOTER) < |Framed(d)|
  {
    var f, header, rest := Framed(d), BigEndian(FILE_HEADER), d + BigEndian(FILE_FOOTER) + [];
    hide BigEndian, MagicAt, Find;
    assert f == header + rest;
    assert f[0..4] == header;
    MagicOfBytes(f, 0, FILE_HEADER);
    FindShift(header, rest, 0, FILE_FOOTER);
    FooterIsBorderless();
    FindMarked(d, 0, FILE_FOOTER, []);
  }

  /** Framing keeps the size exactly when the payload does not contain the footer magic. */
  lemma FramingRoundTrip(d: seq<u8>)
    ensures DataSize(Framed(d)) == |d| <==> !MagicIn(d, FILE_FOOTER)
  {
    ScanOfFrame(d);
    FindNothing(d, 0, FILE_FOOTER);
    assert d[0..] == d;
  }

  /** A framed payload, byte by byte. */
  lemma FramedBytes(d: seq<u8>)
    ensures Framed(d) == [0x8D, 0x32, 0xCA, 0x15] + d + [0xD9, 0x18, 0xCA, 0x12]
  {
  }
}
