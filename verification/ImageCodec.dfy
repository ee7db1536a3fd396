/** Reading the nodes of an image back: the round trip of creating_image. */
module ImageCodec {
  import opened Bits
  import opened Framing
  import opened FsTree
  import opened ImageLayout

  /** What an image says about one node, its links resolved to node numbers, and whether it has a data pointer. */
  datatype Entry = Entry(name: seq<u8>, kind: nat, size: nat,
                         nextIn: int, prevIn: int, nextDir: int, prevDir: int, hasData: bool, payload: seq<u8>)

  function CString(s: seq<u8>): seq<u8> {
    if s == [] || s[0] == 0 then [] else [s[0]] + CString(s[1..])
  }

  /** The node whose recorded address is a: the recorded address is where its slot ends. */
  function Resolve(a: nat, p: nat): int {
    if a == 0 then NONE else (a - FS_BASE - MAGIC) / NodeSize(p) - 1
  }

  const KIND_FIELD: nat := NAME_FIELD
  const SIZE_FIELD: nat := NAME_FIELD + 4
  const LINK_FIELDS: nat := NAME_FIELD + 8

  function Link(image: seq<u8>, at: nat, i: nat, p: nat): nat { Word(image, at + LINK_FIELDS + i * p) }

  /** The bytes behind a data address, without the frame. */
  function PayloadAt(image: seq<u8>, address: nat, size: nat): seq<u8> {
    if FS_BASE <= address && address - FS_BASE + MAGIC + size <= |image|
    then image[address - FS_BASE + MAGIC..address - FS_BASE + MAGIC + size] else []
  }

  function DecodeNode(image: seq<u8>, k: nat, p: nat): Entry
    requires SlotOffset(k, p) + NodeSize(p) <= |image|
  {
    var at := SlotOffset(k, p);
    var size := Word(image, at + SIZE_FIELD);
    Entry(CString(image[at..at + NAME_FIELD]), image[at + KIND_FIELD], size,
          Resolve(Link(image, at, 0, p), p), Resolve(Link(image, at, 1, p), p),
          Resolve(Link(image, at, 2, p), p), Resolve(Link(image, at, 3, p), p),
          Link(image, at, 4, p) != 0, PayloadAt(image, Link(image, at, 4, p), size))
  }

  /** What the tree says about it. */
  function Contents(n: Node): Entry
    requires Encodable(n)
  {
    Entry(n.name, n.kind, n.size, n.nextIn, n.prevIn, n.nextDir, n.prevDir,
          n.data.Data? && n.size != 0, if n.data.Data? && n.size != 0 then n.data.bytes[4..4 + n.size] else [])
  }

  // ----- fields of a slot -----------------------------------------------------------------

  lemma {:induction false} CStringOfField(name: seq<u8>, n: nat)
    requires (forall i :: 0 <= i < |name| ==> name[i] != 0) && 0 < n
    ensures CString(name + Zeros(n)) == name
  {
    if name == [] {
      assert name + Zeros(n) == Zeros(n);
    } else {
      assert (name + Zeros(n))[1..] == name[1..] + Zeros(n);
      CStringOfField(name[1..], n);
    }
  }

  lemma WordInside(a: seq<u8>, w: nat, b: seq<u8>)
    requires w < U32_LIMIT
    ensures Word(a + LittleEndian(w) + b, |a|) == w
  {
    BytesOfWord(w);
    var s := a + LittleEndian(w) + b;
    assert s[|a|] == WordByte(w, 0) && s[|a| + 1] == WordByte(w, 1) && s[|a| + 2] == WordByte(w, 2) && s[|a| + 3] == WordByte(w, 3);
  }

  lemma PointerInside(a: seq<u8>, w: nat, p: nat, b: seq<u8>)
    requires w < U32_LIMIT && 4 <= p
    ensures Word(a + Pointer(w, p) + b, |a|) == w
  {
    WordInside(a, w, Zeros(p - 4) + b);
    assert a + Pointer(w, p) + b == a + LittleEndian(w) + (Zeros(p - 4) + b);
  }

  lemma SlotHead(n: Node, da: nat, p: nat)
    requires Encodable(n) && 4 <= p
    ensures var s := Slot(n, da, p);
      CString(s[..NAME_FIELD]) == n.name && s[KIND_FIELD] == n.kind && Word(s, SIZE_FIELD) == n.size
  {
    var s, rest := Slot(n, da, p), SiblingLinks(n, p) + TreeLinks(n, p) + Pointer(da, p);
    assert s[..NAME_FIELD] == NameField(n.name);
    CStringOfField(n.name, NAME_FIELD - |n.name|);
    assert s == (NameField(n.name) + [n.kind] + Zeros(3)) + LittleEndian(n.size) + rest;
    WordInside(NameField(n.name) + [n.kind] + Zeros(3), n.size, rest);
  }

  ghost predicate AddressesFit(n: Node, da: nat, p: nat)
    requires LinksInRange(n)
  {
    && AddressOf(n.nextIn, p) < U32_LIMIT && AddressOf(n.prevIn, p) < U32_LIMIT
    && AddressOf(n.nextDir, p) < U32_LIMIT && AddressOf(n.prevDir, p) < U32_LIMIT && da < U32_LIMIT
  }

  lemma Regroup(h: seq<u8>, a0: seq<u8>, a1: seq<u8>, a2: seq<u8>, a3: seq<u8>, d: seq<u8>)
    ensures var s := h + (a0 + a1) + (a2 + a3) + d;
      && s == h + a0 + (a1 + (a2 + a3) + d) && s == (h + a0) + a1 + ((a2 + a3) + d)
      && s == (h + (a0 + a1)) + a2 + (a3 + d) && s == (h + (a0 + a1) + a2) + a3 + d
      && s == (h + (a0 + a1) + (a2 + a3)) + d + []
  {
  }

  lemma SlotLinks(n: Node, da: nat, p: nat)
    requires Encodable(n) && 4 <= p && AddressesFit(n, da, p)
    ensures var s := Slot(n, da, p);
      && Link(s, 0, 0, p) == AddressOf(n.nextIn, p) && Link(s, 0, 1, p) == AddressOf(n.prevIn, p)
      && Link(s, 0, 2, p) == AddressOf(n.nextDir, p) && Link(s, 0, 3, p) == AddressOf(n.prevDir, p)
      && Link(s, 0, 4, p) == da
  {
    var s, h, l, t := Slot(n, da, p), Head(n), SiblingLinks(n, p), TreeLinks(n, p);
    var a0, a1 := Pointer(AddressOf(n.nextIn, p), p), Pointer(AddressOf(n.prevIn, p), p);
    var a2, a3, d := Pointer(AddressOf(n.nextDir, p), p), Pointer(AddressOf(n.prevDir, p), p), Pointer(da, p);
    hide Head, Pointer, AddressOf, Word;
    assert s == h + (a0 + a1) + (a2 + a3) + d && l == a0 + a1 && t == a2 + a3;
    Regroup(h, a0, a1, a2, a3, d);
    PointerInside(h, AddressOf(n.nextIn, p), p, a1 + t + d);
    PointerInside(h + a0, AddressOf(n.prevIn, p), p, t + d);
    PointerInside(h + l, AddressOf(n.nextDir, p), p, a3 + d);
    PointerInside(h + l + a2, AddressOf(n.prevDir, p), p, d);
    PointerInside(h + l + t, da, p, []);
  }

  lemma MulDiv(k: nat, n: nat)
    requires 0 < n
    ensures k * n / n == k
  {
    var q := k * n / n;
    if q < k { MulMonotone(q + 1, k, n); } else if k < q { MulMonotone(k + 1, q, n); }
  }

  lemma ResolveAddress(k: int, p: nat)
    requires NONE <= k
    ensures Resolve(AddressOf(k, p), p) == k
  {
    if k != NONE {
      var n := NodeSize(p);
      assert AddressOf(k, p) - FS_BASE - MAGIC == (k + 1) * n;
      MulDiv(k + 1, n);
    }
  }

  // ----- slots and payloads of an image -----------------------------------------------------

  lemma {:induction false} SlotInSlots(nodes: seq<Node>, m: nat, k: nat, p: nat)
    requires k < m <= |nodes| && 4 <= p && AllEncodable(nodes)
    ensures |Slots(nodes, m, p)| == m * NodeSize(p) && k * NodeSize(p) + NodeSize(p) <= m * NodeSize(p)
    ensures Slots(nodes, m, p)[k * NodeSize(p)..k * NodeSize(p) + NodeSize(p)] == Slot(nodes[k], DataAddress(nodes, k, p), p)
  {
    hide NodeSize, Slot;
    SlotsLength(nodes, m, p);
    SlotsLength(nodes, m - 1, p);
    SlotLength(nodes[m - 1], DataAddress(nodes, m - 1, p), p);
    OneMore(m - 1, NodeSize(p));
    SlotsApart(k, m, p);
    if k < m - 1 {
      SlotInSlots(nodes, m - 1, k, p);
      SlotsApart(k, m - 1, p);
    }
  }

  lemma SlotOffsetIs(k: nat, p: nat)
    ensures SlotOffset(k, p) == 4 + k * NodeSize(p)
  {
  }

  lemma ImageParts(nodes: seq<Node>, p: nat) returns (rest: seq<u8>)
    requires 4 <= p && AllEncodable(nodes)
    ensures Image(nodes, p) == BigEndian(FS_HEADER) + Slots(nodes, |nodes|, p) + rest
  {
    rest := Payloads(nodes, |nodes|) + BigEndian(FS_FOOTER) + Zeros(FRAME * EmptyFrames(nodes, |nodes|));
  }

  lemma SliceInside(a: seq<u8>, m: seq<u8>, b: seq<u8>, x: nat, n: nat)
    requires x + n <= |m|
    ensures (a + m + b)[|a| + x..|a| + x + n] == m[x..x + n]
  {
  }

  lemma ImageSlot(nodes: seq<Node>, k: nat, p: nat)
    requires k < |nodes| && 4 <= p && AllEncodable(nodes)
    ensures SlotOffset(k, p) + NodeSize(p) <= SlotOffset(|nodes|, p) <= |Image(nodes, p)|
    ensures Image(nodes, p)[SlotOffset(k, p)..SlotOffset(k, p) + NodeSize(p)] == Slot(nodes[k], DataAddress(nodes, k, p), p)
  {
    hide Image, Slot, Slots, NodeSize, SlotOffset, DataAddress, BigEndian;
    var head, all, x, n := BigEndian(FS_HEADER), Slots(nodes, |nodes|, p), k * NodeSize(p), NodeSize(p);
    SlotInSlots(nodes, |nodes|, k, p);
    SlotOffsetIs(k, p);
    SlotOffsetIs(|nodes|, p);
    var rest := ImageParts(nodes, p);
    SliceInside(head, all, rest, x, n);
  }

  lemma {:induction false} PayloadsPrefix(nodes: seq<Node>, j: nat, m: nat)
    requires j <= m <= |nodes| && AllEncodable(nodes)
    ensures Payloads(nodes, j) <= Payloads(nodes, m)
  {
    if j < m { PayloadsPrefix(nodes, j, m - 1); }
  }

  lemma PrefixSlice(a: seq<u8>, b: seq<u8>, all: seq<u8>)
    requires a + b <= all
    ensures all[|a|..|a| + |b|] == b
  {
    assert all[|a|..|a| + |b|] == all[..|a + b|][|a|..];
  }

  lemma PayloadInPayloads(nodes: seq<Node>, m: nat, k: nat)
    requires k < m <= |nodes| && AllEncodable(nodes)
    ensures |Payloads(nodes, m)| == StoredSize(nodes, m)
    ensures StoredSize(nodes, k) + |Stored(nodes[k])| <= StoredSize(nodes, m)
    ensures Payloads(nodes, m)[StoredSize(nodes, k)..StoredSize(nodes, k) + |Stored(nodes[k])|] == Stored(nodes[k])
  {
    hide Encodable, Stored;
    PayloadsLength(nodes, m);
    PayloadsLength(nodes, k);
    PayloadsPrefix(nodes, k + 1, m);
    assert Payloads(nodes, k + 1) == Payloads(nodes, k) + Stored(nodes[k]);
    hide Payloads, StoredSize;
    PrefixSlice(Payloads(nodes, k), Stored(nodes[k]), Payloads(nodes, m));
  }

  lemma PayloadParts(nodes: seq<Node>, p: nat) returns (front: seq<u8>, rest: seq<u8>)
    requires 4 <= p && AllEncodable(nodes)
    ensures |front| == SlotOffset(|nodes|, p) && Image(nodes, p) == front + Payloads(nodes, |nodes|) + rest
  {
    SlotsLength(nodes, |nodes|, p);
    hide Slots, Payloads, EmptyFrames, NodeSize;
    front := BigEndian(FS_HEADER) + Slots(nodes, |nodes|, p);
    rest := BigEndian(FS_FOOTER) + Zeros(FRAME * EmptyFrames(nodes, |nodes|));
  }

  lemma ImagePayload(nodes: seq<Node>, k: nat, p: nat)
    requires k < |nodes| && 4 <= p && AllEncodable(nodes)
    ensures DataOffset(nodes, k, p) + |Stored(nodes[k])| <= |Image(nodes, p)|
    ensures Image(nodes, p)[DataOffset(nodes, k, p)..DataOffset(nodes, k, p) + |Stored(nodes[k])|] == Stored(nodes[k])
  {
    hide Image, Stored, Payloads, StoredSize, SlotOffset;
    PayloadInPayloads(nodes, |nodes|, k);
    var front, rest := PayloadParts(nodes, p);
    var all := Payloads(nodes, |nodes|);
    SliceInside(front, all, rest, StoredSize(nodes, k), |Stored(nodes[k])|);
  }

  // ----- the round trip -------------------------------------------------------------------

  lemma SliceWord(image: seq<u8>, at: nat, n: nat, i: nat)
    requires at + n <= |image| && i + 4 <= n
    ensures Word(image[at..at + n], i) == Word(image, at + i)
  {
  }

  lemma FieldsInSlot(image: seq<u8>, at: nat, n: nat)
    requires at + n <= |image| && KIND_FIELD < n
    ensures image[at..at + NAME_FIELD] == image[at..at + n][..NAME_FIELD]
    ensures image[at + KIND_FIELD] == image[at..at + n][KIND_FIELD]
  {
  }

  lemma LinkInSlot(image: seq<u8>, at: nat, i: nat, p: nat)
    requires at + NodeSize(p) <= |image| && i < 5 && 4 <= p
    ensures Link(image, at, i, p) == Link(image[at..at + NodeSize(p)], 0, i, p)
  {
    MulMonotone(i, 4, p);
    SliceWord(image, at, NodeSize(p), LINK_FIELDS + i * p);
  }

  /** Every address of the image is a 32-bit address. */
  ghost predicate ImageFits(nodes: seq<Node>, p: nat) { FS_BASE + ImageSize(nodes, p) < U32_LIMIT }

  ghost predicate LinksExist(nodes: seq<Node>, n: Node) {
    LinksInRange(n) && n.nextIn < |nodes| && n.prevIn < |nodes| && n.nextDir < |nodes| && n.prevDir < |nodes|
  }

  lemma AddressInImage(nodes: seq<Node>, k: int, p: nat)
    requires 4 <= p && AllEncodable(nodes) && ImageFits(nodes, p) && NONE <= k < |nodes|
    ensures AddressOf(k, p) < U32_LIMIT
  {
    if k != NONE { MulMonotone(k + 1, |nodes|, NodeSize(p)); }
  }

  lemma SlotAddressesFit(nodes: seq<Node>, k: nat, p: nat)
    requires 4 <= p && AllEncodable(nodes) && ImageFits(nodes, p) && k < |nodes| && LinksExist(nodes, nodes[k])
    ensures AddressesFit(nodes[k], DataAddress(nodes, k, p), p)
  {
    AddressInImage(nodes, nodes[k].nextIn, p);
    AddressInImage(nodes, nodes[k].prevIn, p);
    AddressInImage(nodes, nodes[k].nextDir, p);
    AddressInImage(nodes, nodes[k].prevDir, p);
    ImageLength(nodes, p);
    StoredGrows(nodes, k, |nodes|);
  }

  lemma InnerSlice(image: seq<u8>, o: nat, b: seq<u8>, n: nat)
    requires o + |b| <= |image| && image[o..o + |b|] == b && MAGIC + n <= |b|
    ensures image[o + MAGIC..o + MAGIC + n] == b[MAGIC..MAGIC + n]
  {
    assert image[o + MAGIC..o + MAGIC + n] == image[o..o + |b|][MAGIC..MAGIC + n];
  }

  lemma StoredPayload(n: Node)
    requires Encodable(n) && IsStored(n)
    ensures Stored(n)[MAGIC..MAGIC + n.size] == Contents(n).payload
  {
  }

  lemma DecodedPayload(nodes: seq<Node>, k: nat, p: nat)
    requires k < |nodes| && 4 <= p && AllEncodable(nodes)
    ensures PayloadAt(Image(nodes, p), DataAddress(nodes, k, p), nodes[k].size) == Contents(nodes[k]).payload
  {
    assert Encodable(nodes[k]);
    if IsStored(nodes[k]) {
      ImagePayload(nodes, k, p);
      StoredPayload(nodes[k]);
      hide Image, DataOffset, Stored, Encodable;
      InnerSlice(Image(nodes, p), DataOffset(nodes, k, p), Stored(nodes[k]), nodes[k].size);
    }
  }

  /** Decoding slot k of the image gives back node k: its name, type, size, four links and payload. */
  lemma ImageRoundTrip(nodes: seq<Node>, k: nat, p: nat)
    requires 4 <= p && AllEncodable(nodes) && ImageFits(nodes, p) && k < |nodes| && LinksExist(nodes, nodes[k])
    ensures SlotOffset(k, p) + NodeSize(p) <= |Image(nodes, p)|
    ensures DecodeNode(Image(nodes, p), k, p) == Contents(nodes[k])
  {
    hide Slot, Image, Word, CString, AddressOf, Resolve, PayloadAt;
    var image, at, n, da := Image(nodes, p), SlotOffset(k, p), nodes[k], DataAddress(nodes, k, p);
    ImageSlot(nodes, k, p);
    SlotAddressesFit(nodes, k, p);
    var s := Slot(n, da, p);
    assert image[at..at + NodeSize(p)] == s;
    SlotHead(n, da, p);
    SlotLinks(n, da, p);
    FieldsInSlot(image, at, NodeSize(p));
    SliceWord(image, at, NodeSize(p), SIZE_FIELD);
    LinkInSlot(image, at, 0, p);
    LinkInSlot(image, at, 1, p);
    LinkInSlot(image, at, 2, p);
    LinkInSlot(image, at, 3, p);
    LinkInSlot(image, at, 4, p);
    ResolveAddress(n.nextIn, p);
    ResolveAddress(n.prevIn, p);
    ResolveAddress(n.nextDir, p);
    ResolveAddress(n.prevDir, p);
    DecodedPayload(nodes, k, p);
  }

  /** Taken as a pointer, the recorded address of a node is the slot of the node after it, never its own. */
  lemma RecordedAddressIsNextSlot(k: nat, p: nat)
    ensures AddressOf(k, p) == FS_BASE + SlotOffset(k + 1, p)
    ensures AddressOf(k, p) != FS_BASE + SlotOffset(k, p)
  {
    OneMore(k, NodeSize(p));
  }

  // ----- the bytes of a slot, place by place ----------------------------------------------------

  /** A p-byte pointer field that holds a 32-bit address. */
  ghost predicate PointerIs(image: seq<u8>, at: nat, a: nat, p: nat)
    requires 4 <= p
  {
    at + p <= |image| && Word(image, at) == a && image[at + 4..at + p] == Zeros(p - 4)
  }

  /** The address that stands for node k: 0xF0000000 plus the end of its slot. */
  function LinkAddress(k: int, p: nat): int { if k == -1 then 0 else 0xF0000004 + (k + 1) * (264 + 5 * p) }

  /** The pointer at at names offset f, where the first size + 8 bytes of the node's buffer stand. */
  ghost predicate FrameIs(image: seq<u8>, at: nat, f: nat, n: Node, p: nat)
    requires 4 <= p && n.data.Data?
  {
    && n.size + 8 <= |n.data.bytes| && f + n.size + 8 <= |image|
    && image[f..f + n.size + 8] == n.data.bytes[..n.size + 8]
    && PointerIs(image, at, 0xF0000000 + f, p)
  }

  /** The data pointer names the place of the node's frame in the image, or is null if there is nothing to store. */
  ghost predicate DataIs(image: seq<u8>, at: nat, n: Node, p: nat)
    requires 4 <= p
  {
    if n.data.NoData? || n.size == 0 then PointerIs(image, at, 0, p) else exists f: nat :: FrameIs(image, at, f, n, p)
  }

  ghost predicate LinkIs(image: seq<u8>, at: nat, k: int, p: nat)
    requires 4 <= p
  {
    LinkAddress(k, p) >= 0 && PointerIs(image, at, LinkAddress(k, p), p)
  }

  /** Node k as struct _harshfs_node lays it out, with p-byte pointers. */
  ghost predicate NodeInImage(image: seq<u8>, n: Node, k: nat, p: nat)
    requires 4 <= p && |n.name| < 256
  {
    var at := 4 + k * (264 + 5 * p);
    && at + 264 + 5 * p <= |image|
    && image[at..at + 256] == n.name + Zeros(256 - |n.name|)
    && image[at + 256] == n.kind && image[at + 257..at + 260] == [0, 0, 0]
    && Word(image, at + 260) == n.size
    && LinkIs(image, at + 264, n.nextIn, p) && LinkIs(image, at + 264 + p, n.prevIn, p)
    && LinkIs(image, at + 264 + 2 * p, n.nextDir, p) && LinkIs(image, at + 264 + 3 * p, n.prevDir, p)
    && DataIs(image, at + 264 + 4 * p, n, p)
  }

  lemma PointerAt(image: seq<u8>, at: nat, a: nat, p: nat)
    requires 4 <= p && a < U32_LIMIT && at + p <= |image| && image[at..at + p] == Pointer(a, p)
    ensures PointerIs(image, at, a, p)
  {
    assert image == image[..at] + Pointer(a, p) + image[at + p..];
    PointerInside(image[..at], a, p, image[at + p..]);
    assert image[at + 4..at + p] == image[at..at + p][4..];
  }

  lemma LinkAddressIs(k: int, p: nat)
    requires NONE <= k
    ensures LinkAddress(k, p) == AddressOf(k, p)
  {
  }

  lemma HeadPlaces(n: Node)
    requires |n.name| < NAME_FIELD && n.kind < 256
    ensures var h := Head(n);
      |h| == 264 && h[..256] == n.name + Zeros(256 - |n.name|) && h[256] == n.kind && h[257..260] == [0, 0, 0]
  {
    hide LittleEndian;
    var h := Head(n);
    assert h[..256] == NameField(n.name) && h[256] == n.kind && h[257..260] == Zeros(3);
    assert Zeros(3) == [0, 0, 0];
  }

  lemma FivePointers(h: seq<u8>, a0: seq<u8>, a1: seq<u8>, a2: seq<u8>, a3: seq<u8>, d: seq<u8>, p: nat)
    requires |h| == 264 && |a0| == |a1| == |a2| == |a3| == |d| == p
    ensures var s := h + (a0 + a1) + (a2 + a3) + d;
      && |s| == 264 + 5 * p && s[..264] == h
      && s[264..264 + p] == a0 && s[264 + p..264 + 2 * p] == a1 && s[264 + 2 * p..264 + 3 * p] == a2
      && s[264 + 3 * p..264 + 4 * p] == a3 && s[264 + 4 * p..264 + 5 * p] == d
  {
    var s := h + (a0 + a1) + (a2 + a3) + d;
    assert s == (h + (a0 + a1) + (a2 + a3)) + d && s == (h + (a0 + a1)) + ((a2 + a3) + d) && s == h + ((a0 + a1) + (a2 + a3) + d);
  }

  lemma SlotPlaces(n: Node, da: nat, p: nat)
    requires Encodable(n) && 4 <= p
    ensures var s := Slot(n, da, p);
      && s[..256] == n.name + Zeros(256 - |n.name|) && s[256] == n.kind && s[257..260] == [0, 0, 0]
      && s[264..264 + p] == Pointer(AddressOf(n.nextIn, p), p)
      && s[264 + p..264 + 2 * p] == Pointer(AddressOf(n.prevIn, p), p)
      && s[264 + 2 * p..264 + 3 * p] == Pointer(AddressOf(n.nextDir, p), p)
      && s[264 + 3 * p..264 + 4 * p] == Pointer(AddressOf(n.prevDir, p), p)
      && s[264 + 4 * p..264 + 5 * p] == Pointer(da, p)
  {
    hide Pointer, AddressOf, Head;
    var h, d := Head(n), Pointer(da, p);
    var a0, a1 := Pointer(AddressOf(n.nextIn, p), p), Pointer(AddressOf(n.prevIn, p), p);
    var a2, a3 := Pointer(AddressOf(n.nextDir, p), p), Pointer(AddressOf(n.prevDir, p), p);
    HeadPlaces(n);
    FivePointers(h, a0, a1, a2, a3, d, p);
    var s := Slot(n, da, p);
    assert s == h + (a0 + a1) + (a2 + a3) + d;
    assert s[..256] == s[..264][..256] && s[256] == s[..264][256] && s[257..260] == s[..264][257..260];
  }

  lemma SliceOfSlice(image: seq<u8>, at: nat, n: nat, i: nat, j: nat)
    requires at + n <= |image| && i <= j <= n
    ensures image[at + i..at + j] == image[at..at + n][i..j]
  {
    var u, v := image[at + i..at + j], image[at..at + n][i..j];
    assert |u| == |v|;
    forall x | 0 <= x < |u| ensures u[x] == v[x] { assert v[x] == image[at..at + n][i + x]; }
  }

  lemma LinkField(image: seq<u8>, at: nat, s: seq<u8>, i: nat, k: int, p: nat)
    requires 4 <= p && at + |s| <= |image| && image[at..at + |s|] == s && i + p <= |s|
    requires NONE <= k && AddressOf(k, p) < U32_LIMIT && s[i..i + p] == Pointer(AddressOf(k, p), p)
    ensures LinkIs(image, at + i, k, p)
  {
    hide Pointer, AddressOf, Word, PointerIs, LinkAddress;
    SliceOfSlice(image, at, |s|, i, i + p);
    PointerAt(image, at + i, AddressOf(k, p), p);
    LinkAddressIs(k, p);
  }

  /** The fields in front of the pointers. */
  lemma HeadField(image: seq<u8>, at: nat, s: seq<u8>)
    requires 264 <= |s| && at + |s| <= |image| && image[at..at + |s|] == s
    ensures image[at..at + 256] == s[..256] && image[at + 256] == s[256] && image[at + 257..at + 260] == s[257..260]
    ensures Word(image, at + 260) == Word(s, 260)
  {
    hide Word;
    SliceOfSlice(image, at, |s|, 0, 256);
    assert s[0..256] == s[..256];
    SliceOfSlice(image, at, |s|, 257, 260);
    SliceWord(image, at, |s|, 260);
  }

  lemma DataField(nodes: seq<Node>, k: nat, p: nat, at: nat)
    requires 4 <= p && AllEncodable(nodes) && k < |nodes|
    requires var da := DataAddress(nodes, k, p); da < U32_LIMIT && PointerIs(Image(nodes, p), at, da, p)
    ensures DataIs(Image(nodes, p), at, nodes[k], p)
  {
    hide Image, PointerIs, SlotOffset, StoredSize;
    assert Encodable(nodes[k]);
    if IsStored(nodes[k]) {
      ImagePayload(nodes, k, p);
      var f: nat := DataOffset(nodes, k, p);
      assert FrameIs(Image(nodes, p), at, f, nodes[k], p);
    }
  }

  /** Every node stands in the image at its place, byte by byte. */
  lemma ImageHoldsNode(nodes: seq<Node>, k: nat, p: nat)
    requires 4 <= p && AllEncodable(nodes) && ImageFits(nodes, p) && k < |nodes| && LinksExist(nodes, nodes[k])
    ensures |nodes[k].name| < 256 && NodeInImage(Image(nodes, p), nodes[k], k, p)
  {
    hide Slot, Image, Word, AddressOf, Pointer, DataAddress, DataIs, LinkIs, PointerIs, CString, Link;
    var image, n, da := Image(nodes, p), nodes[k], DataAddress(nodes, k, p);
    var at := SlotOffset(k, p);
    assert Encodable(n);
    ImageSlot(nodes, k, p);
    SlotAddressesFit(nodes, k, p);
    var s := Slot(n, da, p);
    SlotHead(n, da, p);
    SlotPlaces(n, da, p);
    HeadField(image, at, s);
    LinkField(image, at, s, 264, n.nextIn, p);
    LinkField(image, at, s, 264 + p, n.prevIn, p);
    LinkField(image, at, s, 264 + 2 * p, n.nextDir, p);
    LinkField(image, at, s, 264 + 3 * p, n.prevDir, p);
    SliceOfSlice(image, at, |s|, 264 + 4 * p, 264 + 5 * p);
    PointerAt(image, at + (264 + 4 * p), da, p);
    DataField(nodes, k, p, at + 264 + 4 * p);
  }

  lemma MagicBytes()
    ensures BigEndian(FS_HEADER) == [0xC9, 0xB3, 0xFC, 0xCB] && BigEndian(FS_FOOTER) == [0x5D, 0x20, 0x60, 0x3B]
  {
  }

  lemma EndsOf(h: seq<u8>, a: seq<u8>, f: seq<u8>, z: seq<u8>)
    requires |h| == 4 && |f| == 4
    ensures var s := h + a + f + z;
      s[..4] == h && s[4 + |a|..4 + |a| + 4] == f && s[4 + |a| + 4..] == z
  {
  }

  lemma ImageMiddle(nodes: seq<Node>, p: nat) returns (a: seq<u8>, z: seq<u8>)
    requires 4 <= p && AllEncodable(nodes)
    ensures 4 + |a| == DataOffset(nodes, |nodes|, p) && z == Zeros(|z|)
    ensures Image(nodes, p) == BigEndian(FS_HEADER) + a + BigEndian(FS_FOOTER) + z
  {
    SlotsLength(nodes, |nodes|, p);
    PayloadsLength(nodes, |nodes|);
    hide Slots, Payloads, EmptyFrames, StoredSize, NodeSize, BigEndian;
    a, z := Slots(nodes, |nodes|, p) + Payloads(nodes, |nodes|), Zeros(FRAME * EmptyFrames(nodes, |nodes|));
    assert BigEndian(FS_HEADER) + Slots(nodes, |nodes|, p) + Payloads(nodes, |nodes|) == BigEndian(FS_HEADER) + a;
  }

  /** The magic numbers at both ends of an image, and what stands between and behind them. */
  lemma ImageEnds(nodes: seq<Node>, p: nat)
    requires 4 <= p && AllEncodable(nodes)
    ensures var image, f := Image(nodes, p), DataOffset(nodes, |nodes|, p);
      && f + 4 <= |image|
      && image[..4] == [0xC9, 0xB3, 0xFC, 0xCB] && image[f..f + 4] == [0x5D, 0x20, 0x60, 0x3B]
      && image[f + 4..] == Zeros(|image| - f - 4)
  {
    hide Image, Slots, Payloads, SlotOffset, StoredSize, BigEndian;
    var a, z := ImageMiddle(nodes, p);
    MagicBytes();
    EndsOf(BigEndian(FS_HEADER), a, BigEndian(FS_FOOTER), z);
  }
}
