/** Where creating_image puts every byte of a HarshFS image, and how an image is read back. */
module ImageLayout {
  import opened Bits
  import opened Framing
  import opened FsTree

  const FS_HEADER: nat := 0xC9B3FCCB
  const FS_FOOTER: nat := 0x5D20603B
  const FS_BASE: nat := 0xF0000000
  const MAGIC: nat := 4

  // ----- one node -------------------------------------------------------------------------

  /** sizeof(harshfs_node) with p-byte pointers: name, type and padding, size, five pointers. */
  function NodeSize(p: nat): nat { NAME_FIELD + 8 + 5 * p }

  function Zeros(n: nat): (z: seq<u8>)
    ensures |z| == n && forall i :: 0 <= i < n ==> z[i] == 0
  {
    seq(n, _ => 0)
  }

  function LittleEndian(w: nat): (s: seq<u8>)
    ensures |s| == 4
  {
    [WordByte(w, 0), WordByte(w, 1), WordByte(w, 2), WordByte(w, 3)]
  }

  function Pointer(a: nat, p: nat): (s: seq<u8>)
    requires 4 <= p
    ensures |s| == p
  {
    LittleEndian(a) + Zeros(p - 4)
  }

  function NameField(name: seq<u8>): (s: seq<u8>)
    requires |name| < NAME_FIELD
    ensures |s| == NAME_FIELD
  {
    name + Zeros(NAME_FIELD - |name|)
  }

  /** The address add_node_address records for node k: the end of its slot. Null for no node. */
  function AddressOf(k: int, p: nat): nat
    requires NONE <= k
  {
    if k == NONE then 0 else FS_BASE + MAGIC + (k + 1) * NodeSize(p)
  }

  ghost predicate LinksInRange(n: Node) { NONE <= n.nextIn && NONE <= n.prevIn && NONE <= n.nextDir && NONE <= n.prevDir }

  function Head(n: Node): (s: seq<u8>)
    requires |n.name| < NAME_FIELD && n.kind < 256
    ensures |s| == NAME_FIELD + 8
  {
    NameField(n.name) + [n.kind] + Zeros(3) + LittleEndian(n.size)
  }

  function SiblingLinks(n: Node, p: nat): (s: seq<u8>)
    requires LinksInRange(n) && 4 <= p
    ensures |s| == 2 * p
  {
    Pointer(AddressOf(n.nextIn, p), p) + Pointer(AddressOf(n.prevIn, p), p)
  }

  function TreeLinks(n: Node, p: nat): (s: seq<u8>)
    requires LinksInRange(n) && 4 <= p
    ensures |s| == 2 * p
  {
    Pointer(AddressOf(n.nextDir, p), p) + Pointer(AddressOf(n.prevDir, p), p)
  }

  /** The bytes of real_node. */
  function Slot(n: Node, dataAddress: nat, p: nat): (s: seq<u8>)
    requires |n.name| < NAME_FIELD && n.kind < 256 && LinksInRange(n) && 4 <= p
    ensures |s| == NodeSize(p)
  {
    Head(n) + SiblingLinks(n, p) + TreeLinks(n, p) + Pointer(dataAddress, p)
  }

  /** A buffer is copied into the image when it holds a non-empty framed payload. */
  predicate IsStored(n: Node) { n.data.Data? && n.size != 0 }

  ghost predicate Encodable(n: Node) {
    && ValidName(n.name) && n.kind < 256 && n.size < U32_LIMIT && LinksInRange(n)
    && (IsStored(n) ==> n.size + FRAME <= |n.data.bytes|)
  }

  function Stored(n: Node): (s: seq<u8>)
    requires Encodable(n)
    ensures |s| == if IsStored(n) then n.size + FRAME else 0
  {
    if IsStored(n) then n.data.bytes[..n.size + FRAME] else []
  }

  // ----- the image ------------------------------------------------------------------------

  ghost predicate AllEncodable(nodes: seq<Node>) { forall i :: 0 <= i < |nodes| ==> Encodable(nodes[i]) }

  /** The payloads of the first k nodes, packed in node order. */
  function Payloads(nodes: seq<Node>, k: nat): seq<u8>
    requires k <= |nodes| && AllEncodable(nodes)
  {
    if k == 0 then [] else Payloads(nodes, k - 1) + Stored(nodes[k - 1])
  }

  /** The number of bytes those payloads take. */
  function StoredSize(nodes: seq<Node>, k: nat): nat
    requires k <= |nodes|
  {
    if k == 0 then 0 else StoredSize(nodes, k - 1) + if IsStored(nodes[k - 1]) then nodes[k - 1].size + FRAME else 0
  }

  /** The bytes that overall_fs_size counts for payloads: empty frames are counted too. */
  function CountedSize(nodes: seq<Node>, k: nat): nat
    requires k <= |nodes|
  {
    if k == 0 then 0 else CountedSize(nodes, k - 1) + if nodes[k - 1].data.Data? then nodes[k - 1].size + FRAME else 0
  }

  function EmptyFrames(nodes: seq<Node>, k: nat): nat
    requires k <= |nodes|
  {
    if k == 0 then 0 else EmptyFrames(nodes, k - 1) + if nodes[k - 1].data.Data? && nodes[k - 1].size == 0 then 1 else 0
  }

  function SlotOffset(k: nat, p: nat): nat { MAGIC + k * NodeSize(p) }

  function DataOffset(nodes: seq<Node>, k: nat, p: nat): nat
    requires k <= |nodes|
  {
    SlotOffset(|nodes|, p) + StoredSize(nodes, k)
  }

  function DataAddress(nodes: seq<Node>, k: nat, p: nat): nat
    requires k < |nodes|
  {
    if IsStored(nodes[k]) then FS_BASE + DataOffset(nodes, k, p) else 0
  }

  function Slots(nodes: seq<Node>, k: nat, p: nat): seq<u8>
    requires k <= |nodes| && 4 <= p && AllEncodable(nodes)
  {
    if k == 0 then [] else Slots(nodes, k - 1, p) + Slot(nodes[k - 1], DataAddress(nodes, k - 1, p), p)
  }

  /** overall_fs_size when creating_image runs. */
  function ImageSize(nodes: seq<Node>, p: nat): nat {
    MAGIC + |nodes| * NodeSize(p) + CountedSize(nodes, |nodes|) + MAGIC
  }

  lemma SlotLength(n: Node, dataAddress: nat, p: nat)
    requires Encodable(n) && 4 <= p
    ensures |Slot(n, dataAddress, p)| == NodeSize(p)
  {
  }

  lemma OneMore(k: nat, n: nat)
    ensures (k + 1) * n == k * n + n
  {
  }

  lemma {:induction false} SlotsLength(nodes: seq<Node>, k: nat, p: nat)
    requires k <= |nodes| && 4 <= p && AllEncodable(nodes)
    ensures |Slots(nodes, k, p)| == k * NodeSize(p)
  {
    if k > 0 {
      SlotsLength(nodes, k - 1, p);
      SlotLength(nodes[k - 1], DataAddress(nodes, k - 1, p), p);
      hide Slot, NodeSize;
      OneMore(k - 1, NodeSize(p));
    }
  }

  lemma {:induction false} PayloadsLength(nodes: seq<Node>, k: nat)
    requires k <= |nodes| && AllEncodable(nodes)
    ensures |Payloads(nodes, k)| == StoredSize(nodes, k)
  {
    if k > 0 { PayloadsLength(nodes, k - 1); }
  }

  /** Every empty frame leaves eight counted bytes unused. */
  lemma {:induction false} CountedIsStored(nodes: seq<Node>, k: nat)
    requires k <= |nodes|
    ensures CountedSize(nodes, k) == StoredSize(nodes, k) + FRAME * EmptyFrames(nodes, k)
  {
    if k > 0 { CountedIsStored(nodes, k - 1); }
  }

  lemma {:induction false} StoredGrows(nodes: seq<Node>, j: nat, k: nat)
    requires j <= k <= |nodes|
    ensures StoredSize(nodes, j) <= StoredSize(nodes, k)
  {
    if j < k { StoredGrows(nodes, j, k - 1); }
  }

  /** The finished image; the bytes of empty frames remain as zeros at the end. */
  function Image(nodes: seq<Node>, p: nat): seq<u8>
    requires 4 <= p && AllEncodable(nodes)
  {
    BigEndian(FS_HEADER) + Slots(nodes, |nodes|, p) + Payloads(nodes, |nodes|) + BigEndian(FS_FOOTER)
      + Zeros(FRAME * EmptyFrames(nodes, |nodes|))
  }

  lemma ImageLength(nodes: seq<Node>, p: nat)
    requires 4 <= p && AllEncodable(nodes)
    ensures |Image(nodes, p)| == ImageSize(nodes, p)
    ensures ImageSize(nodes, p) == DataOffset(nodes, |nodes|, p) + MAGIC + FRAME * EmptyFrames(nodes, |nodes|)
  {
    SlotsLength(nodes, |nodes|, p);
    PayloadsLength(nodes, |nodes|);
    CountedIsStored(nodes, |nodes|);
  }

  lemma MulMonotone(a: nat, b: nat, n: nat)
    requires a <= b
    ensures a * n <= b * n
  {
  }

  lemma SlotsApart(j: nat, k: nat, p: nat)
    requires j < k
    ensures j * NodeSize(p) + NodeSize(p) <= k * NodeSize(p)
  {
    var n := NodeSize(p);
    assert j * n + n == (j + 1) * n;
    assert (j + 1) * n <= k * n by { MulMonotone(j + 1, k, n); }
  }

  /** A node's slot lies in front of the data, and its payload between the slots and the footer. */
  lemma RegionBounds(nodes: seq<Node>, k: nat, p: nat)
    requires 4 <= p && AllEncodable(nodes) && k < |nodes|
    ensures MAGIC <= SlotOffset(k, p) && SlotOffset(k, p) + NodeSize(p) <= DataOffset(nodes, 0, p)
    ensures DataOffset(nodes, 0, p) <= DataOffset(nodes, k, p)
    ensures DataOffset(nodes, k, p) + |Stored(nodes[k])| <= DataOffset(nodes, |nodes|, p)
  {
    SlotsApart(k, |nodes|, p);
    StoredGrows(nodes, 0, k);
    StoredGrows(nodes, k + 1, |nodes|);
  }

  /** The footer ends inside the image, and at its end iff no frame is empty. */
  lemma FooterBounds(nodes: seq<Node>, p: nat)
    requires 4 <= p && AllEncodable(nodes)
    ensures DataOffset(nodes, |nodes|, p) + MAGIC <= ImageSize(nodes, p)
    ensures DataOffset(nodes, |nodes|, p) + MAGIC == ImageSize(nodes, p) <==> EmptyFrames(nodes, |nodes|) == 0
  {
    ImageLength(nodes, p);
  }

  /** No write of the image overlaps another: slots follow each other, and so do payloads. */
  lemma RegionsAreDisjoint(nodes: seq<Node>, j: nat, k: nat, p: nat)
    requires 4 <= p && AllEncodable(nodes) && j < k < |nodes|
    ensures SlotOffset(j, p) + NodeSize(p) <= SlotOffset(k, p)
    ensures DataOffset(nodes, j, p) + |Stored(nodes[j])| <= DataOffset(nodes, k, p)
  {
    StoredGrows(nodes, j + 1, k);
    SlotsApart(j, k, p);
  }
}
