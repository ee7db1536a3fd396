/** The two programs that scan an image: the host tool that lists it and the kernel that measures it. */
module ImageReader {
  import opened Bits
  import opened Framing
  import opened FsTree
  import opened ImageLayout
  import opened ImageCodec

  ghost predicate StartsLike(n: Node, w: nat) { |n.name| < NAME_FIELD && MagicAt(NameField(n.name), 0) == w }

  ghost predicate PlainName(n: Node) { !StartsLike(n, FILE_HEADER) && !StartsLike(n, FS_FOOTER) }

  /** No name starts like a file or like the end of the image. */
  ghost predicate PlainNames(nodes: seq<Node>)
    requires AllEncodable(nodes)
  {
    forall k :: 0 <= k < |nodes| ==> PlainName(nodes[k])
  }

  /** latest_size after k nodes: eight bytes are counted even for nodes without data. */
  function SeenSize(nodes: seq<Node>, k: nat): nat
    requires k <= |nodes|
  {
    if k == 0 then 0 else SeenSize(nodes, k - 1) + nodes[k - 1].size + FRAME
  }

  lemma {:induction false} SeenCoversCounted(nodes: seq<Node>, k: nat)
    requires k <= |nodes| && forall i :: 0 <= i < |nodes| ==> nodes[i].data.NoData? ==> nodes[i].size == 0
    ensures SeenSize(nodes, k) >= CountedSize(nodes, k)
    ensures 0 < k && nodes[0].data.NoData? ==> SeenSize(nodes, k) >= CountedSize(nodes, k) + FRAME
  {
    if k > 0 { SeenCoversCounted(nodes, k - 1); }
  }

  // ----- what stands at the start of a slot and of the data -------------------------------------

  lemma SliceMagic(s: seq<u8>, at: nat, n: nat)
    requires at + n <= |s| && 4 <= n
    ensures MagicAt(s, at) == MagicAt(s[at..at + n], 0)
  {
  }

  lemma NameInSlot(n: Node, da: nat, p: nat)
    requires Encodable(n) && 4 <= p
    ensures Slot(n, da, p)[0..0 + NAME_FIELD] == NameField(n.name)
  {
    hide NameField, Pointer, SiblingLinks, TreeLinks, LittleEndian;
  }

  lemma SlotStart(nodes: seq<Node>, k: nat, p: nat)
    requires 4 <= p && AllEncodable(nodes) && k < |nodes|
    ensures |nodes[k].name| < NAME_FIELD && 4 <= NodeSize(p)
    ensures SlotOffset(k, p) + NodeSize(p) <= SlotOffset(|nodes|, p) <= |Image(nodes, p)|
    ensures MagicAt(Image(nodes, p), SlotOffset(k, p)) == MagicAt(NameField(nodes[k].name), 0)
    ensures Word(Image(nodes, p), SlotOffset(k, p) + SIZE_FIELD) == nodes[k].size
  {
    hide Image, Slot, NameField, Word, CString, SlotOffset, DataAddress, MagicAt;
    var image, at, n, da := Image(nodes, p), SlotOffset(k, p), nodes[k], DataAddress(nodes, k, p);
    ImageSlot(nodes, k, p);
    assert Encodable(n);
    var s := Slot(n, da, p);
    SlotHead(n, da, p);
    NameInSlot(n, da, p);
    SliceMagic(image, at, NodeSize(p));
    SliceMagic(s, 0, NAME_FIELD);
    SliceWord(image, at, NodeSize(p), SIZE_FIELD);
  }

  /** The first node whose payload is stored, or the number of nodes. */
  function FirstStored(nodes: seq<Node>, k: nat): (j: nat)
    requires k <= |nodes|
    ensures k <= j <= |nodes|
    ensures j < |nodes| ==> IsStored(nodes[j])
    ensures forall i :: k <= i < j ==> !IsStored(nodes[i])
    decreases |nodes| - k
  {
    if k == |nodes| || IsStored(nodes[k]) then k else FirstStored(nodes, k + 1)
  }

  lemma {:induction false} NothingStored(nodes: seq<Node>, j: nat)
    requires j <= |nodes| && forall i :: 0 <= i < j ==> !IsStored(nodes[i])
    ensures StoredSize(nodes, j) == 0
  {
    if j > 0 { NothingStored(nodes, j - 1); }
  }

  lemma MagicInside(a: seq<u8>, w: nat, b: seq<u8>)
    requires w < U32_LIMIT
    ensures MagicAt(a + BigEndian(w) + b, |a|) == w
  {
    var s := a + BigEndian(w) + b;
    assert s[|a|..|a| + 4] == BigEndian(w);
    MagicOfBytes(s, |a|, w);
  }

  lemma FooterInImage(nodes: seq<Node>, p: nat)
    requires 4 <= p && AllEncodable(nodes)
    ensures DataOffset(nodes, |nodes|, p) + MAGIC <= |Image(nodes, p)|
    ensures MagicAt(Image(nodes, p), DataOffset(nodes, |nodes|, p)) == FS_FOOTER
  {
    var front, z := BigEndian(FS_HEADER) + Slots(nodes, |nodes|, p) + Payloads(nodes, |nodes|), Zeros(FRAME * EmptyFrames(nodes, |nodes|));
    SlotsLength(nodes, |nodes|, p);
    PayloadsLength(nodes, |nodes|);
    hide Slots, Payloads, EmptyFrames;
    assert Image(nodes, p) == front + BigEndian(FS_FOOTER) + z;
    MagicInside(front, FS_FOOTER, z);
  }

  ghost predicate FramesHaveHeaders(nodes: seq<Node>) {
    forall k :: 0 <= k < |nodes| ==> nodes[k].data.Data? ==> HasHeader(nodes[k].data.bytes)
  }

  /** A stored payload keeps the header magic of its buffer. */
  lemma StoredStart(n: Node)
    requires Encodable(n) && IsStored(n) && HasHeader(n.data.bytes)
    ensures |Stored(n)| >= 4 && MagicAt(Stored(n), 0) == FILE_HEADER
  {
    SameMagic(Stored(n), 0, n.data.bytes, 0);
  }

  /** Behind the slots comes the first stored frame, or the footer if nothing is stored. */
  lemma DataStart(nodes: seq<Node>, p: nat)
    requires 4 <= p && AllEncodable(nodes) && FramesHaveHeaders(nodes)
    ensures SlotOffset(|nodes|, p) + MAGIC <= |Image(nodes, p)|
    ensures MagicAt(Image(nodes, p), SlotOffset(|nodes|, p)) == if FirstStored(nodes, 0) < |nodes| then FILE_HEADER else FS_FOOTER
  {
    var j := FirstStored(nodes, 0);
    NothingStored(nodes, j);
    FooterInImage(nodes, p);
    if j < |nodes| {
      assert Encodable(nodes[j]) && DataOffset(nodes, j, p) == SlotOffset(|nodes|, p);
      StoredStart(nodes[j]);
      ImagePayload(nodes, j, p);
      hide Image, Stored, MagicAt, SlotOffset, DataOffset, StoredSize, Encodable;
      SliceMagic(Image(nodes, p), SlotOffset(|nodes|, p), |Stored(nodes[j])|);
    }
  }

  // ----- the host tool's reader ---------------------------------------------------------------

  /** What read_harshfs_image does: it prints a node at each of these offsets, or it never ends. */
  datatype Listing = Endless | Visited(at: seq<nat>)

  /** The loop of read_harshfs_image from offset at on; latestSize is a 32-bit sum. */
  function List(image: seq<u8>, size: nat, p: nat, at: nat, latestSize: nat, visited: seq<nat>): Listing
    requires size <= |image|
    decreases size - at
  {
    if at + 4 > size || MagicAt(image, at) == FS_FOOTER then Visited(visited)
    else if MagicAt(image, at) == FILE_HEADER then
      if latestSize == 0 then Endless else List(image, size, p, at + latestSize, latestSize, visited)
    else
      List(image, size, p, at + NodeSize(p), (latestSize + Word(image, at + SIZE_FIELD) + 8) % U32_LIMIT, visited + [at])
  }

  function ListAll(image: seq<u8>, p: nat): Listing { List(image, |image|, p, 4, 0, []) }

  /** read_harshfs_image: the offsets at which it prints a node. */
  method ReadImage(image: seq<u8>, p: nat) returns (visited: seq<nat>)
    requires ListAll(image, p) != Endless
    ensures Visited(visited) == ListAll(image, p)
  {
    hide MagicAt, Word;
    visited := [];
    var overallSize := |image|;
    var at: nat, latestSize: nat := 4, 0;
    while at <= overallSize - 4
      invariant List(image, overallSize, p, at, latestSize, visited) == ListAll(image, p)
      decreases overallSize - at
    {
      var magic := GetHeaderOrFooter(image, at);
      if magic == FS_FOOTER { break; }
      if magic == FILE_HEADER {
        at := at + latestSize;
      } else {
        var size := Word(image, at + SIZE_FIELD);
        latestSize := (latestSize + size + 8) % U32_LIMIT;
        visited := visited + [at];
        at := at + NodeSize(p);
      }
    }
  }

  // ----- what it lists of an image ------------------------------------------------------------

  /** The first k slots. */
  function SlotOffsets(k: nat, p: nat): (s: seq<nat>)
    ensures |s| == k && forall i :: 0 <= i < k ==> s[i] == SlotOffset(i, p)
  {
    seq(k, (i: nat) => SlotOffset(i, p))
  }

  /** Nodes as a tree holds them: the root has no data, and all data was accepted. */
  ghost predicate Listable(nodes: seq<Node>, p: nat) {
    && 4 <= p && AllEncodable(nodes) && FramesHaveHeaders(nodes) && ImageFits(nodes, p)
    && nodes != [] && nodes[0].data.NoData?
    && forall k :: 0 <= k < |nodes| ==> nodes[k].data.NoData? ==> nodes[k].size == 0
  }

  lemma TreeListable(t: Tree, p: nat)
    requires TreeInv(t) && t.nodes != [] && 4 <= p
    requires AllEncodable(t.nodes) && ImageFits(t.nodes, p)
    ensures Listable(t.nodes, p)
  {
    assert NodeOk(t, 0);
    forall k | 0 <= k < |t.nodes|
      ensures t.nodes[k].data.Data? ==> HasHeader(t.nodes[k].data.bytes)
      ensures t.nodes[k].data.NoData? ==> t.nodes[k].size == 0
    {
      assert NodeOk(t, k);
    }
  }

  /** The jump over the data region always ends behind the last place where the loop would go on. */
  lemma JumpLeaves(nodes: seq<Node>, p: nat)
    requires Listable(nodes, p)
    ensures SlotOffset(|nodes|, p) + SeenSize(nodes, |nodes|) > ImageSize(nodes, p) - MAGIC
  {
    SeenCoversCounted(nodes, |nodes|);
  }

  lemma {:induction false} CountedGrows(nodes: seq<Node>, k: nat)
    requires k <= |nodes|
    ensures CountedSize(nodes, k) <= CountedSize(nodes, |nodes|)
    decreases |nodes| - k
  {
    if k < |nodes| { CountedGrows(nodes, k + 1); }
  }

  lemma SlotsCover(n: nat, p: nat)
    ensures FRAME * n <= n * NodeSize(p)
  {
    MulMonotone(FRAME, NodeSize(p), n);
  }

  /** The sum of the sizes does not wrap. */
  lemma {:induction false} SeenFits(nodes: seq<Node>, k: nat, p: nat)
    requires k <= |nodes| && Listable(nodes, p)
    ensures SeenSize(nodes, k) < U32_LIMIT
    ensures SeenSize(nodes, k) <= CountedSize(nodes, k) + FRAME * k
  {
    if k > 0 { SeenFits(nodes, k - 1, p); }
    hide Listable;
    CountedGrows(nodes, k);
    SlotsCover(|nodes|, p);
  }

  /** One turn of the loop at an offset where no magic number stands. */
  lemma ListTurn(image: seq<u8>, size: nat, p: nat, at: nat, latestSize: nat, visited: seq<nat>)
    requires at + 4 <= size <= |image| && MagicAt(image, at) != FS_FOOTER && MagicAt(image, at) != FILE_HEADER
    requires latestSize + Word(image, at + SIZE_FIELD) + 8 < U32_LIMIT
    ensures List(image, size, p, at, latestSize, visited)
         == List(image, size, p, at + NodeSize(p), latestSize + Word(image, at + SIZE_FIELD) + 8, visited + [at])
  {
    hide MagicAt, Word, NodeSize;
  }

  lemma SeenStep(nodes: seq<Node>, k: nat, p: nat)
    requires k < |nodes|
    ensures SeenSize(nodes, k + 1) == SeenSize(nodes, k) + nodes[k].size + 8
    ensures SlotOffset(k + 1, p) == SlotOffset(k, p) + NodeSize(p)
  {
    OneMore(k, NodeSize(p));
  }

  lemma SlotHolds(nodes: seq<Node>, k: nat, p: nat)
    requires Listable(nodes, p) && k < |nodes| && PlainName(nodes[k])
    ensures var image, at := Image(nodes, p), SlotOffset(k, p);
      && at + 4 <= ImageSize(nodes, p) == |image|
      && MagicAt(image, at) != FS_FOOTER && MagicAt(image, at) != FILE_HEADER
      && Word(image, at + SIZE_FIELD) == nodes[k].size
  {
    ImageLength(nodes, p);
    SlotStart(nodes, k, p);
    hide Image, Word, MagicAt, NameField, SlotOffset;
  }

  /** The loop moves from a slot with a plain name to the next one. */
  lemma ListStep(nodes: seq<Node>, k: nat, p: nat, visited: seq<nat>)
    requires Listable(nodes, p) && k < |nodes| && PlainName(nodes[k])
    ensures |Image(nodes, p)| == ImageSize(nodes, p)
    ensures var image, size := Image(nodes, p), ImageSize(nodes, p);
      List(image, size, p, SlotOffset(k, p), SeenSize(nodes, k), visited)
        == List(image, size, p, SlotOffset(k + 1, p), SeenSize(nodes, k + 1), visited + [SlotOffset(k, p)])
  {
    hide List, Image, ImageSize, ImageFits, Word, MagicAt, SeenSize, SlotOffset, NodeSize, PlainName, FramesHaveHeaders;
    SlotHolds(nodes, k, p);
    SeenStep(nodes, k, p);
    SeenFits(nodes, k + 1, p);
    ListTurn(Image(nodes, p), ImageSize(nodes, p), p, SlotOffset(k, p), SeenSize(nodes, k), visited);
  }

  lemma ListStart(nodes: seq<Node>, p: nat)
    requires Listable(nodes, p)
    ensures |Image(nodes, p)| == ImageSize(nodes, p)
    ensures ListAll(Image(nodes, p), p)
         == List(Image(nodes, p), ImageSize(nodes, p), p, SlotOffset(0, p), SeenSize(nodes, 0), SlotOffsets(0, p))
  {
    ImageLength(nodes, p);
    hide Image, ImageSize, List;
    assert SlotOffsets(0, p) == [];
  }

  lemma OneSlotMore(k: nat, p: nat)
    ensures SlotOffsets(k + 1, p) == SlotOffsets(k, p) + [SlotOffset(k, p)]
  {
    hide SlotOffset;
  }

  /** As long as names are plain, the loop visits one slot after the other. */
  lemma {:induction false} ListPlain(nodes: seq<Node>, k: nat, p: nat)
    requires Listable(nodes, p) && k <= |nodes| && forall i :: 0 <= i < k ==> PlainName(nodes[i])
    ensures |Image(nodes, p)| == ImageSize(nodes, p)
    ensures ListAll(Image(nodes, p), p)
         == List(Image(nodes, p), ImageSize(nodes, p), p, SlotOffset(k, p), SeenSize(nodes, k), SlotOffsets(k, p))
  {
    hide *;
    if k == 0 {
      ListStart(nodes, p);
    } else {
      ListPlain(nodes, k - 1, p);
      ListStep(nodes, k - 1, p, SlotOffsets(k - 1, p));
      OneSlotMore(k - 1, p);
    }
  }

  /** What lies behind the place where the loop goes on is all that it will still print. */
  lemma {:induction false} ListAhead(image: seq<u8>, size: nat, p: nat, at: nat, latestSize: nat, visited: seq<nat>, x: nat)
    requires size <= |image| && x < at && x !in visited
    ensures var r := List(image, size, p, at, latestSize, visited); r.Visited? ==> x !in r.at
    decreases size - at
  {
    hide MagicAt, Word;
    if at + 4 > size || MagicAt(image, at) == FS_FOOTER {
    } else if MagicAt(image, at) == FILE_HEADER {
      if latestSize > 0 { ListAhead(image, size, p, at + latestSize, latestSize, visited, x); }
    } else {
      ListAhead(image, size, p, at + NodeSize(p), (latestSize + Word(image, at + SIZE_FIELD) + 8) % U32_LIMIT, visited + [at], x);
    }
  }

  lemma SizeAtLeast(nodes: seq<Node>, p: nat)
    requires 4 <= p && AllEncodable(nodes)
    ensures ImageSize(nodes, p) >= SlotOffset(|nodes|, p) + MAGIC
    ensures 0 < NodeSize(p) && SlotOffset(0, p) == MAGIC
  {
  }

  /** An offset with a magic number is not visited, and a header before any node is never left. */
  lemma ListMagic(image: seq<u8>, size: nat, p: nat, at: nat, latestSize: nat, visited: seq<nat>)
    requires at + 4 <= size <= |image| && at !in visited
    requires MagicAt(image, at) == FS_FOOTER || MagicAt(image, at) == FILE_HEADER
    ensures var r := List(image, size, p, at, latestSize, visited);
      && (r.Visited? ==> at !in r.at)
      && (MagicAt(image, at) == FILE_HEADER && latestSize == 0 ==> r == Endless)
      && (MagicAt(image, at) == FILE_HEADER && latestSize > 0 ==> r == List(image, size, p, at + latestSize, latestSize, visited))
  {
    hide MagicAt, Word, NodeSize;
    if MagicAt(image, at) == FILE_HEADER && latestSize > 0 {
      ListAhead(image, size, p, at + latestSize, latestSize, visited, at);
    }
  }

  lemma NotYetVisited(k: nat, p: nat)
    ensures SlotOffset(k, p) !in SlotOffsets(k, p)
  {
    forall i | 0 <= i < k ensures SlotOffset(i, p) < SlotOffset(k, p) { SlotsApart(i, k, p); }
  }

  lemma NothingSeen(nodes: seq<Node>)
    ensures SeenSize(nodes, 0) == 0
  {
  }

  lemma SeenPositive(nodes: seq<Node>, k: nat)
    requires k <= |nodes|
    ensures 0 < k ==> SeenSize(nodes, k) > 0
  {
  }

  /** The first slot whose name starts like a magic number is never visited; if it is the root's, a header is fatal. */
  lemma OddNameSkipped(nodes: seq<Node>, k: nat, p: nat)
    requires Listable(nodes, p) && k < |nodes|
    requires (forall i :: 0 <= i < k ==> PlainName(nodes[i])) && !PlainName(nodes[k])
    ensures var r := ListAll(Image(nodes, p), p); r.Visited? ==> SlotOffset(k, p) !in r.at
    ensures k == 0 && StartsLike(nodes[0], FILE_HEADER) ==> ListAll(Image(nodes, p), p) == Endless
  {
    hide Image, ImageSize, List, MagicAt, Word, NameField, SlotOffset, NodeSize, SeenSize;
    ListPlain(nodes, k, p);
    SlotStart(nodes, k, p);
    NotYetVisited(k, p);
    ListMagic(Image(nodes, p), ImageSize(nodes, p), p, SlotOffset(k, p), SeenSize(nodes, k), SlotOffsets(k, p));
    NothingSeen(nodes);
  }

  /** With plain names the loop stops behind the slots, however many bytes of data follow. */
  lemma PlainListed(nodes: seq<Node>, p: nat)
    requires Listable(nodes, p) && PlainNames(nodes)
    ensures ListAll(Image(nodes, p), p) == Visited(SlotOffsets(|nodes|, p))
  {
    ListPlain(nodes, |nodes|, p);
    DataStart(nodes, p);
    JumpLeaves(nodes, p);
    SeenPositive(nodes, |nodes|);
    SizeAtLeast(nodes, p);
  }

  /** A name that begins like a file header makes the loop jump: by the sizes seen so far, and eight bytes for every node. */
  lemma OddNameJumps(nodes: seq<Node>, k: nat, p: nat)
    requires Listable(nodes, p) && 0 < k < |nodes| && StartsLike(nodes[k], FILE_HEADER)
    requires forall i :: 0 <= i < k ==> PlainName(nodes[i])
    ensures |Image(nodes, p)| == ImageSize(nodes, p)
    ensures ListAll(Image(nodes, p), p)
         == List(Image(nodes, p), ImageSize(nodes, p), p, SlotOffset(k, p) + SeenSize(nodes, k), SeenSize(nodes, k), SlotOffsets(k, p))
  {
    hide Image, ImageSize, List, MagicAt, Word, NameField, SlotOffset, NodeSize, SeenSize;
    ListPlain(nodes, k, p);
    SlotStart(nodes, k, p);
    NotYetVisited(k, p);
    SeenPositive(nodes, k);
    ListMagic(Image(nodes, p), ImageSize(nodes, p), p, SlotOffset(k, p), SeenSize(nodes, k), SlotOffsets(k, p));
  }

  lemma FirstOddName(nodes: seq<Node>) returns (k: nat)
    requires AllEncodable(nodes) && !PlainNames(nodes)
    ensures k < |nodes| && !PlainName(nodes[k]) && forall i :: 0 <= i < k ==> PlainName(nodes[i])
  {
    k := 0;
    while PlainName(nodes[k])
      invariant k < |nodes| && forall i :: 0 <= i < k ==> PlainName(nodes[i])
      decreases |nodes| - k
    {
      k := k + 1;
    }
  }

  /** The image of a tree is listed slot by slot, each once and in order, iff no name starts like a magic number. */
  lemma ListsEverySlot(nodes: seq<Node>, p: nat)
    requires Listable(nodes, p)
    ensures ListAll(Image(nodes, p), p) == Visited(SlotOffsets(|nodes|, p)) <==> PlainNames(nodes)
  {
    if PlainNames(nodes) {
      PlainListed(nodes, p);
    } else {
      var k := FirstOddName(nodes);
      OddNameSkipped(nodes, k, p);
      assert SlotOffsets(|nodes|, p)[k] == SlotOffset(k, p);
    }
  }

  // ----- the kernel's scan --------------------------------------------------------------------

  /** Where an image starts, and how large it is, according to the first two magic numbers from `from` on. */
  function Measured(memory: seq<u8>, from: nat): (nat, nat)
    requires from <= |memory|
  {
    var start := Find(memory, from, FS_HEADER);
    (start, Find(memory, start, FS_FOOTER) + 4 - start)
  }

  ghost predicate Measurable(memory: seq<u8>, from: nat)
    requires from <= |memory|
  {
    var start := Find(memory, from, FS_HEADER);
    start < |memory| && Find(memory, start, FS_FOOTER) < |memory|
  }

  /** The scan of load_harshfs_kernel_image. */
  method MeasureImage(memory: seq<u8>, from: nat) returns (start: nat, size: nat)
    requires from <= |memory| && Measurable(memory, from)
    ensures (start, size) == Measured(memory, from)
  {
    hide MagicAt;
    start := from;
    var magic := GetHeaderOrFooter(memory, start);
    while magic != FS_HEADER
      invariant start <= Find(memory, from, FS_HEADER) && magic == MagicAt(memory, start)
      invariant forall k :: from <= k < start ==> MagicAt(memory, k) != FS_HEADER
      decreases |memory| - start
    {
      start := start + 1;
      magic := GetHeaderOrFooter(memory, start);
    }
    FindIs(memory, from, FS_HEADER, start);
    size := 0;
    var at := start;
    while magic != FS_FOOTER
      invariant at == start + size <= Find(memory, start, FS_FOOTER) && magic == MagicAt(memory, at)
      invariant forall k :: start <= k < at ==> MagicAt(memory, k) != FS_FOOTER
      decreases |memory| - at
    {
      size := size + 1;
      at := at + 1;
      magic := GetHeaderOrFooter(memory, at);
    }
    FindIs(memory, start, FS_FOOTER, at);
    size := size + 4;
  }

  lemma ImageMagicsAreBorderless()
    ensures Borderless(FS_HEADER) && Borderless(FS_FOOTER)
  {
  }

  /** A scan passes over bytes that differ from the first byte of the number. */
  lemma {:induction false} NotAtOther(s: seq<u8>, i: nat, j: nat, w: nat)
    requires i <= j <= |s| && w < U32_LIMIT && forall k :: i <= k < j ==> s[k] != BigEndian(w)[0]
    ensures Find(s, i, w) == Find(s, j, w)
    decreases j - i
  {
    if i < j {
      NotAtOther(s, i + 1, j, w);
      if i + 4 <= |s| {
        MagicOfBytes(s, i, w);
        assert s[i..i + 4][0] == s[i];
      }
    }
  }

  /** No footer magic starts inside the header magic. */
  lemma FooterBehindHeader(s: seq<u8>)
    ensures Find(BigEndian(FS_HEADER) + s, 0, FS_FOOTER) == 4 + Find(s, 0, FS_FOOTER)
  {
    var h := BigEndian(FS_HEADER);
    assert h == [0xC9, 0xB3, 0xFC, 0xCB] && BigEndian(FS_FOOTER)[0] == 0x5D;
    FindShift(h, s, 0, FS_FOOTER);
    NotAtOther(h + s, 0, 4, FS_FOOTER);
  }

  /** The content in front of the image's footer. */
  function Content(nodes: seq<Node>, p: nat): seq<u8>
    requires 4 <= p && AllEncodable(nodes)
  {
    Slots(nodes, |nodes|, p) + Payloads(nodes, |nodes|)
  }

  lemma ContentEnds(nodes: seq<Node>, p: nat)
    requires 4 <= p && AllEncodable(nodes)
    ensures ImageSize(nodes, p) == |Content(nodes, p)| + 8 + FRAME * EmptyFrames(nodes, |nodes|)
    ensures ImageSize(nodes, p) == |Image(nodes, p)|
  {
    SlotsLength(nodes, |nodes|, p);
    PayloadsLength(nodes, |nodes|);
    ImageLength(nodes, p);
    hide Slots, Payloads, EmptyFrames, ImageSize, Image;
  }

  lemma ImageOfContent(nodes: seq<Node>, p: nat) returns (zeros: seq<u8>)
    requires 4 <= p && AllEncodable(nodes)
    ensures Image(nodes, p) == BigEndian(FS_HEADER) + Content(nodes, p) + BigEndian(FS_FOOTER) + zeros
  {
    hide Slots, Payloads, EmptyFrames, BigEndian;
    zeros := Zeros(FRAME * EmptyFrames(nodes, |nodes|));
    assert BigEndian(FS_HEADER) + Slots(nodes, |nodes|, p) + Payloads(nodes, |nodes|) == BigEndian(FS_HEADER) + Content(nodes, p);
  }

  lemma Regrouped4(a: seq<u8>, b: seq<u8>, c: seq<u8>, d: seq<u8>, e: seq<u8>)
    ensures (a + b + c + d) + e == a + (b + c + (d + e))
  {
  }

  /** A scan of the image ends with the image iff the footer magic is not in its content and no frame is empty. */
  lemma FooterFound(nodes: seq<Node>, p: nat, after: seq<u8>)
    requires 4 <= p && AllEncodable(nodes)
    ensures var f := Find(Image(nodes, p) + after, 0, FS_FOOTER);
      && f < |Image(nodes, p) + after|
      && (f + 4 == ImageSize(nodes, p) <==> !MagicIn(Content(nodes, p), FS_FOOTER) && EmptyFrames(nodes, |nodes|) == 0)
  {
    var image, c := Image(nodes, p), Content(nodes, p);
    ContentEnds(nodes, p);
    var zeros := ImageOfContent(nodes, p);
    ImageMagicsAreBorderless();
    var rest := c + BigEndian(FS_FOOTER) + (zeros + after);
    hide *;
    Regrouped4(BigEndian(FS_HEADER), c, BigEndian(FS_FOOTER), zeros, after);
    FooterBehindHeader(rest);
    FindMarked(c, 0, FS_FOOTER, zeros + after);
    FindNothing(c, 0, FS_FOOTER);
    assert c[0..] == c;
  }

  /** The header that a scan of memory finds first is the image's iff the magic does not lie in front of it. */
  lemma HeaderFound(nodes: seq<Node>, p: nat, before: seq<u8>, after: seq<u8>, from: nat)
    requires 4 <= p && AllEncodable(nodes) && from <= |before|
    ensures var start := Find(before + (Image(nodes, p) + after), from, FS_HEADER);
      start <= |before| && (start == |before| <==> !MagicIn(before[from..], FS_HEADER))
  {
    var image := Image(nodes, p);
    assert image[..4] == BigEndian(FS_HEADER);
    ImageMagicsAreBorderless();
    hide Image, BigEndian, Find, MagicIn;
    assert before + (image + after) == before + BigEndian(FS_HEADER) + (image[4..] + after);
    FindMarked(before, from, FS_HEADER, image[4..] + after);
    FindNothing(before, from, FS_HEADER);
  }

  /** What the loader measures in memory that holds these bytes behind others. */
  lemma MeasuredBehind(before: seq<u8>, rest: seq<u8>, from: nat)
    requires from <= |before| && Find(before + rest, from, FS_HEADER) <= |before| && Find(rest, 0, FS_FOOTER) < |rest|
    ensures Measurable(before + rest, from)
    ensures Measured(before + rest, from).0 == Find(before + rest, from, FS_HEADER)
    ensures Measured(before + rest, from).0 == |before| ==> Measured(before + rest, from).1 == Find(rest, 0, FS_FOOTER) + 4
  {
    var memory := before + rest;
    var start, f := Find(memory, from, FS_HEADER), Find(memory, |before|, FS_FOOTER);
    FindShift(before, rest, 0, FS_FOOTER);
    assert MagicAt(memory, f) == FS_FOOTER && start <= f;
    assert Find(memory, start, FS_FOOTER) <= f;
  }

  lemma MeasuresExactly(nodes: seq<Node>, p: nat, before: seq<u8>, after: seq<u8>, from: nat)
    requires 4 <= p && AllEncodable(nodes) && from <= |before|
    ensures var memory := before + (Image(nodes, p) + after);
      && Measurable(memory, from)
      && (Measured(memory, from) == (|before|, ImageSize(nodes, p)) <==>
          && !MagicIn(before[from..], FS_HEADER)
          && !MagicIn(Content(nodes, p), FS_FOOTER)
          && EmptyFrames(nodes, |nodes|) == 0)
  {
    hide *;
    var rest := Image(nodes, p) + after;
    HeaderFound(nodes, p, before, after, from);
    FooterFound(nodes, p, after);
    MeasuredBehind(before, rest, from);
  }

  lemma Regrouped(a: seq<u8>, b: seq<u8>, c: seq<u8>)
    ensures a + b + c == a + (b + c)
  {
  }

  /**
   For an image anywhere in memory the kernel's scan finds it, and measures overall_fs_size, iff the
   header magic does not lie in front of it, the footer magic is not part of its content, and no
   frame is empty.
   */
  lemma LoaderMeasures(nodes: seq<Node>, p: nat, before: seq<u8>, after: seq<u8>, from: nat)
    requires 4 <= p && AllEncodable(nodes) && from <= |before|
    ensures var memory := before + Image(nodes, p) + after;
      && Measurable(memory, from)
      && (Measured(memory, from) == (|before|, ImageSize(nodes, p)) <==>
          && !MagicIn(before[from..], FS_HEADER)
          && !MagicIn(Content(nodes, p), FS_FOOTER)
          && EmptyFrames(nodes, |nodes|) == 0)
  {
    hide *;
    MeasuresExactly(nodes, p, before, after, from);
    Regrouped(before, Image(nodes, p), after);
  }
}
