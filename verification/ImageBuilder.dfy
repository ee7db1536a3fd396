/** The image builder: adding nodes, recording their addresses, and writing the image. */
module ImageBuilder {
  import opened Bits
  import opened Framing
  import opened FsTree
  import opened ImageLayout
  import opened ImageCodec

  /** harshfs_node_address */
  datatype Recorded = Recorded(node: int, address: nat)

  lemma NodeEncodable(t: Tree, c: nat)
    requires TreeInv(t) && c < |t.nodes|
    ensures Encodable(t.nodes[c])
    ensures LinksExist(t.nodes, t.nodes[c])
  {
    var n := t.nodes[c];
    assert NodeOk(t, c);
    if t.children[c] != [] { assert ChildOk(t, c, 0); }
    if c > 0 {
      var d: nat := n.prevDir;
      var j :| 0 <= j < |t.children[d]| && t.children[d][j] == c;
      assert ChildOk(t, d, j);
      if j > 0 { assert ChildOk(t, d, j - 1); }
      if j + 1 < |t.children[d]| { assert ChildOk(t, d, j + 1); }
    }
  }

  lemma TreeEncodable(t: Tree)
    requires TreeInv(t)
    ensures AllEncodable(t.nodes)
    ensures forall c :: 0 <= c < |t.nodes| ==> LinksExist(t.nodes, t.nodes[c])
  {
    forall c | 0 <= c < |t.nodes| ensures Encodable(t.nodes[c]) && LinksExist(t.nodes, t.nodes[c]) { NodeEncodable(t, c); }
  }

  lemma LinksOf(t: Tree, c: nat)
    requires TreeInv(t) && c < |t.nodes|
    ensures LinksExist(t.nodes, t.nodes[c])
  {
    NodeEncodable(t, c);
  }

  lemma {:induction false} CountedSame(s: seq<Node>, t: seq<Node>, k: nat)
    requires k <= |s| && k <= |t|
    requires forall i :: 0 <= i < k ==> s[i].data == t[i].data && s[i].size == t[i].size
    ensures CountedSize(s, k) == CountedSize(t, k)
  {
    if k > 0 { CountedSame(s, t, k - 1); }
  }

  /** An accepted insert adds the size of its own frame to what is counted, and nothing else. */
  lemma InsertedCount(t: Tree, parent: int, kind: nat, name: seq<u8>, data: Payload)
    requires TreeInv(t) && NONE <= parent < |t.nodes| && ValidName(name) && Scannable(data)
    requires InsertError(t, parent, kind, name, data) == NO_ERROR
    ensures 0 <= parent ==> forall j :: 0 <= j < |t.children[parent]| ==> t.children[parent][j] < |t.nodes|
    ensures var u := Inserted(t, parent, kind, name, data);
      && |u.nodes| == |t.nodes| + 1
      && CountedSize(u.nodes, |u.nodes|) == CountedSize(t.nodes, |t.nodes|) +
           if 0 <= parent && data.Data? then DataSize(data.bytes) + FRAME else 0
  {
    if 0 <= parent {
      ChildrenInRange(t, parent);
      var u := Inserted(t, parent, kind, name, data);
      forall i | 0 <= i < |t.nodes| ensures u.nodes[i].data == t.nodes[i].data && u.nodes[i].size == t.nodes[i].size {
        LinkedAt(t, parent, i);
      }
      CountedSame(u.nodes, t.nodes, |t.nodes|);
    }
  }

  /** A frame is never longer than the buffer that holds it. */
  lemma SizeOfData(data: Payload)
    requires Scannable(data)
    ensures data.Data? ==> 4 <= |data.bytes| && (HasHeader(data.bytes) ==> DataSize(data.bytes) + FRAME <= |data.bytes|)
  {
  }

  /** Every node of a tree stands in its image byte by byte. */
  lemma NodesInImage(t: Tree, p: nat)
    requires TreeInv(t) && 4 <= p && ImageFits(t.nodes, p)
    ensures AllEncodable(t.nodes)
    ensures forall k :: 0 <= k < |t.nodes| ==> |t.nodes[k].name| < 256 && NodeInImage(Image(t.nodes, p), t.nodes[k], k, p)
  {
    hide TreeInv, Image, NodeInImage;
    TreeEncodable(t);
    forall k | 0 <= k < |t.nodes|
      ensures |t.nodes[k].name| < 256 && NodeInImage(Image(t.nodes, p), t.nodes[k], k, p)
    {
      ImageHoldsNode(t.nodes, k, p);
    }
  }

  // ----- writing into a buffer ------------------------------------------------------------

  /** s with the bytes from at on replaced by t. */
  function Overwrite(s: seq<u8>, at: nat, t: seq<u8>): seq<u8>
    requires at + |t| <= |s|
  {
    s[..at] + t + s[at + |t|..]
  }

  method WriteBytes(image: array<u8>, at: nat, t: seq<u8>)
    requires at + |t| <= image.Length
    modifies image
    ensures image[..] == Overwrite(old(image[..]), at, t)
  {
    var i := 0;
    while i < |t|
      invariant i <= |t|
      invariant forall k :: 0 <= k < image.Length ==> image[k] == if at <= k < at + i then t[k - at] else old(image[k])
    {
      image[at + i] := t[i];
      i := i + 1;
    }
  }

  /** add_4bytes_to_char_pointer: the most significant byte first. */
  method Add4Bytes(image: array<u8>, at: nat, value: nat)
    requires at + 4 <= image.Length
    modifies image
    ensures image[..] == Overwrite(old(image[..]), at, BigEndian(value))
  {
    var values := 3;
    for i := 0 to 4
      invariant values == 3 - i
      invariant forall k :: 0 <= k < image.Length ==>
        image[k] == if at <= k < at + i then BigEndian(value)[k - at] else old(image[k])
    {
      image[at + i] := WordByte(value, values);
      values := values - 1;
    }
  }

  lemma OverwriteMiddle(a: seq<u8>, m: seq<u8>, b: seq<u8>, t: seq<u8>)
    requires |t| <= |m|
    ensures Overwrite(a + m + b, |a|, t) == a + t + (m[|t|..] + b)
  {
  }

  lemma WriteNothing(s: seq<u8>, at: nat)
    requires at <= |s|
    ensures Overwrite(s, at, []) == s
  {
  }

  // ----- the image while it is being written ------------------------------------------------

  /** The bytes behind the payloads that are still zero when k payloads have been written. */
  function Remaining(nodes: seq<Node>, k: nat): nat
    requires k <= |nodes|
  {
    StoredGrows(nodes, k, |nodes|);
    StoredSize(nodes, |nodes|) - StoredSize(nodes, k) + MAGIC + FRAME * EmptyFrames(nodes, |nodes|)
  }

  function Written(nodes: seq<Node>, k: nat, p: nat): (s: seq<u8>)
    requires k <= |nodes| && 4 <= p && AllEncodable(nodes)
  {
    BigEndian(FS_HEADER) + Slots(nodes, k, p)
  }

  function PartialImage(nodes: seq<Node>, k: nat, p: nat): seq<u8>
    requires k <= |nodes| && 4 <= p && AllEncodable(nodes)
  {
    Written(nodes, k, p) + Zeros((|nodes| - k) * NodeSize(p)) + (Payloads(nodes, k) + Zeros(Remaining(nodes, k)))
  }

  lemma Distribute(a: nat, b: nat, n: nat)
    ensures a * n + b * n == (a + b) * n
  {
  }

  lemma WrittenLength(nodes: seq<Node>, k: nat, p: nat)
    requires k <= |nodes| && 4 <= p && AllEncodable(nodes)
    ensures |Written(nodes, k, p)| == SlotOffset(k, p)
    ensures SlotOffset(k, p) + (|nodes| - k) * NodeSize(p) == SlotOffset(|nodes|, p)
  {
    SlotsLength(nodes, k, p);
    Distribute(k, |nodes| - k, NodeSize(p));
  }

  lemma ZerosTail(a: nat, b: nat)
    requires a <= b
    ensures Zeros(b)[a..] == Zeros(b - a)
  {
  }

  lemma ZerosJoin(a: nat, b: nat)
    ensures Zeros(a) + Zeros(b) == Zeros(a + b)
  {
  }

  lemma PartialStart(nodes: seq<Node>, p: nat)
    requires 4 <= p && AllEncodable(nodes)
    ensures MAGIC <= ImageSize(nodes, p)
    ensures Overwrite(Zeros(ImageSize(nodes, p)), 0, BigEndian(FS_HEADER)) == PartialImage(nodes, 0, p)
    ensures DataOffset(nodes, 0, p) == SlotOffset(|nodes|, p) && SlotOffset(0, p) == MAGIC
  {
    ImageLength(nodes, p);
    var n, z := |nodes| * NodeSize(p), Remaining(nodes, 0);
    assert ImageSize(nodes, p) == MAGIC + n + z;
    ZerosTail(MAGIC, MAGIC + n + z);
    ZerosJoin(n, z);
    assert Written(nodes, 0, p) == BigEndian(FS_HEADER);
    assert Payloads(nodes, 0) == [];
    assert [] + Zeros(z) == Zeros(z);
  }

  lemma WriteBehind(w: seq<u8>, z: seq<u8>, d: seq<u8>, r: nat, t: seq<u8>)
    requires |t| <= r
    ensures Overwrite(w + z + (d + Zeros(r)), |w| + |z| + |d|, t) == w + z + ((d + t) + Zeros(r - |t|))
  {
    assert w + z + (d + Zeros(r)) == (w + z + d) + Zeros(r) + [];
    OverwriteMiddle(w + z + d, Zeros(r), [], t);
    ZerosTail(|t|, r);
  }

  lemma WriteInto(w: seq<u8>, m: nat, rest: seq<u8>, t: seq<u8>)
    requires |t| <= m
    ensures Overwrite(w + Zeros(m) + rest, |w|, t) == (w + t) + Zeros(m - |t|) + rest
  {
    OverwriteMiddle(w, Zeros(m), rest, t);
    ZerosTail(|t|, m);
  }

  /** The image when payload k has been written and slot k has not. */
  function BetweenWrites(nodes: seq<Node>, k: nat, p: nat): seq<u8>
    requires k < |nodes| && 4 <= p && AllEncodable(nodes)
  {
    Written(nodes, k, p) + Zeros((|nodes| - k) * NodeSize(p)) + (Payloads(nodes, k + 1) + Zeros(Remaining(nodes, k + 1)))
  }

  lemma RemainingStep(nodes: seq<Node>, k: nat)
    requires k < |nodes| && AllEncodable(nodes)
    ensures Remaining(nodes, k) == Remaining(nodes, k + 1) + |Stored(nodes[k])|
    ensures Payloads(nodes, k + 1) == Payloads(nodes, k) + Stored(nodes[k])
    ensures |Payloads(nodes, k)| == StoredSize(nodes, k)
  {
    assert Encodable(nodes[k]);
    PayloadsLength(nodes, k);
    StoredGrows(nodes, k + 1, |nodes|);
  }

  lemma EncodableNode(nodes: seq<Node>, k: nat)
    requires k < |nodes| && AllEncodable(nodes)
    ensures var n := nodes[k];
      Encodable(n) && |n.name| < NAME_FIELD && n.kind < 256 && LinksInRange(n) && (IsStored(n) ==> n.size + FRAME <= |n.data.bytes|)
  {
    assert Encodable(nodes[k]);
  }

  /** The payload of node k goes behind the payloads before it. */
  lemma PayloadStep(nodes: seq<Node>, k: nat, p: nat)
    requires k < |nodes| && 4 <= p && AllEncodable(nodes)
    ensures DataOffset(nodes, k, p) + |Stored(nodes[k])| <= |PartialImage(nodes, k, p)|
    ensures Overwrite(PartialImage(nodes, k, p), DataOffset(nodes, k, p), Stored(nodes[k])) == BetweenWrites(nodes, k, p)
  {
    hide Written, Stored, NodeSize, Encodable, EmptyFrames, Payloads, Remaining, StoredSize, Overwrite, SlotOffset;
    EncodableNode(nodes, k);
    WrittenLength(nodes, k, p);
    RemainingStep(nodes, k);
    WriteBehind(Written(nodes, k, p), Zeros((|nodes| - k) * NodeSize(p)), Payloads(nodes, k), Remaining(nodes, k), Stored(nodes[k]));
  }

  /** The slot of node k goes behind the slots before it. */
  lemma SlotStep(nodes: seq<Node>, k: nat, p: nat)
    requires k < |nodes| && 4 <= p && AllEncodable(nodes)
    ensures SlotOffset(k, p) + NodeSize(p) <= |BetweenWrites(nodes, k, p)|
    ensures Overwrite(BetweenWrites(nodes, k, p), SlotOffset(k, p), Slot(nodes[k], DataAddress(nodes, k, p), p))
            == PartialImage(nodes, k + 1, p)
  {
    hide Slot, Remaining, Payloads, Encodable, NodeSize;
    EncodableNode(nodes, k);
    var slot, m := Slot(nodes[k], DataAddress(nodes, k, p), p), (|nodes| - k) * NodeSize(p);
    var w, rest := Written(nodes, k, p), Payloads(nodes, k + 1) + Zeros(Remaining(nodes, k + 1));
    WrittenLength(nodes, k, p);
    SlotLength(nodes[k], DataAddress(nodes, k, p), p);
    OneMore(|nodes| - k - 1, NodeSize(p));
    assert Written(nodes, k + 1, p) == w + slot;
    hide Written, Slots;
    WriteInto(w, m, rest, slot);
  }

  lemma PartialStep(nodes: seq<Node>, k: nat, p: nat)
    requires k < |nodes| && 4 <= p && AllEncodable(nodes)
    ensures var s := PartialImage(nodes, k, p);
      && DataOffset(nodes, k, p) + |Stored(nodes[k])| <= |s|
      && SlotOffset(k, p) + NodeSize(p) <= |s|
      && Overwrite(Overwrite(s, DataOffset(nodes, k, p), Stored(nodes[k])), SlotOffset(k, p),
                   Slot(nodes[k], DataAddress(nodes, k, p), p)) == PartialImage(nodes, k + 1, p)
  {
    PayloadStep(nodes, k, p);
    SlotStep(nodes, k, p);
  }

  lemma StoredStep(nodes: seq<Node>, k: nat, p: nat)
    requires k < |nodes| && AllEncodable(nodes)
    ensures DataOffset(nodes, k + 1, p) == DataOffset(nodes, k, p) + |Stored(nodes[k])|
    ensures Stored(nodes[k]) == if IsStored(nodes[k]) then nodes[k].data.bytes[..nodes[k].size + FRAME] else []
  {
  }

  lemma SlotIs(nodes: seq<Node>, k: nat, p: nat)
    requires k < |nodes| && 4 <= p && AllEncodable(nodes)
    ensures var n, da := nodes[k], DataAddress(nodes, k, p);
      Slot(n, da, p) == NameField(n.name) + [n.kind] + Zeros(3) + LittleEndian(n.size)
        + (Pointer(AddressOf(n.nextIn, p), p) + Pointer(AddressOf(n.prevIn, p), p))
        + (Pointer(AddressOf(n.nextDir, p), p) + Pointer(AddressOf(n.prevDir, p), p)) + Pointer(da, p)
  {
  }

  lemma PartialEnd(nodes: seq<Node>, p: nat)
    requires 4 <= p && AllEncodable(nodes)
    ensures DataOffset(nodes, |nodes|, p) + MAGIC <= |PartialImage(nodes, |nodes|, p)|
    ensures Overwrite(PartialImage(nodes, |nodes|, p), DataOffset(nodes, |nodes|, p), BigEndian(FS_FOOTER)) == Image(nodes, p)
  {
    var n := |nodes|;
    var w, d, e := Written(nodes, n, p), Payloads(nodes, n), FRAME * EmptyFrames(nodes, n);
    WrittenLength(nodes, n, p);
    PayloadsLength(nodes, n);
    assert Remaining(nodes, n) == MAGIC + e && 0 * NodeSize(p) == 0 && Zeros(0) == [];
    assert Image(nodes, p) == w + d + BigEndian(FS_FOOTER) + Zeros(e);
    hide Written, Payloads, Remaining, EmptyFrames;
    assert PartialImage(nodes, n, p) == (w + d) + Zeros(MAGIC + e) + [];
    OverwriteMiddle(w + d, Zeros(MAGIC + e), [], BigEndian(FS_FOOTER));
    ZerosTail(MAGIC, MAGIC + e);
    assert (w + d) + BigEndian(FS_FOOTER) + (Zeros(e) + []) == w + d + BigEndian(FS_FOOTER) + Zeros(e);
  }

  class Builder {
    // The size of a pointer in the image.
    const p: nat

    // The nodes allocated so far, ROOT_NODE, and the address table.
    var nodes: seq<Node>
    var root: int
    var table: seq<Recorded>
    var filesystemAddress: nat
    var finalFileAddress: nat
    var overallSize: nat

    ghost var children: seq<seq<nat>>

    ghost function Model(): Tree
      reads this
    {
      Tree(nodes, children)
    }

    /** The address table lists every node once, in order, and the counters match; trailer is 4 once the footer is counted. */
    ghost predicate ValidWith(trailer: nat)
      reads this
    {
      && 4 <= p && TreeInv(Model())
      && root == (if nodes == [] then NONE else 0)
      && |table| == |nodes|
      && (forall k :: 0 <= k < |table| ==> table[k] == Recorded(k, AddressOf(k, p)))
      && filesystemAddress == FS_BASE + MAGIC + |nodes| * NodeSize(p) + trailer
      && finalFileAddress == (if nodes == [] then 0 else FS_BASE + MAGIC + |nodes| * NodeSize(p))
      && overallSize == MAGIC + |nodes| * NodeSize(p) + CountedSize(nodes, |nodes|) + trailer
      && FS_BASE + overallSize + FRAME < U32_LIMIT + trailer
    }

    ghost predicate Valid()
      reads this
    {
      ValidWith(0)
    }

    /** The part of the invariant that writing the image does not disturb. */
    ghost predicate ValidBesides()
      reads this
    {
      && 4 <= p && TreeInv(Model()) && |table| == |nodes|
      && (forall k :: 0 <= k < |table| ==> table[k] == Recorded(k, AddressOf(k, p)))
    }

    /** The address space has room for one more node with this data. */
    ghost predicate Room(data: Payload)
      reads this
    {
      FS_BASE + overallSize + NodeSize(p) + (if data.Data? then |data.bytes| else 0) + 2 * FRAME < U32_LIMIT
    }

    /** The state after main has made room for the header. */
    constructor (p: nat)
      requires 4 <= p
      ensures Valid() && Model() == Tree([], []) && this.p == p
    {
      this.p := p;
      nodes, root, table, children := [], NONE, [], [];
      filesystemAddress, finalFileAddress, overallSize := FS_BASE + MAGIC, 0, MAGIC;
    }

    /** add_node_address */
    method AddNodeAddress(node: int)
      modifies this`table, this`finalFileAddress
      ensures table == old(table) + [Recorded(node, filesystemAddress)] && finalFileAddress == filesystemAddress
    {
      table := table + [Recorded(node, filesystemAddress)];
      finalFileAddress := filesystemAddress;
    }

    /** get_node_address */
    method GetNodeAddress(node: int) returns (address: nat)
      requires |table| == |nodes| && forall k :: 0 <= k < |table| ==> table[k] == Recorded(k, AddressOf(k, p))
      requires NONE <= node
      ensures address == if node < |nodes| then AddressOf(node, p) else 0
    {
      if table == [] || node == NONE { return 0; }
      var i := 0;
      while i < |table|
        invariant i <= |table| && i <= node
      {
        if table[i].node == node { return table[i].address; }
        i := i + 1;
      }
      address := 0;
    }

    /** The walk over the siblings: whether a name is taken, and the last child to link behind. */
    method FindSibling(parent: nat, name: seq<u8>) returns (taken: bool, lastChild: int)
      requires TreeInv(Model()) && parent < |nodes|
      ensures forall j :: 0 <= j < |children[parent]| ==> children[parent][j] < |nodes|
      ensures taken == NameTaken(Model(), parent, name)
      ensures !taken ==> lastChild == At(children[parent], |children[parent]| - 1)
    {
      ChildrenInRange(Model(), parent);
      assert NodeOk(Model(), parent);
      var directory := nodes[parent].nextDir;
      if directory == NONE {
        return nodes[parent].name == name, NONE;
      }
      ghost var j: nat := 0;
      while true
        invariant j < |children[parent]| && directory == children[parent][j]
        invariant forall i :: 0 <= i < j ==> nodes[children[parent][i]].name != name
        decreases |children[parent]| - j
      {
        assert ChildOk(Model(), parent, j);
        if nodes[directory].name == name { return true, NONE; }
        if nodes[directory].nextIn == NONE { return false, directory; }
        directory := nodes[directory].nextIn;
        j := j + 1;
      }
    }

    /** set_node on the node allocated last, with its links: -1 if its data has a wrong header. */
    method SetNode(name: seq<u8>, kind: nat, prevIn: int, prevDir: int, data: Payload) returns (status: int)
      requires Scannable(data)
      modifies this`nodes, this`overallSize
      ensures status == if data.Data? && !HasHeader(data.bytes) then -1 else 0
      ensures var bad := status == -1;
        && nodes == old(nodes) + [Node(name, kind, if data.Data? && !bad then DataSize(data.bytes) else 0,
                                       NONE, prevIn, NONE, prevDir, if bad then NoData else data)]
        && overallSize == old(overallSize) + if data.Data? && !bad then DataSize(data.bytes) + FRAME else 0
    {
      hide Terminated, DataSize, HasHeader;
      var size := 0;
      if data.Data? {
        status := CheckValidity(data.bytes);
        if status == -1 {
          // The node is freed; its links from the tree are not undone.
          nodes := nodes + [Node(name, kind, 0, NONE, prevIn, NONE, prevDir, NoData)];
          return;
        }
        size := GetDataSize(data.bytes);
        overallSize := overallSize + size + 8;
      }
      nodes := nodes + [Node(name, kind, size, NONE, prevIn, NONE, prevDir, data)];
      status := 0;
    }

    /** insert_harshfs_node; the new node's number on success. */
    method InsertNode(parent: int, kind: nat, name: seq<u8>, data: Payload) returns (node: int, error: nat)
      requires Valid() && NONE <= parent < |nodes| && ValidName(name) && Scannable(data)
      modifies this`nodes, this`root, this`overallSize, this`children
      ensures error == InsertError(old(Model()), parent, kind, name, data)
      ensures error == NO_ERROR ==>
        && (0 <= parent ==> forall j :: 0 <= j < |old(children)[parent]| ==> old(children)[parent][j] < |old(nodes)|)
        && Model() == Inserted(old(Model()), parent, kind, name, data)
        && node == |old(nodes)| && root == 0
        && overallSize == old(overallSize) + if 0 <= parent && data.Data? then DataSize(data.bytes) + FRAME else 0
      ensures error != NO_ERROR ==> node == NONE && root == old(root) && overallSize == old(overallSize) && children == old(children)
      ensures error != NO_ERROR && error != DATA_INPUT_IS_INVALID ==> nodes == old(nodes)
      ensures error == DATA_INPUT_IS_INVALID ==>
        |nodes| == |old(nodes)| + 1 &&
        (forall j :: 0 <= j < |old(children)[parent]| ==> old(children)[parent][j] < |old(nodes)|) &&
        nodes[..|old(nodes)|] == LinkedNodes(old(Model()), parent)
    {
      hide Terminated, DataSize, HasHeader;
      if parent == NONE {
        if root == NONE {
          var _ := SetNode(name, DIRECTORY, NONE, NONE, NoData);
          children := [[]];
          root := 0;
          return 0, NO_ERROR;
        } else {
          return NONE, FILE_PARENT_DIR_NOT_FOUND;
        }
      }
      if kind == FILE_CODE || kind == DIRECTORY {
        var taken, previous := FindSibling(parent, name);
        if taken { return NONE, FILE_NAME_EXISTS; }
        assert NodeOk(Model(), parent);
        node := |nodes|;
        if nodes[parent].nextDir == NONE {
          nodes := nodes[parent := nodes[parent].(nextDir := node)];
        } else {
          nodes := nodes[previous := nodes[previous].(nextIn := node)];
        }
        assert nodes == LinkedNodes(old(Model()), parent);
        var status := SetNode(name, kind, previous, parent, data);
        if status == -1 { return NONE, DATA_INPUT_IS_INVALID; }
        children := children[parent := children[parent] + [node]] + [[]];
        return node, NO_ERROR;
      }
      return NONE, UNKNOWN_FILE_TYPE;
    }

    /** The part add_file and add_directory share. */
    method AddNode(parent: int, kind: nat, name: seq<u8>, data: Payload) returns (node: int, error: nat)
      requires Valid() && NONE <= parent < |nodes| && ValidName(name) && Scannable(data) && Room(data)
      modifies this
      ensures error == InsertError(old(Model()), parent, kind, name, data)
      ensures error == NO_ERROR ==>
        && (0 <= parent ==> forall j :: 0 <= j < |old(children)[parent]| ==> old(children)[parent][j] < |old(nodes)|)
        && Model() == Inserted(old(Model()), parent, kind, name, data) && node == |old(nodes)|
      ensures error != NO_ERROR ==> node == NONE
      ensures error != NO_ERROR && error != DATA_INPUT_IS_INVALID ==>
        Model() == old(Model()) && table == old(table) && overallSize == old(overallSize)
      // A bad buffer is the one thing that leaves its mark: a linked node that has no address.
      ensures Valid() <==> !BadBuffer(old(Model()), parent, kind, name, data)
    {
      hide Terminated, DataSize, HasHeader, TreeInv, BadBuffer;
      SizeOfData(data);
      BadBufferIsRejected(Model(), parent, kind, name, data);
      if InsertError(Model(), parent, kind, name, data) == NO_ERROR {
        InsertKeepsTree(Model(), parent, kind, name, data);
        InsertedCount(Model(), parent, kind, name, data);
      }
      OneMore(|nodes|, NodeSize(p));
      node, error := InsertNode(parent, kind, name, data);
      if error != NO_ERROR { return NONE, error; }
      filesystemAddress := filesystemAddress + NodeSize(p);
      overallSize := overallSize + NodeSize(p);
      AddNodeAddress(node);
    }

    /** add_file */
    method AddFile(parent: int, name: seq<u8>, data: Payload) returns (node: int, error: nat)
      requires Valid() && NONE <= parent < |nodes| && ValidName(name) && Scannable(data) && Room(data)
      modifies this
      ensures error == InsertError(old(Model()), parent, FILE_CODE, name, data)
      ensures error == NO_ERROR ==>
        && (0 <= parent ==> forall j :: 0 <= j < |old(children)[parent]| ==> old(children)[parent][j] < |old(nodes)|)
        && Model() == Inserted(old(Model()), parent, FILE_CODE, name, data) && node == |old(nodes)|
        && |nodes| == node + 1 && MadeFrom(nodes[node], parent, 0, name, data)
        && forall c :: 0 <= c < node ==> SameNode(nodes[c], old(nodes)[c])
      ensures error != NO_ERROR && error != DATA_INPUT_IS_INVALID ==>
        Model() == old(Model()) && table == old(table) && overallSize == old(overallSize)
      ensures Valid() <==> !BadBuffer(old(Model()), parent, FILE_CODE, name, data)
    {
      if InsertError(Model(), parent, FILE_CODE, name, data) == NO_ERROR {
        InsertedFields(Model(), parent, FILE_CODE, name, data);
      }
      node, error := AddNode(parent, FILE_CODE, name, data);
    }

    /** add_directory */
    method AddDirectory(parent: int, name: seq<u8>) returns (node: int, error: nat)
      requires Valid() && NONE <= parent < |nodes| && ValidName(name) && Room(NoData)
      modifies this
      ensures error == InsertError(old(Model()), parent, DIRECTORY, name, NoData)
      ensures error == NO_ERROR ==>
        && (0 <= parent ==> forall j :: 0 <= j < |old(children)[parent]| ==> old(children)[parent][j] < |old(nodes)|)
        && Model() == Inserted(old(Model()), parent, DIRECTORY, name, NoData) && node == |old(nodes)|
        && |nodes| == node + 1 && MadeFrom(nodes[node], parent, 1, name, NoData)
        && forall c :: 0 <= c < node ==> SameNode(nodes[c], old(nodes)[c])
      ensures error != NO_ERROR ==> Model() == old(Model()) && table == old(table) && overallSize == old(overallSize)
      ensures Valid()
    {
      if InsertError(Model(), parent, DIRECTORY, name, NoData) == NO_ERROR {
        InsertedFields(Model(), parent, DIRECTORY, name, NoData);
      }
      node, error := AddNode(parent, DIRECTORY, name, NoData);
    }

    /** What main does once all nodes have been added: the footer is counted. */
    method CountTrailer()
      requires Valid()
      modifies this`filesystemAddress, this`overallSize
      ensures ValidWith(MAGIC)
    {
      filesystemAddress := filesystemAddress + 4;
      overallSize := overallSize + 4;
    }

    /** One turn of creating_image: the payload of node k, if any, and then its slot. */
    method WriteNode(image: array<u8>, k: nat, at: nat)
      requires ValidBesides() && AllEncodable(nodes) && k < |table| && at == SlotOffset(k, p)
      requires finalFileAddress == FS_BASE + DataOffset(nodes, k, p)
      requires image[..] == PartialImage(nodes, k, p)
      modifies this`filesystemAddress, this`finalFileAddress, image
      ensures finalFileAddress == FS_BASE + DataOffset(nodes, k + 1, p)
      ensures filesystemAddress - old(filesystemAddress) == finalFileAddress - old(finalFileAddress)
      ensures image[..] == PartialImage(nodes, k + 1, p)
    {
      hide Encodable, PartialImage, Stored, Slot, Overwrite, NodeSize, DataOffset, AddressOf, NameField, LittleEndian, Pointer, AllEncodable;
      var node := nodes[table[k].node];
      EncodableNode(nodes, k);
      PartialStep(nodes, k, p);
      StoredStep(nodes, k, p);
      SlotIs(nodes, k, p);
      LinksOf(Model(), k);
      var nextIn := GetNodeAddress(node.nextIn);
      var prevIn := GetNodeAddress(node.prevIn);
      var nextDir := GetNodeAddress(node.nextDir);
      var prevDir := GetNodeAddress(node.prevDir);
      var dataAddress := 0;
      if node.data.Data? && node.size != 0 {
        dataAddress := finalFileAddress;
        WriteBytes(image, finalFileAddress - FS_BASE, node.data.bytes[..node.size + 8]);
        filesystemAddress := filesystemAddress + node.size + 8;
        finalFileAddress := finalFileAddress + node.size + 8;
      } else {
        WriteNothing(image[..], DataOffset(nodes, k, p));
      }
      var realNode := NameField(node.name) + [node.kind] + Zeros(3) + LittleEndian(node.size)
        + (Pointer(nextIn, p) + Pointer(prevIn, p)) + (Pointer(nextDir, p) + Pointer(prevDir, p)) + Pointer(dataAddress, p);
      WriteBytes(image, at, realNode);
    }

    /** creating_image, up to the point where the bytes are handed to the file system. */
    method CreateImage() returns (image: array<u8>)
      requires ValidWith(MAGIC) && nodes != []
      modifies this`filesystemAddress, this`finalFileAddress
      ensures fresh(image) && AllEncodable(nodes) && image[..] == Image(nodes, p)
      ensures forall k :: 0 <= k < |nodes| ==> |nodes[k].name| < 256 && NodeInImage(image[..], nodes[k], k, p)
      ensures finalFileAddress == FS_BASE + DataOffset(nodes, |nodes|, p)
      ensures filesystemAddress - old(filesystemAddress) == finalFileAddress - old(finalFileAddress)
    {
      hide TreeInv, PartialImage, Image, Overwrite, Encodable, DataOffset, CountedSize, NodeInImage;
      TreeEncodable(Model());
      NodesInImage(Model(), p);
      PartialStart(nodes, p);
      image := new u8[overallSize](_ => 0);
      assert image[..] == Zeros(ImageSize(nodes, p));
      Add4Bytes(image, 0, FS_HEADER);
      var at, k := 4, 0;
      while k < |table|
        invariant k <= |nodes| && at == SlotOffset(k, p) && ValidBesides()
        invariant finalFileAddress == FS_BASE + DataOffset(nodes, k, p)
        invariant filesystemAddress - old(filesystemAddress) == finalFileAddress - old(finalFileAddress)
        invariant image[..] == PartialImage(nodes, k, p)
      {
        WriteNode(image, k, at);
        OneMore(k, NodeSize(p));
        at := at + NodeSize(p);
        k := k + 1;
      }
      PartialEnd(nodes, p);
      Add4Bytes(image, finalFileAddress - FS_BASE, FS_FOOTER);
    }
  }
}
