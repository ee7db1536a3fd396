/** The HarshFS tree: nodes linked as first child, next and previous sibling, and parent. */
module FsTree {
  import opened Bits
  import opened Framing

  // Node k is the k-th node allocated; NONE is the null pointer.
  const NONE: int := -1

  const FILE_CODE: nat := 0
  const DIRECTORY: nat := 1

  const NO_ERROR: nat := 0
  const FILE_NAME_EXISTS: nat := 1
  const FILE_PARENT_DIR_NOT_FOUND: nat := 2
  const UNKNOWN_FILE_TYPE: nat := 3
  const DATA_INPUT_IS_INVALID: nat := 4

  const NAME_FIELD: nat := 256

  /** A data pointer: null, or a buffer that should hold a framed payload. */
  datatype Payload = NoData | Data(bytes: seq<u8>)

  datatype Node = Node(name: seq<u8>, kind: nat, size: nat,
                       nextIn: int, prevIn: int, nextDir: int, prevDir: int, data: Payload)

  /** The nodes, and for every node the list of its children, which the links must spell out. */
  datatype Tree = Tree(nodes: seq<Node>, children: seq<seq<nat>>)

  function At(s: seq<nat>, i: int): int { if 0 <= i < |s| then s[i] else NONE }

  /** A C string that fits the name field with its terminator. */
  predicate ValidName(name: seq<u8>) { |name| < NAME_FIELD && forall i :: 0 <= i < |name| ==> name[i] != 0 }

  /** A data pointer whose scan stays inside its buffer. */
  ghost predicate Scannable(data: Payload) { data.Data? ==> Terminated(data.bytes) }

  ghost predicate ChildOk(t: Tree, d: nat, j: nat)
    requires |t.children| == |t.nodes| && d < |t.nodes| && j < |t.children[d]|
  {
    var c := t.children[d][j];
    && d < c < |t.nodes|
    && t.nodes[c].prevDir == d
    && t.nodes[c].prevIn == At(t.children[d], j - 1)
    && t.nodes[c].nextIn == At(t.children[d], j + 1)
  }

  ghost predicate SiblingsOk(t: Tree, d: nat, i: nat, j: nat)
    requires |t.children| == |t.nodes| && d < |t.nodes| && i < j < |t.children[d]|
    requires t.children[d][i] < |t.nodes| && t.children[d][j] < |t.nodes|
  {
    t.children[d][i] < t.children[d][j] && t.nodes[t.children[d][i]].name != t.nodes[t.children[d][j]].name
  }

  ghost predicate NodeOk(t: Tree, c: nat)
    requires |t.children| == |t.nodes| && c < |t.nodes|
  {
    var n := t.nodes[c];
    && ValidName(n.name) && n.kind <= DIRECTORY
    && (match n.data case NoData => n.size == 0
                     case Data(b) => Terminated(b) && HasHeader(b) && n.size == DataSize(b))
    && n.nextDir == At(t.children[c], 0)
    && (if c == 0 then n.prevDir == NONE && n.nextIn == NONE && n.prevIn == NONE && n.kind == DIRECTORY && n.data.NoData?
        else 0 <= n.prevDir < c && c in t.children[n.prevDir])
  }

  /** The links spell out a tree with node 0 as its root: chains are doubly linked, in order of creation, without equal names. */
  ghost predicate TreeInv(t: Tree) {
    && |t.children| == |t.nodes|
    && (forall c :: 0 <= c < |t.nodes| ==> NodeOk(t, c))
    && (forall d, j :: 0 <= d < |t.nodes| && 0 <= j < |t.children[d]| ==> ChildOk(t, d, j))
    && (forall d, i, j :: 0 <= d < |t.nodes| && 0 <= i < j < |t.children[d]| ==>
         ChildOk(t, d, i) && ChildOk(t, d, j) && SiblingsOk(t, d, i, j))
  }

  // ----- adding a node --------------------------------------------------------------------

  /** The name is taken by a sibling; the first child must only differ from its parent. */
  predicate NameTaken(t: Tree, parent: nat, name: seq<u8>)
    requires |t.children| == |t.nodes| && parent < |t.nodes|
    requires forall j :: 0 <= j < |t.children[parent]| ==> t.children[parent][j] < |t.nodes|
  {
    if t.children[parent] == [] then t.nodes[parent].name == name
    else exists j :: 0 <= j < |t.children[parent]| && t.nodes[t.children[parent][j]].name == name
  }

  lemma ChildrenInRange(t: Tree, parent: nat)
    requires TreeInv(t) && parent < |t.nodes|
    ensures forall j :: 0 <= j < |t.children[parent]| ==> parent < t.children[parent][j] < |t.nodes|
  {
    forall j | 0 <= j < |t.children[parent]| ensures parent < t.children[parent][j] < |t.nodes| {
      assert ChildOk(t, parent, j);
    }
  }

  /** The error insert_harshfs_node reports. */
  ghost function InsertError(t: Tree, parent: int, kind: nat, name: seq<u8>, data: Payload): nat
    requires TreeInv(t) && NONE <= parent < |t.nodes|
  {
    if parent == NONE then if t.nodes == [] then NO_ERROR else FILE_PARENT_DIR_NOT_FOUND
    else if kind != FILE_CODE && kind != DIRECTORY then UNKNOWN_FILE_TYPE
    else
      ChildrenInRange(t, parent);
      if NameTaken(t, parent, name) then FILE_NAME_EXISTS
      else if data.Data? && !HasHeader(data.bytes) then DATA_INPUT_IS_INVALID
      else NO_ERROR
  }

  /** A request that is good but for its data: the name is free, the data is there, and its header magic is missing. */
  ghost predicate BadBuffer(t: Tree, parent: int, kind: nat, name: seq<u8>, data: Payload)
    requires TreeInv(t) && NONE <= parent < |t.nodes|
  {
    && 0 <= parent && (kind == FILE_CODE || kind == DIRECTORY)
    && (ChildrenInRange(t, parent); !NameTaken(t, parent, name))
    && data.Data? && !HasHeader(data.bytes)
  }

  lemma BadBufferIsRejected(t: Tree, parent: int, kind: nat, name: seq<u8>, data: Payload)
    requires TreeInv(t) && NONE <= parent < |t.nodes|
    ensures BadBuffer(t, parent, kind, name, data) <==> InsertError(t, parent, kind, name, data) == DATA_INPUT_IS_INVALID
  {
  }

  function RootNode(name: seq<u8>): Node { Node(name, DIRECTORY, 0, NONE, NONE, NONE, NONE, NoData) }

  lemma RootInv(name: seq<u8>)
    requires ValidName(name)
    ensures TreeInv(Tree([RootNode(name)], [[]]))
  {
    var t := Tree([RootNode(name)], [[]]);
    assert NodeOk(t, 0) && |t.children[0]| == 0;
  }

  /** A file "b" with four zero bytes for data, added to the root "a". */
  lemma BadBufferExample()
    ensures var t := Tree([RootNode([0x61])], [[]]);
      TreeInv(t) && BadBuffer(t, 0, FILE_CODE, [0x62], Data([0, 0, 0, 0])) && Scannable(Data([0, 0, 0, 0]))
  {
    RootInv([0x61]);
  }

  /** The nodes after node |nodes| has been linked behind the last child. */
  function LinkedNodes(t: Tree, parent: nat): seq<Node>
    requires |t.children| == |t.nodes| && parent < |t.nodes|
    requires forall j :: 0 <= j < |t.children[parent]| ==> t.children[parent][j] < |t.nodes|
  {
    var c := t.children[parent];
    if c == [] then t.nodes[parent := t.nodes[parent].(nextDir := |t.nodes|)]
    else t.nodes[c[|c| - 1] := t.nodes[c[|c| - 1]].(nextIn := |t.nodes|)]
  }

  function NewNode(t: Tree, parent: nat, kind: nat, name: seq<u8>, data: Payload): Node
    requires |t.children| == |t.nodes| && parent < |t.nodes|
    requires data.Data? ==> 4 <= |data.bytes|
  {
    Node(name, kind, if data.Data? then DataSize(data.bytes) else 0,
         NONE, At(t.children[parent], |t.children[parent]| - 1), NONE, parent, data)
  }

  /** The tree after an accepted insert. */
  function Inserted(t: Tree, parent: int, kind: nat, name: seq<u8>, data: Payload): Tree
    requires |t.children| == |t.nodes| && NONE <= parent < |t.nodes|
    requires 0 <= parent ==> forall j :: 0 <= j < |t.children[parent]| ==> t.children[parent][j] < |t.nodes|
    requires data.Data? ==> 4 <= |data.bytes|
  {
    if parent == NONE then Tree([RootNode(name)], [[]])
    else Tree(LinkedNodes(t, parent) + [NewNode(t, parent, kind, name, data)],
              t.children[parent := t.children[parent] + [|t.nodes|]] + [[]])
  }

  // ----- every accepted insert keeps the tree -----------------------------------------------

  /** What linking changes in an old node: nothing but the one pointer to the new node. */
  lemma LinkedAt(t: Tree, parent: nat, c: nat)
    requires TreeInv(t) && parent < |t.nodes| && c < |t.nodes|
    ensures forall j :: 0 <= j < |t.children[parent]| ==> t.children[parent][j] < |t.nodes|
    ensures var n, s := LinkedNodes(t, parent)[c], t.children[parent];
      n == if s == [] && c == parent then t.nodes[c].(nextDir := |t.nodes|)
           else if s != [] && c == s[|s| - 1] then t.nodes[c].(nextIn := |t.nodes|) else t.nodes[c]
  {
    ChildrenInRange(t, parent);
  }

  lemma InsertedNode(t: Tree, parent: nat, kind: nat, name: seq<u8>, data: Payload, c: nat)
    requires TreeInv(t) && parent < |t.nodes| && ValidName(name) && kind <= DIRECTORY && Scannable(data)
    requires data.Data? ==> HasHeader(data.bytes)
    requires c <= |t.nodes|
    ensures forall j :: 0 <= j < |t.children[parent]| ==> t.children[parent][j] < |t.nodes|
    ensures NodeOk(Inserted(t, parent, kind, name, data), c)
  {
    ChildrenInRange(t, parent);
    var u, s := Inserted(t, parent, kind, name, data), t.children[parent];
    if c < |t.nodes| {
      LinkedAt(t, parent, c);
      assert NodeOk(t, c);
      if s != [] && c == s[|s| - 1] { assert ChildOk(t, parent, |s| - 1); }
    } else {
      assert u.children[parent][|s|] == |t.nodes|;
    }
  }

  lemma InsertedChild(t: Tree, parent: nat, kind: nat, name: seq<u8>, data: Payload, d: nat, j: nat)
    requires TreeInv(t) && parent < |t.nodes| && (data.Data? ==> 4 <= |data.bytes|)
    ensures forall i :: 0 <= i < |t.children[parent]| ==> t.children[parent][i] < |t.nodes|
    ensures var u := Inserted(t, parent, kind, name, data);
      d < |u.nodes| && j < |u.children[d]| ==> ChildOk(u, d, j)
  {
    ChildrenInRange(t, parent);
    var u, s := Inserted(t, parent, kind, name, data), t.children[parent];
    if d < |t.nodes| && j < |t.children[d]| {
      assert ChildOk(t, d, j);
      LinkedAt(t, parent, t.children[d][j]);
      if s != [] { assert ChildOk(t, parent, |s| - 1); }
      if d == parent && j + 1 < |s| { assert ChildOk(t, d, j + 1) && SiblingsOk(t, d, j, |s| - 1); }
    }
  }

  lemma InsertedSiblings(t: Tree, parent: nat, kind: nat, name: seq<u8>, data: Payload, d: nat, i: nat, j: nat)
    requires TreeInv(t) && parent < |t.nodes| && (data.Data? ==> 4 <= |data.bytes|)
    requires forall k :: 0 <= k < |t.children[parent]| ==> t.children[parent][k] < |t.nodes|
    requires !NameTaken(t, parent, name)
    requires var u := Inserted(t, parent, kind, name, data);
      d < |u.nodes| && i < j < |u.children[d]| && ChildOk(u, d, i) && ChildOk(u, d, j)
    ensures SiblingsOk(Inserted(t, parent, kind, name, data), d, i, j)
  {
    var u, s := Inserted(t, parent, kind, name, data), t.children[parent];
    assert ChildOk(t, d, i);
    LinkedAt(t, parent, t.children[d][i]);
    if j < |t.children[d]| {
      assert ChildOk(t, d, j) && SiblingsOk(t, d, i, j);
      LinkedAt(t, parent, t.children[d][j]);
    }
  }

  /** Every accepted insert keeps the tree well-formed, whatever the node and its parent. */
  lemma InsertKeepsTree(t: Tree, parent: int, kind: nat, name: seq<u8>, data: Payload)
    requires TreeInv(t) && NONE <= parent < |t.nodes| && ValidName(name) && Scannable(data)
    requires InsertError(t, parent, kind, name, data) == NO_ERROR
    ensures 0 <= parent ==> forall j :: 0 <= j < |t.children[parent]| ==> t.children[parent][j] < |t.nodes|
    ensures TreeInv(Inserted(t, parent, kind, name, data))
  {
    if parent == NONE {
      RootInv(name);
    } else {
      ChildrenInRange(t, parent);
      var u := Inserted(t, parent, kind, name, data);
      forall c | 0 <= c < |u.nodes| ensures NodeOk(u, c) { InsertedNode(t, parent, kind, name, data, c); }
      forall d, j | 0 <= d < |u.nodes| && 0 <= j < |u.children[d]| ensures ChildOk(u, d, j) {
        InsertedChild(t, parent, kind, name, data, d, j);
      }
      forall d, i, j | 0 <= d < |u.nodes| && 0 <= i < j < |u.children[d]|
        ensures ChildOk(u, d, i) && ChildOk(u, d, j) && SiblingsOk(u, d, i, j)
      {
        assert ChildOk(u, d, i) && ChildOk(u, d, j);
        InsertedSiblings(t, parent, kind, name, data, d, i, j);
      }
    }
  }

  // ----- what an accepted insert adds, and what it leaves alone -----------------------------------

  /** The node of a request: the root is always a directory without data. */
  ghost predicate MadeFrom(n: Node, parent: int, kind: nat, name: seq<u8>, data: Payload) {
    && n.name == name && n.prevDir == parent && n.nextIn == -1 && n.nextDir == -1
    && n.kind == (if parent == -1 then 1 else kind)
    && n.data == (if parent == -1 then NoData else data)
  }

  /** Nodes that differ in nothing but their links to later nodes. */
  ghost predicate SameNode(n: Node, m: Node) {
    && n.name == m.name && n.kind == m.kind && n.size == m.size && n.data == m.data
    && n.prevDir == m.prevDir && n.prevIn == m.prevIn
  }

  /** One node more, made from the request and last among its siblings; all others are what they were. */
  lemma InsertedFields(t: Tree, parent: int, kind: nat, name: seq<u8>, data: Payload)
    requires TreeInv(t) && NONE <= parent < |t.nodes| && ValidName(name) && Scannable(data)
    requires InsertError(t, parent, kind, name, data) == NO_ERROR
    ensures 0 <= parent ==> forall j :: 0 <= j < |t.children[parent]| ==> t.children[parent][j] < |t.nodes|
    ensures var u, n := Inserted(t, parent, kind, name, data), |t.nodes|;
      && |u.nodes| == n + 1 && MadeFrom(u.nodes[n], parent, kind, name, data)
      && (forall c :: 0 <= c < n ==> SameNode(u.nodes[c], t.nodes[c]))
      && |u.children| == n + 1 && u.children[n] == []
      && forall c :: 0 <= c < n ==> u.children[c] == t.children[c] + if c == parent then [n] else []
  {
    if parent != NONE {
      ChildrenInRange(t, parent);
      var u := Inserted(t, parent, kind, name, data);
      forall c | 0 <= c < |t.nodes| ensures SameNode(u.nodes[c], t.nodes[c]) { LinkedAt(t, parent, c); }
      forall c | 0 <= c < |t.nodes| ensures u.children[c] == t.children[c] + if c == parent then [|t.nodes|] else [] {
        if c != parent { assert t.children[c] + [] == t.children[c]; }
      }
    }
  }
}
