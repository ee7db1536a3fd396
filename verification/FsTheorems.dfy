/** What holds for every tree that any sequence of adds can build, and for its image. */
module FsTheorems {
  import opened Bits
  import opened Framing
  import opened FsTree
  import opened ImageLayout
  import opened ImageCodec
  import opened ImageBuilder

  // ----- the shape of the tree --------------------------------------------------------------

  /**
   Following next sibling or first child leads to later nodes, following previous sibling or parent to
   earlier ones, and each of the two sibling links undoes the other: no chain can run in a circle.
   */
  lemma LinksAreAcyclic(t: Tree, c: nat)
    requires TreeInv(t) && c < |t.nodes|
    ensures var n := t.nodes[c];
      && (n.nextIn != NONE ==> c < n.nextIn < |t.nodes| && t.nodes[n.nextIn].prevIn == c && t.nodes[n.nextIn].prevDir == n.prevDir)
      && (n.prevIn != NONE ==> 0 <= n.prevIn < c && t.nodes[n.prevIn].nextIn == c && t.nodes[n.prevIn].prevDir == n.prevDir)
      && (n.nextDir != NONE ==> c < n.nextDir < |t.nodes| && t.nodes[n.nextDir].prevDir == c && t.nodes[n.nextDir].prevIn == NONE)
      && (n.prevDir == NONE <==> c == 0) && n.prevDir < c
  {
    var n := t.nodes[c];
    assert NodeOk(t, c);
    if t.children[c] != [] { assert ChildOk(t, c, 0); }
    if c > 0 {
      var d: nat := n.prevDir;
      var j :| 0 <= j < |t.children[d]| && t.children[d][j] == c;
      assert ChildOk(t, d, j);
      if j > 0 { assert ChildOk(t, d, j - 1) && SiblingsOk(t, d, j - 1, j); }
      if j + 1 < |t.children[d]| { assert ChildOk(t, d, j + 1) && SiblingsOk(t, d, j, j + 1); }
    }
  }

  /** Two nodes with the same parent never share a name. */
  lemma SiblingNamesDiffer(t: Tree, a: nat, b: nat)
    requires TreeInv(t) && 0 < a < |t.nodes| && 0 < b < |t.nodes| && a != b
    requires t.nodes[a].prevDir == t.nodes[b].prevDir
    ensures t.nodes[a].name != t.nodes[b].name
  {
    assert NodeOk(t, a) && NodeOk(t, b);
    var d: nat := t.nodes[a].prevDir;
    var i :| 0 <= i < |t.children[d]| && t.children[d][i] == a;
    var j :| 0 <= j < |t.children[d]| && t.children[d][j] == b;
    assert ChildOk(t, d, i) && ChildOk(t, d, j);
    if i < j { assert SiblingsOk(t, d, i, j); } else { assert SiblingsOk(t, d, j, i); }
  }

  /** The k-th node that a walk along next_in_current_dir from c comes to. */
  function Follow(t: Tree, c: int, k: nat): int
    requires forall i :: 0 <= i < |t.nodes| ==> NONE <= t.nodes[i].nextIn < |t.nodes|
    requires NONE <= c < |t.nodes|
    ensures NONE <= Follow(t, c, k) < |t.nodes|
    decreases k
  {
    if k == 0 || c == NONE then c else Follow(t, t.nodes[c].nextIn, k - 1)
  }

  lemma NextInRange(t: Tree)
    requires TreeInv(t)
    ensures forall i :: 0 <= i < |t.nodes| ==> NONE <= t.nodes[i].nextIn < |t.nodes| && NONE <= t.nodes[i].nextDir < |t.nodes|
  {
    forall i | 0 <= i < |t.nodes| ensures NONE <= t.nodes[i].nextIn < |t.nodes| && NONE <= t.nodes[i].nextDir < |t.nodes| {
      NodeEncodable(t, i);
    }
  }

  lemma {:induction false} WalkFrom(t: Tree, d: nat, j: nat, k: nat)
    requires TreeInv(t) && d < |t.nodes| && j < |t.children[d]|
    ensures forall i :: 0 <= i < |t.nodes| ==> NONE <= t.nodes[i].nextIn < |t.nodes|
    ensures t.children[d][j] < |t.nodes| && Follow(t, t.children[d][j], k) == At(t.children[d], j + k)
    decreases k
  {
    NextInRange(t);
    assert ChildOk(t, d, j);
    if k > 0 && j + 1 < |t.children[d]| { WalkFrom(t, d, j + 1, k - 1); }
  }

  /** A walk over a directory visits exactly its children, in the order they were added, and then ends. */
  lemma WalkVisitsChildren(t: Tree, d: nat, k: nat)
    requires TreeInv(t) && d < |t.nodes|
    ensures forall i :: 0 <= i < |t.nodes| ==> NONE <= t.nodes[i].nextIn < |t.nodes|
    ensures NONE <= t.nodes[d].nextDir < |t.nodes|
    ensures Follow(t, t.nodes[d].nextDir, k) == At(t.children[d], k)
  {
    NextInRange(t);
    assert NodeOk(t, d);
    if t.children[d] != [] { WalkFrom(t, d, 0, k); }
  }

  /** c stands in the list of its parent and of no other node. */
  lemma ListedOnce(t: Tree, c: nat, d: nat)
    requires TreeInv(t) && c < |t.nodes| && d < |t.nodes|
    ensures c in t.children[d] <==> c > 0 && t.nodes[c].prevDir == d
  {
    assert NodeOk(t, c);
    if c in t.children[d] {
      var j :| 0 <= j < |t.children[d]| && t.children[d][j] == c;
      assert ChildOk(t, d, j);
    }
  }

  // ----- sequences of adds -------------------------------------------------------------------

  datatype Request = Request(parent: int, kind: nat, name: seq<u8>, data: Payload)

  /** A request the tool can make and take back: only a bad buffer is not taken back when it is rejected. */
  ghost predicate Askable(t: Tree, r: Request)
    requires TreeInv(t)
  {
    && NONE <= r.parent < |t.nodes| && ValidName(r.name) && Scannable(r.data)
    && !BadBuffer(t, r.parent, r.kind, r.name, r.data)
  }

  ghost function AddStep(t: Tree, r: Request): Tree
    requires TreeInv(t) && Askable(t, r)
  {
    if InsertError(t, r.parent, r.kind, r.name, r.data) == NO_ERROR then
      InsertKeepsTree(t, r.parent, r.kind, r.name, r.data);
      Inserted(t, r.parent, r.kind, r.name, r.data)
    else t
  }

  /** The trees that a sequence of requests passes through, starting from nothing. */
  ghost predicate IsBuild(ts: seq<Tree>, rs: seq<Request>) {
    && |ts| == |rs| + 1 && ts[0] == Tree([], [])
    && forall k :: 0 <= k < |rs| ==> TreeInv(ts[k]) && Askable(ts[k], rs[k]) ==> ts[k + 1] == AddStep(ts[k], rs[k])
  }

  /** Every tree of every build is well-formed. */
  lemma {:induction false} BuildInv(ts: seq<Tree>, rs: seq<Request>, k: nat)
    requires IsBuild(ts, rs) && k < |ts|
    requires forall j :: 0 <= j < k ==> TreeInv(ts[j]) ==> Askable(ts[j], rs[j])
    ensures TreeInv(ts[k])
  {
    if k > 0 {
      BuildInv(ts, rs, k - 1);
      var t, r := ts[k - 1], rs[k - 1];
      assert ts[k - 1 + 1] == AddStep(t, r);
      if InsertError(t, r.parent, r.kind, r.name, r.data) == NO_ERROR {
        InsertKeepsTree(t, r.parent, r.kind, r.name, r.data);
      }
    }
  }

  /** A child of this node has the name; or the node has no child yet, and has it itself. */
  ghost predicate Taken(t: Tree, parent: nat, name: seq<u8>)
    requires parent < |t.nodes|
  {
    if exists c :: 0 < c < |t.nodes| && t.nodes[c].prevDir == parent
    then exists c :: 0 < c < |t.nodes| && t.nodes[c].prevDir == parent && t.nodes[c].name == name
    else t.nodes[parent].name == name
  }

  lemma TakenIsNameTaken(t: Tree, parent: nat, name: seq<u8>)
    requires TreeInv(t) && parent < |t.nodes|
    ensures forall j :: 0 <= j < |t.children[parent]| ==> 0 < t.children[parent][j] < |t.nodes|
    ensures NameTaken(t, parent, name) <==> Taken(t, parent, name)
  {
    ChildrenInRange(t, parent);
    var s := t.children[parent];
    forall c | 0 < c < |t.nodes| ensures t.nodes[c].prevDir == parent <==> c in s { ListedOnce(t, c, parent); }
    if s != [] {
      assert s[0] in s;
      if j :| 0 <= j < |s| && t.nodes[s[j]].name == name { assert s[j] in s; }
      if c :| 0 < c < |t.nodes| && t.nodes[c].prevDir == parent && t.nodes[c].name == name {
        var j :| 0 <= j < |s| && s[j] == c;
        assert t.nodes[s[j]].name == name;
      }
    }
  }

  /** Which request is answered with which code: 0 for success, 1 to 4 for what is wrong with it. */
  lemma ErrorExact(t: Tree, parent: int, kind: nat, name: seq<u8>, data: Payload)
    requires TreeInv(t) && -1 <= parent < |t.nodes|
    ensures var e, known := InsertError(t, parent, kind, name, data), kind == 0 || kind == 1;
      && (e == 2 <==> parent == -1 && t.nodes != [])
      && (e == 3 <==> parent != -1 && !known)
      && (e == 1 <==> parent != -1 && known && Taken(t, parent, name))
      && (e == 4 <==> parent != -1 && known && !Taken(t, parent, name) && data.Data? && !HasHeader(data.bytes))
      && (e == 0 <==> if parent == -1 then t.nodes == []
                      else known && !Taken(t, parent, name) && (data.Data? ==> HasHeader(data.bytes)))
  {
    if parent != -1 { TakenIsNameTaken(t, parent, name); }
  }

  /** Request j of a build was accepted. */
  ghost predicate Accepted(ts: seq<Tree>, rs: seq<Request>, j: nat)
    requires j < |rs| && |ts| == |rs| + 1
  {
    |ts[j + 1].nodes| == |ts[j].nodes| + 1
  }

  lemma StepFields(ts: seq<Tree>, rs: seq<Request>, j: nat)
    requires IsBuild(ts, rs) && j < |rs| && TreeInv(ts[j]) && Askable(ts[j], rs[j])
    ensures var t, u, r := ts[j], ts[j + 1], rs[j];
      && (Accepted(ts, rs, j) <==> InsertError(t, r.parent, r.kind, r.name, r.data) == 0)
      && (Accepted(ts, rs, j) ==> MadeFrom(u.nodes[|t.nodes|], r.parent, r.kind, r.name, r.data))
      && (!Accepted(ts, rs, j) ==> u == t)
      && |t.nodes| <= |u.nodes| && forall c :: 0 <= c < |t.nodes| ==> SameNode(u.nodes[c], t.nodes[c])
  {
    var t, r := ts[j], rs[j];
    if InsertError(t, r.parent, r.kind, r.name, r.data) == NO_ERROR {
      InsertedFields(t, r.parent, r.kind, r.name, r.data);
    }
  }

  /** The name, kind, data and parent that were asked for; the root is always a directory without data. */
  ghost predicate MadeFromButLinks(n: Node, r: Request) {
    && n.name == r.name && n.prevDir == r.parent
    && n.kind == (if r.parent == -1 then 1 else r.kind)
    && n.data == (if r.parent == -1 then NoData else r.data)
  }

  /** In every later tree of a build the node of an accepted request is what was asked for. */
  lemma {:induction false} BuildFields(ts: seq<Tree>, rs: seq<Request>, j: nat, k: nat)
    requires IsBuild(ts, rs) && j < k <= |rs| && Accepted(ts, rs, j)
    requires forall i :: 0 <= i < k ==> TreeInv(ts[i]) ==> Askable(ts[i], rs[i])
    ensures |ts[j].nodes| < |ts[k].nodes|
    ensures MadeFromButLinks(ts[k].nodes[|ts[j].nodes|], rs[j])
  {
    BuildInv(ts, rs, k - 1);
    StepFields(ts, rs, k - 1);
    assert k - 1 + 1 == k;
    if j < k - 1 {
      BuildFields(ts, rs, j, k - 1);
      assert SameNode(ts[k].nodes[|ts[j].nodes|], ts[k - 1].nodes[|ts[j].nodes|]);
    }
  }

  // ----- images of trees ----------------------------------------------------------------------

  /** For every well-formed tree, every slot of its image decodes to the node it came from. */
  lemma TreeImageRoundTrip(t: Tree, p: nat)
    requires TreeInv(t) && 4 <= p && ImageFits(t.nodes, p)
    ensures AllEncodable(t.nodes)
    ensures forall k :: 0 <= k < |t.nodes| ==>
      SlotOffset(k, p) + NodeSize(p) <= |Image(t.nodes, p)| && DecodeNode(Image(t.nodes, p), k, p) == Contents(t.nodes[k])
  {
    TreeEncodable(t);
    forall k | 0 <= k < |t.nodes|
      ensures SlotOffset(k, p) + NodeSize(p) <= |Image(t.nodes, p)| && DecodeNode(Image(t.nodes, p), k, p) == Contents(t.nodes[k])
    {
      ImageRoundTrip(t.nodes, k, p);
    }
  }

  /** A payload that went through create_data comes out of the image unchanged iff it is free of the footer magic. */
  lemma FramedPayloadSurvives(n: Node, d: seq<u8>)
    requires Encodable(n) && n.data == Data(Framed(d)) && n.size == DataSize(Framed(d))
    ensures Contents(n).payload == d <==> !MagicIn(d, FILE_FOOTER)
  {
    FramingRoundTrip(d);
    assert Framed(d)[4..4 + |d|] == d;
  }

  /** Some earlier node points forward to every node but the root. */
  lemma EarlierLink(t: Tree, n: nat) returns (x: nat)
    requires TreeInv(t) && 0 < n < |t.nodes|
    ensures x < n && (t.nodes[x].nextIn == n || t.nodes[x].nextDir == n)
  {
    LinksAreAcyclic(t, n);
    assert NodeOk(t, n);
    if t.nodes[n].prevIn != NONE {
      x := t.nodes[n].prevIn;
    } else {
      x := t.nodes[n].prevDir;
      ListedOnce(t, n, x);
      var j :| 0 <= j < |t.children[x]| && t.children[x][j] == n;
      assert ChildOk(t, x, j) && NodeOk(t, x);
    }
  }

  /** What decodes alike is alike. */
  lemma SameContents(t: Tree, u: Tree, p: nat, k: nat)
    requires TreeInv(t) && TreeInv(u) && 4 <= p && k < |t.nodes| && k < |u.nodes|
    requires ImageFits(t.nodes, p) && ImageFits(u.nodes, p)
    requires AllEncodable(t.nodes) && AllEncodable(u.nodes) && Image(t.nodes, p) == Image(u.nodes, p)
    ensures Contents(t.nodes[k]) == Contents(u.nodes[k])
  {
    hide Image, DecodeNode, Contents;
    TreeImageRoundTrip(t, p);
    TreeImageRoundTrip(u, p);
    assert DecodeNode(Image(t.nodes, p), k, p) == Contents(t.nodes[k]);
    assert DecodeNode(Image(u.nodes, p), k, p) == Contents(u.nodes[k]);
  }

  lemma EmptyImage(nodes: seq<Node>, p: nat)
    requires nodes == [] && 4 <= p && AllEncodable(nodes)
    ensures |Image(nodes, p)| == 2 * MAGIC
  {
    ImageLength(nodes, p);
  }

  lemma ImageWithNodes(nodes: seq<Node>, p: nat)
    requires nodes != [] && 4 <= p && AllEncodable(nodes)
    ensures |Image(nodes, p)| > 2 * MAGIC
  {
    ImageLength(nodes, p);
    MulMonotone(1, |nodes|, NodeSize(p));
  }

  /** A link to a node that only the larger tree has would stand in a slot that both images share. */
  lemma NoMoreNodes(t: Tree, u: Tree, p: nat)
    requires TreeInv(t) && TreeInv(u) && 4 <= p
    requires ImageFits(t.nodes, p) && ImageFits(u.nodes, p)
    requires AllEncodable(t.nodes) && AllEncodable(u.nodes) && Image(t.nodes, p) == Image(u.nodes, p)
    ensures |u.nodes| <= |t.nodes|
  {
    hide Image, TreeInv;
    var n := |t.nodes|;
    if n < |u.nodes| {
      if n == 0 {
        EmptyImage(t.nodes, p);
        ImageWithNodes(u.nodes, p);
      } else {
        var x := EarlierLink(u, n);
        SameContents(t, u, p, x);
        LinksOf(t, x);
      }
      assert false;
    }
  }

  /** Walks over equal links are equal walks. */
  lemma {:induction false} SameWalks(t: Tree, u: Tree, c: int, k: nat)
    requires TreeInv(t) && TreeInv(u) && |t.nodes| == |u.nodes| && NONE <= c < |t.nodes|
    requires forall i :: 0 <= i < |t.nodes| ==> t.nodes[i].nextIn == u.nodes[i].nextIn
    ensures forall i :: 0 <= i < |t.nodes| ==> NONE <= t.nodes[i].nextIn < |t.nodes|
    ensures forall i :: 0 <= i < |u.nodes| ==> NONE <= u.nodes[i].nextIn < |u.nodes|
    ensures Follow(t, c, k) == Follow(u, c, k)
    decreases k
  {
    NextInRange(t);
    NextInRange(u);
    if k > 0 && c != NONE { SameWalks(t, u, t.nodes[c].nextIn, k - 1); }
  }

  /** The links determine the children of every node. */
  lemma SameChildren(t: Tree, u: Tree, d: nat)
    requires TreeInv(t) && TreeInv(u) && |t.nodes| == |u.nodes| && d < |t.nodes|
    requires forall i :: 0 <= i < |t.nodes| ==> t.nodes[i].nextIn == u.nodes[i].nextIn && t.nodes[i].nextDir == u.nodes[i].nextDir
    ensures t.children[d] == u.children[d]
  {
    var s, w := t.children[d], u.children[d];
    NextInRange(t);
    forall k: nat ensures At(s, k) == At(w, k) {
      WalkVisitsChildren(t, d, k);
      WalkVisitsChildren(u, d, k);
      SameWalks(t, u, t.nodes[d].nextDir, k);
    }
    assert At(s, |w|) == At(w, |w|) == NONE && At(w, |s|) == At(s, |s|) == NONE;
    forall k | 0 <= k < |s| && k < |w| ensures s[k] == w[k] { assert At(s, k) == At(w, k); }
  }

  lemma ChildrenPerNode(t: Tree)
    requires TreeInv(t)
    ensures |t.children| == |t.nodes|
  {
  }

  /** An image determines its tree: the number of nodes, their contents, and the children of each in order. */
  lemma ImageDeterminesTree(t: Tree, u: Tree, p: nat)
    requires TreeInv(t) && TreeInv(u) && 4 <= p
    requires ImageFits(t.nodes, p) && ImageFits(u.nodes, p)
    requires AllEncodable(t.nodes) && AllEncodable(u.nodes) && Image(t.nodes, p) == Image(u.nodes, p)
    ensures |t.nodes| == |u.nodes| && t.children == u.children
    ensures forall k :: 0 <= k < |t.nodes| ==> Contents(t.nodes[k]) == Contents(u.nodes[k])
  {
    hide Image, TreeInv;
    NoMoreNodes(t, u, p);
    NoMoreNodes(u, t, p);
    ChildrenPerNode(t);
    ChildrenPerNode(u);
    forall k | 0 <= k < |t.nodes| ensures Contents(t.nodes[k]) == Contents(u.nodes[k]) { SameContents(t, u, p, k); }
    forall d | 0 <= d < |t.nodes| ensures t.children[d] == u.children[d] {
      assert forall i :: 0 <= i < |t.nodes| ==> Contents(t.nodes[i]) == Contents(u.nodes[i]);
      SameChildren(t, u, d);
    }
  }

  // ----- whole builds ---------------------------------------------------------------------------

  /** The address space has room for the request. */
  ghost predicate RoomIn(t: Tree, r: Request, p: nat) {
    FS_BASE + MAGIC + |t.nodes| * NodeSize(p) + CountedSize(t.nodes, |t.nodes|) + NodeSize(p)
      + (if r.data.Data? then |r.data.bytes| else 0) + 2 * FRAME < U32_LIMIT
  }

  /**
   A whole run of the tool: any sequence of requests, the footer, and the image. The image it ends with
   is that of the tree, every node can be read back from it, and the address table lists all of them.
   */
  method BuildImage(p: nat, rs: seq<Request>, ghost ts: seq<Tree>) returns (b: Builder, image: array<u8>)
    requires 4 <= p && IsBuild(ts, rs) && ts[|rs|].nodes != []
    requires forall k :: 0 <= k < |rs| ==> TreeInv(ts[k]) ==> Askable(ts[k], rs[k]) && RoomIn(ts[k], rs[k], p)
    ensures var t := ts[|rs|];
      && b.Model() == t && TreeInv(t) && AllEncodable(t.nodes)
      && image[..] == Image(t.nodes, p)
      && (forall j :: 0 <= j < |rs| && Accepted(ts, rs, j) ==>
           |ts[j].nodes| < |t.nodes| && MadeFromButLinks(t.nodes[|ts[j].nodes|], rs[j]))
      && (forall k :: 0 <= k < |t.nodes| ==> |t.nodes[k].name| < 256 && NodeInImage(image[..], t.nodes[k], k, p))
      && |b.table| == |t.nodes| && (forall k :: 0 <= k < |t.nodes| ==> b.table[k] == Recorded(k, AddressOf(k, p)))
      && forall k :: 0 <= k < |t.nodes| ==>
           SlotOffset(k, p) + NodeSize(p) <= |image[..]| && DecodeNode(image[..], k, p) == Contents(t.nodes[k])
  {
    hide TreeInv, Image, DecodeNode, Contents, Encodable, CountedSize, NodeSize, NodeInImage;
    forall j | 0 <= j < |rs| && Accepted(ts, rs, j)
      ensures |ts[j].nodes| < |ts[|rs|].nodes| && MadeFromButLinks(ts[|rs|].nodes[|ts[j].nodes|], rs[j])
    {
      BuildFields(ts, rs, j, |rs|);
    }
    b := new Builder(p);
    for i := 0 to |rs|
      invariant b.Valid() && b.Model() == ts[i] && b.p == p && fresh(b)
    {
      var r := rs[i];
      var node, error := b.AddNode(r.parent, r.kind, r.name, r.data);
    }
    b.CountTrailer();
    TreeImageRoundTrip(b.Model(), p);
    image := b.CreateImage();
  }
}
