/** The headers in memory and the doubly linked list they form. */
module Links {
  import opened Blocks
  import opened HeapModel
  import opened HeapInvariant

  // Address 0 is the null pointer.
  const NULL: nat := 0

  /** heap_entry_linked_list; its magic number is modelled by the header being in the map. */
  datatype Header = Header(location: nat, size: nat, used: bool, next: nat, previous: nat)

  type Headers = map<nat, Header>
  type Footers = map<nat, nat>

  function AddrAt(o: seq<Block>, i: int): nat { if 0 <= i < |o| then o[i].addr else NULL }

  /** The block that the header at b's address describes is b. */
  ghost predicate Describes(hd: Headers, b: Block) {
    && b.addr in hd
    && hd[b.addr].location == b.Location() && hd[b.addr].size == b.size && hd[b.addr].used == b.used
  }

  /** The header of list position i describes its block and points forward to position i + 1. */
  ghost predicate Forward(hd: Headers, o: seq<Block>, i: nat)
    requires i < |o|
  {
    0 < o[i].addr && Describes(hd, o[i]) && hd[o[i].addr].next == AddrAt(o, i + 1)
  }

  /** The pointer back into list position i - 1: a previous field, or LAST for i == |o|. */
  function BackLink(hd: Headers, last: nat, o: seq<Block>, i: nat): nat
    requires i <= |o|
  {
    if i == |o| then last else if o[i].addr in hd then hd[o[i].addr].previous else NULL
  }

  ghost predicate Backward(hd: Headers, last: nat, o: seq<Block>, i: nat)
    requires i <= |o|
  {
    BackLink(hd, last, o, i) == AddrAt(o, i - 1)
  }

  /**
   HEAD, the next and previous fields and LAST spell out the list o in both directions, except
   that the back link at position k, if there is one, may hold anything.
   */
  ghost predicate Chain(hd: Headers, head: nat, last: nat, o: seq<Block>, k: int) {
    && DistinctAddrs(o)
    && head == AddrAt(o, 0)
    && (forall i :: 0 <= i < |o| ==> Forward(hd, o, i))
    && (forall i :: 0 <= i <= |o| && i != k ==> Backward(hd, last, o, i))
  }

  ghost predicate Linked(hd: Headers, head: nat, last: nat, o: seq<Block>) { Chain(hd, head, last, o, -1) }

  /** The index of the block whose header is at a, or |s|. */
  function AtAddr(s: seq<Block>, a: nat): (i: nat)
    ensures i <= |s|
    ensures if i < |s| then s[i].addr == a else forall j :: 0 <= j < |s| ==> s[j].addr != a
  {
    if s == [] || s[0].addr == a then 0 else 1 + AtAddr(s[1..], a)
  }

  /** The index of the block whose footer is at f, or |s|. */
  function AtFooter(s: seq<Block>, f: nat): (i: nat)
    ensures i <= |s|
    ensures if i < |s| then s[i].Footer() == f else forall j :: 0 <= j < |s| ==> s[j].Footer() != f
  {
    if s == [] || s[0].Footer() == f then 0 else 1 + AtFooter(s[1..], f)
  }

  /** Block i has its header, and its footer points back to it. */
  ghost predicate TagsOf(hd: Headers, ft: Footers, b: Block) {
    b.addr in hd && b.Footer() in ft && ft[b.Footer()] == b.addr
  }

  predicate HeaderOwned(s: seq<Block>, a: nat) { AtAddr(s, a) < |s| }

  predicate FooterOwned(s: seq<Block>, f: nat) { AtFooter(s, f) < |s| }

  /** A header stands in memory exactly where a block starts, and a footer where one ends. */
  ghost predicate Tagged(hd: Headers, ft: Footers, s: seq<Block>) {
    && (forall i {:trigger TagsOf(hd, ft, s[i])} :: 0 <= i < |s| ==> TagsOf(hd, ft, s[i]))
    && (forall a {:trigger HeaderOwned(s, a)} :: a in hd ==> HeaderOwned(s, a))
    && (forall f {:trigger FooterOwned(s, f)} :: f in ft ==> FooterOwned(s, f))
  }

  lemma EntryFlag(hd: Headers, head: nat, last: nat, o: seq<Block>, k: int, i: nat)
    requires Chain(hd, head, last, o, k) && i < |o|
    ensures Describes(hd, o[i])
  {
    assert Forward(hd, o, i);
  }

  // ----- single writes ------------------------------------------------------------------

  function SetNext(hd: Headers, a: nat, n: nat): Headers
    requires a in hd
  {
    hd[a := hd[a].(next := n)]
  }

  function SetPrevious(hd: Headers, a: nat, p: nat): Headers
    requires a in hd
  {
    hd[a := hd[a].(previous := p)]
  }

  /** Nothing but links differs. */
  ghost predicate SameEntries(hd: Headers, hd': Headers) {
    && hd.Keys == hd'.Keys
    && forall a :: a in hd ==> hd'[a].location == hd[a].location && hd'[a].size == hd[a].size && hd'[a].used == hd[a].used
  }

  // ----- damage done by the split, and its repair by the sort --------------------------------

  /** Position k of the list and everything after it is already in place. */
  ghost predicate SettledFrom(o: seq<Block>, k: int) {
    k == -1 || (0 < k <= |o| && forall i, j :: 0 <= i < j < |o| && k <= j ==> o[i].size <= o[j].size)
  }

  /** Some block before position k - 1 is larger than the one at k - 1. */
  ghost predicate Outranked(o: seq<Block>, k: int) {
    exists j :: 0 <= j < k - 1 && k <= |o| && o[j].size > o[k - 1].size
  }

  lemma SwapSettled(o: seq<Block>, k: int, i: nat)
    requires SettledFrom(o, k) && i + 1 < |o| && o[i].size > o[i + 1].size
    ensures k == -1 || i + 1 < k
    ensures SettledFrom(Swapped(o, i), k)
  {
    if k != -1 {
      var t := Swapped(o, i);
      forall x, y | 0 <= x < y < |t| && k <= y ensures t[x].size <= t[y].size {
        assert t[y] == o[y];
        assert t[x] == o[if x == i then i + 1 else if x == i + 1 then i else x];
      }
    }
  }

  lemma SwapOutranked(o: seq<Block>, k: int, i: nat)
    requires i + 2 < k <= |o|
    ensures Outranked(Swapped(o, i), k) <==> Outranked(o, k)
  {
    var t := Swapped(o, i);
    assert t[k - 1] == o[k - 1];
    if j :| 0 <= j < k - 1 && k <= |o| && o[j].size > o[k - 1].size {
      assert t[if j == i then i + 1 else if j == i + 1 then i else j] == o[j];
    }
    if j :| 0 <= j < k - 1 && k <= |t| && t[j].size > t[k - 1].size {
      assert o[if j == i then i + 1 else if j == i + 1 then i else j] == t[j];
    }
  }

  // ----- swapping two neighbours of the list ----------------------------------------------

  /** The links after a swap of p and n, whose outer neighbours are pp and nn. */
  function NextAfter(hd: Headers, a: nat, p: nat, n: nat, pp: nat, nn: nat): nat
    requires a in hd
  {
    if a == n then p else if a == p then nn else if a == pp != NULL then n else hd[a].next
  }

  function PreviousAfter(hd: Headers, a: nat, p: nat, n: nat, pp: nat, nn: nat): nat
    requires a in hd
  {
    if a == n then pp else if a == p then n else if a == nn != NULL then p else hd[a].previous
  }

  ghost predicate SwapLinks(hd: Headers, hd': Headers, p: nat, n: nat, pp: nat, nn: nat) {
    && SameEntries(hd, hd')
    && forall a :: a in hd ==>
         hd'[a].next == NextAfter(hd, a, p, n, pp, nn) && hd'[a].previous == PreviousAfter(hd, a, p, n, pp, nn)
  }

  /** The writes a swap makes to the outer neighbours, and then to the two entries themselves. */
  function OuterWrites(hd: Headers, p: nat, n: nat, pp: nat, nn: nat): (hd': Headers)
    requires (pp != NULL ==> pp in hd) && (nn != NULL ==> nn in hd)
    ensures hd'.Keys == hd.Keys
  {
    var hd1 := if pp != NULL then SetNext(hd, pp, n) else hd;
    if nn != NULL then SetPrevious(hd1, nn, p) else hd1
  }

  function InnerWrites(hd: Headers, p: nat, n: nat, pp: nat, nn: nat): Headers
    requires p in hd && n in hd
  {
    SetPrevious(SetNext(SetPrevious(SetNext(hd, p, nn), p, n), n, p), n, pp)
  }

  function SwapWrites(hd: Headers, p: nat, n: nat, pp: nat, nn: nat): Headers
    requires p in hd && n in hd && (pp != NULL ==> pp in hd) && (nn != NULL ==> nn in hd)
  {
    InnerWrites(OuterWrites(hd, p, n, pp, nn), p, n, pp, nn)
  }

  lemma OuterLinks(hd: Headers, p: nat, n: nat, pp: nat, nn: nat, a: nat)
    requires (pp != NULL ==> pp in hd) && (nn != NULL ==> nn in hd) && a in hd
    ensures var h := OuterWrites(hd, p, n, pp, nn)[a];
      h == hd[a].(next := if a == pp != NULL then n else hd[a].next, previous := if a == nn != NULL then p else hd[a].previous)
  {
  }

  lemma InnerLinks(hd: Headers, p: nat, n: nat, pp: nat, nn: nat, a: nat)
    requires p in hd && n in hd && p != n && a in hd
    ensures var h := InnerWrites(hd, p, n, pp, nn);
      && h.Keys == hd.Keys
      && h[a] == if a == n then hd[a].(next := p, previous := pp) else if a == p then hd[a].(next := nn, previous := n) else hd[a]
  {
  }

  lemma SwapWritesLinks(hd: Headers, p: nat, n: nat, pp: nat, nn: nat)
    requires p in hd && n in hd && (pp != NULL ==> pp in hd) && (nn != NULL ==> nn in hd)
    requires p != n && pp != p && pp != n && nn != p && nn != n
    ensures SwapLinks(hd, SwapWrites(hd, p, n, pp, nn), p, n, pp, nn)
  {
    var outer := OuterWrites(hd, p, n, pp, nn);
    InnerLinks(outer, p, n, pp, nn, p);
    hide OuterWrites, InnerWrites;
    forall a | a in hd
      ensures var h := SwapWrites(hd, p, n, pp, nn);
        && a in h && h[a].location == hd[a].location && h[a].size == hd[a].size && h[a].used == hd[a].used
        && h[a].next == NextAfter(hd, a, p, n, pp, nn) && h[a].previous == PreviousAfter(hd, a, p, n, pp, nn)
    {
      OuterLinks(hd, p, n, pp, nn, a);
      InnerLinks(outer, p, n, pp, nn, a);
    }
  }

  /** What the code reads before a swap. */
  lemma SwapReads(hd: Headers, head: nat, last: nat, o: seq<Block>, k: int, i: nat)
    requires Chain(hd, head, last, o, k) && i + 1 < |o| && i != k
    ensures var p, n, pp, nn := o[i].addr, o[i + 1].addr, AddrAt(o, i - 1), AddrAt(o, i + 2);
      && p in hd && n in hd && (pp != NULL ==> pp in hd) && (nn != NULL ==> nn in hd)
      && hd[p].previous == pp && hd[n].next == nn && (pp == NULL <==> i == 0) && (nn == NULL <==> i + 2 == |o|)
      && p != n && pp != p && pp != n && nn != p && nn != n
  {
    assert Forward(hd, o, i) && Forward(hd, o, i + 1) && Backward(hd, last, o, i);
    if i > 0 { assert Forward(hd, o, i - 1); }
    if i + 2 < |o| { assert Forward(hd, o, i + 2); }
  }

  lemma SameEntriesOf(hd: Headers, hd': Headers, p: nat, n: nat, pp: nat, nn: nat)
    requires SwapLinks(hd, hd', p, n, pp, nn)
    ensures SameEntries(hd, hd')
  {
  }

  lemma SwappedDistinct(o: seq<Block>, i: nat)
    requires DistinctAddrs(o) && i + 1 < |o|
    ensures DistinctAddrs(Swapped(o, i))
  {
    var t := Swapped(o, i);
    assert forall j :: 0 <= j < |t| ==> t[j] == o[if j == i then i + 1 else if j == i + 1 then i else j];
  }

  lemma SwapForward(hd: Headers, hd': Headers, o: seq<Block>, i: nat, j: nat)
    requires DistinctAddrs(o) && i + 1 < |o| && j < |o|
    requires forall x :: 0 <= x < |o| ==> Forward(hd, o, x)
    requires SwapLinks(hd, hd', o[i].addr, o[i + 1].addr, AddrAt(o, i - 1), AddrAt(o, i + 2))
    ensures Forward(hd', Swapped(o, i), j)
  {
    var j' := if j == i then i + 1 else if j == i + 1 then i else j;
    assert Swapped(o, i)[j] == o[j'] && Forward(hd, o, j');
    if i > 0 { assert Forward(hd, o, i - 1); }
  }

  lemma SwapBackward(hd: Headers, hd': Headers, last: nat, o: seq<Block>, k: int, i: nat, j: nat)
    requires DistinctAddrs(o) && i + 1 < |o| && j <= |o| && i != k && i + 1 != k
    requires forall x :: 0 <= x < |o| ==> Forward(hd, o, x)
    requires forall x :: 0 <= x <= |o| && x != k ==> Backward(hd, last, o, x)
    requires SwapLinks(hd, hd', o[i].addr, o[i + 1].addr, AddrAt(o, i - 1), AddrAt(o, i + 2))
    ensures var last' := if i + 2 == |o| then o[i].addr else last;
      if j == k != i + 2 then BackLink(hd', last', Swapped(o, i), j) == BackLink(hd, last, o, j)
      else Backward(hd', last', Swapped(o, i), j)
  {
    var j' := if j == i then i + 1 else if j == i + 1 then i else j;
    assert j' != k ==> Backward(hd, last, o, j');
    if j < |o| {
      assert Swapped(o, i)[j] == o[j'] && Forward(hd, o, j');
      if i + 2 < |o| { assert Forward(hd, o, i + 2); }
    }
  }

  /** The six writes of a swap turn the chain of o into the chain of the swapped list. */
  lemma SwapChain(hd: Headers, hd': Headers, head: nat, last: nat, o: seq<Block>, k: int, i: nat)
    requires Chain(hd, head, last, o, k) && i + 1 < |o| && i != k && i + 1 != k
    requires SwapLinks(hd, hd', o[i].addr, o[i + 1].addr, AddrAt(o, i - 1), AddrAt(o, i + 2))
    ensures var last' := if i + 2 == |o| then o[i].addr else last;
      && Chain(hd', if i == 0 then o[1].addr else head, last', Swapped(o, i), if k == i + 2 then -1 else k)
      && (0 <= k <= |o| && k != i + 2 ==> BackLink(hd', last', Swapped(o, i), k) == BackLink(hd, last, o, k))
  {
    SwappedDistinct(o, i);
    var t, last' := Swapped(o, i), if i + 2 == |o| then o[i].addr else last;
    forall j | 0 <= j < |o| ensures Forward(hd', t, j) { SwapForward(hd, hd', o, i, j); }
    forall j | 0 <= j <= |o| && (j != k || k == i + 2) ensures Backward(hd', last', t, j) {
      SwapBackward(hd, hd', last, o, k, i, j);
    }
    if 0 <= k <= |o| { SwapBackward(hd, hd', last, o, k, i, k); }
  }

  // ----- the sorting loop -----------------------------------------------------------------

  ghost predicate UnmovedFrom(o0: seq<Block>, o: seq<Block>, k: nat) {
    |o| == |o0| && forall j :: k <= j < |o| ==> o[j] == o0[j]
  }

  /** How far the loop has come from o0 to o, and whether the back link at k is still to be repaired. */
  ghost predicate Sorting(o0: seq<Block>, o: seq<Block>, k: int, left: int) {
    && |o| == |o0| && StableSort(o) == StableSort(o0) && SettledFrom(o, k)
    && (left == -1 || left == k)
    && (left == k != -1 ==> o[k - 1] == o0[k - 1] && (Outranked(o, k) <==> Outranked(o0, k)))
    && (left != k ==> Outranked(o0, k))
    && (k != -1 ==> UnmovedFrom(o0, o, k))
  }

  lemma SortingStep(o0: seq<Block>, o: seq<Block>, k: int, left: int, i: nat)
    requires Sorting(o0, o, k, left) && i + 1 < |o| && o[i].size > o[i + 1].size
    ensures k == -1 || i + 1 < k
    ensures Sorting(o0, Swapped(o, i), k, if left == i + 2 then -1 else left)
    ensures Inversions(Swapped(o, i)) < Inversions(o)
  {
    SwapSettled(o, k, i);
    SwapKeepsSort(o, i);
    SwapRemovesInversion(o, i);
    if left == k != -1 && i + 2 < k { SwapOutranked(o, k, i); }
  }

  lemma SortingDone(o0: seq<Block>, o: seq<Block>, k: int, left: int)
    requires Sorting(o0, o, k, left)
    requires forall j :: 0 <= j < |o| - 1 ==> o[j].size <= o[j + 1].size
    ensures o == StableSort(o0)
    ensures left == if Outranked(o0, k) then -1 else k
    ensures k != -1 ==> UnmovedFrom(o0, o, k)
  {
    NeighboursAscending(o);
    SortOfAscending(o);
  }

  // ----- entries that join or leave the list, or change in place -----------------------------

  /** remove_heap_entry: the neighbours are linked to each other. */
  function RemoveWrites(hd: Headers, prev: nat, next: nat): Headers
    requires (prev != NULL ==> prev in hd) && (next != NULL ==> next in hd)
  {
    var hd1 := if prev != NULL then SetNext(hd, prev, next) else hd;
    if next != NULL then SetPrevious(hd1, next, prev) else hd1
  }

  lemma RemoveForward(hd: Headers, head: nat, last: nat, o: seq<Block>, i: nat, j: nat)
    requires Linked(hd, head, last, o) && i < |o| && j < |o| - 1
    requires (i > 0 ==> o[i - 1].addr in hd) && (i + 1 < |o| ==> o[i + 1].addr in hd)
    requires (AddrAt(o, i - 1) == NULL <==> i == 0) && (AddrAt(o, i + 1) == NULL <==> i + 1 == |o|)
    ensures Forward(RemoveWrites(hd, AddrAt(o, i - 1), AddrAt(o, i + 1)), Without(o, i), j)
  {
    assert Forward(hd, o, if j < i then j else j + 1);
  }

  lemma RemoveBackward(hd: Headers, head: nat, last: nat, o: seq<Block>, i: nat, j: nat)
    requires Linked(hd, head, last, o) && i < |o| && j <= |o| - 1
    requires (i > 0 ==> o[i - 1].addr in hd) && (i + 1 < |o| ==> o[i + 1].addr in hd)
    requires (AddrAt(o, i - 1) == NULL <==> i == 0) && (AddrAt(o, i + 1) == NULL <==> i + 1 == |o|)
    ensures Backward(RemoveWrites(hd, AddrAt(o, i - 1), AddrAt(o, i + 1)),
                     if i + 1 < |o| then last else AddrAt(o, i - 1), Without(o, i), j)
  {
    assert Backward(hd, last, o, if j < i then j else j + 1);
    if j < |o| - 1 { assert Forward(hd, o, if j < i then j else j + 1); }
  }

  lemma RemoveChain(hd: Headers, head: nat, last: nat, o: seq<Block>, i: nat)
    requires Linked(hd, head, last, o) && i < |o|
    ensures var prev, next := AddrAt(o, i - 1), AddrAt(o, i + 1);
      && (prev != NULL ==> prev in hd) && (next != NULL ==> next in hd)
      && Linked(RemoveWrites(hd, prev, next), if prev != NULL then head else next,
                if next != NULL then last else prev, Without(o, i))
  {
    var prev, next := AddrAt(o, i - 1), AddrAt(o, i + 1);
    if i > 0 { assert Forward(hd, o, i - 1); }
    if i + 1 < |o| { assert Forward(hd, o, i + 1); }
    var hd', last', t := RemoveWrites(hd, prev, next), if next != NULL then last else prev, Without(o, i);
    hide RemoveWrites;
    forall j | 0 <= j < |t| ensures Forward(hd', t, j) { RemoveForward(hd, head, last, o, i, j); }
    forall j | 0 <= j <= |t| ensures Backward(hd', last', t, j) { RemoveBackward(hd, head, last, o, i, j); }
  }


  /** An entry described by hd' and linked behind the last one extends the chain. */
  lemma AppendChain(hd: Headers, hd': Headers, head: nat, last: nat, o: seq<Block>, b: Block)
    requires Linked(hd, head, last, o) && 0 < b.addr
    requires forall j :: 0 <= j < |o| ==> o[j].addr != b.addr
    requires Describes(hd', b) && hd'[b.addr].next == NULL && hd'[b.addr].previous == last
    requires forall j :: 0 <= j < |o| ==> o[j].addr in hd && o[j].addr in hd'
    requires forall j :: 0 <= j < |o| ==>
      hd'[o[j].addr] == if j == |o| - 1 then hd[o[j].addr].(next := b.addr) else hd[o[j].addr]
    ensures Linked(hd', if o == [] then b.addr else head, b.addr, o + [b])
  {
    var t := o + [b];
    forall j | 0 <= j < |t| ensures Forward(hd', t, j) {
      if j < |o| { assert Forward(hd, o, j); }
    }
    assert Backward(hd, last, o, |o|);
    forall j | 0 <= j <= |t| ensures Backward(hd', b.addr, t, j) {
      if j < |o| { assert Backward(hd, last, o, j); }
    }
  }

  /** The size and the flag of an entry may change under its links. */
  lemma RelabelChain(hd: Headers, head: nat, last: nat, o: seq<Block>, k: int, i: nat, b: Block)
    requires Chain(hd, head, last, o, k) && i < |o| && b.addr == o[i].addr
    ensures b.addr in hd
    ensures Chain(hd[b.addr := hd[b.addr].(size := b.size, used := b.used)], head, last, o[i := b], k)
  {
    assert Forward(hd, o, i);
    var hd', t := hd[b.addr := hd[b.addr].(size := b.size, used := b.used)], o[i := b];
    forall j | 0 <= j < |t| ensures Forward(hd', t, j) { assert Forward(hd, o, j); }
    forall j | 0 <= j <= |t| && j != k ensures Backward(hd', last, t, j) { assert Backward(hd, last, o, j); }
  }

  /** The chain only depends on the headers of its own entries. */
  lemma SameChain(hd: Headers, hd': Headers, head: nat, last: nat, o: seq<Block>, k: int)
    requires Chain(hd, head, last, o, k)
    requires forall j :: 0 <= j < |o| && o[j].addr in hd ==> o[j].addr in hd' && hd'[o[j].addr] == hd[o[j].addr]
    ensures Chain(hd', head, last, o, k)
  {
    forall j | 0 <= j < |o| ensures Forward(hd', o, j) { assert Forward(hd, o, j); }
    forall j | 0 <= j <= |o| && j != k ensures Backward(hd', last, o, j) {
      assert Backward(hd, last, o, j);
      if j < |o| { assert Forward(hd, o, j); }
    }
  }
}
