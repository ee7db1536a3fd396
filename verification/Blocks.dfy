/** Heap blocks, and the list order the allocator keeps them in: ascending size. */
module Blocks {

  // sizeof(heap_entry_linked_list) and sizeof(heap_entry_footer_t) with 32-bit pointers.
  const HDR: nat := 24
  const FTR: nat := 8

  /** One heap entry: the address of its header, its payload size and its USED/FREE flag. */
  datatype Block = Block(addr: nat, size: nat, used: bool) {
    function Location(): nat { addr + HDR }
    function Footer(): nat { addr + HDR + size }
    function End(): nat { addr + HDR + size + FTR }
  }

  ghost predicate Ascending(s: seq<Block>) {
    forall i, j :: 0 <= i < j < |s| ==> s[i].size <= s[j].size
  }

  /** b placed in front of the first element that is at least as large. */
  function Place(b: Block, s: seq<Block>): seq<Block> {
    if s == [] || b.size <= s[0].size then [b] + s else [s[0]] + Place(b, s[1..])
  }

  /** The reference sort that the swap-and-restart loop is compared with. */
  function StableSort(s: seq<Block>): seq<Block> {
    if s == [] then [] else Place(s[0], StableSort(s[1..]))
  }

  /** The elements of one size, in the order they stand in. */
  function OfSize(s: seq<Block>, z: nat): seq<Block> {
    if s == [] then []
    else (if s[0].size == z then [s[0]] else []) + OfSize(s[1..], z)
  }

  function Swapped(s: seq<Block>, i: nat): (r: seq<Block>)
    requires i + 1 < |s|
    ensures |r| == |s| && r[i] == s[i + 1] && r[i + 1] == s[i]
    ensures forall j :: 0 <= j < |s| && j != i && j != i + 1 ==> r[j] == s[j]
  {
    s[i := s[i + 1]][i + 1 := s[i]]
  }

  function CountBelow(s: seq<Block>, z: nat): nat {
    if s == [] then 0 else (if s[0].size < z then 1 else 0) + CountBelow(s[1..], z)
  }

  /** The number of pairs that stand in the wrong order. */
  function Inversions(s: seq<Block>): nat {
    if s == [] then 0 else CountBelow(s[1..], s[0].size) + Inversions(s[1..])
  }

  // ----- the reference sort is the stable sort ------------------------------------------

  lemma PlacedAtLeast(b: Block, s: seq<Block>, t: seq<Block>, z: nat)
    requires multiset(t) == multiset(s) + multiset{b} && z <= b.size
    requires forall j :: 0 <= j < |s| ==> z <= s[j].size
    ensures forall j :: 0 <= j < |t| ==> z <= t[j].size
  {
    forall j | 0 <= j < |t| ensures z <= t[j].size {
      assert t[j] in multiset(t);
      assert t[j] == b || t[j] in s;
    }
  }

  lemma {:induction false} PlaceAscending(b: Block, s: seq<Block>)
    requires Ascending(s)
    ensures Ascending(Place(b, s))
    ensures multiset(Place(b, s)) == multiset(s) + multiset{b}
  {
    if s == [] || b.size <= s[0].size {
    } else {
      PlaceAscending(b, s[1..]);
      assert s == [s[0]] + s[1..];
      PlacedAtLeast(b, s[1..], Place(b, s[1..]), s[0].size);
    }
  }

  lemma {:induction false} PlaceOfSize(b: Block, s: seq<Block>, z: nat)
    requires Ascending(s)
    ensures OfSize(Place(b, s), z) == (if b.size == z then [b] else []) + OfSize(s, z)
  {
    if s == [] || b.size <= s[0].size {
      assert ([b] + s)[1..] == s;
    } else {
      PlaceOfSize(b, s[1..], z);
      assert Place(b, s)[1..] == Place(b, s[1..]);
      assert OfSize(Place(b, s), z) == (if s[0].size == z then [s[0]] else []) + OfSize(Place(b, s[1..]), z);
      if s[0].size == z {
        assert b.size != z;
        assert OfSize(Place(b, s[1..]), z) == OfSize(s[1..], z);
      } else {
        assert OfSize(s, z) == OfSize(s[1..], z);
        assert OfSize(Place(b, s), z) == OfSize(Place(b, s[1..]), z);
      }
    }
  }

  lemma {:induction false} OfSizeConcat(s: seq<Block>, t: seq<Block>, z: nat)
    ensures OfSize(s + t, z) == OfSize(s, z) + OfSize(t, z)
  {
    if s == [] {
      assert s + t == t;
    } else {
      assert (s + t)[0] == s[0] && (s + t)[1..] == s[1..] + t;
      OfSizeConcat(s[1..], t, z);
    }
  }

  /** Sorting permutes, sorts, and keeps blocks of one size in their order. */
  lemma {:induction false} StableSortSorts(s: seq<Block>)
    ensures Ascending(StableSort(s))
    ensures multiset(StableSort(s)) == multiset(s)
    ensures forall z :: OfSize(StableSort(s), z) == OfSize(s, z)
  {
    if s != [] {
      StableSortSorts(s[1..]);
      PlaceAscending(s[0], StableSort(s[1..]));
      assert s == [s[0]] + s[1..];
      forall z ensures OfSize(StableSort(s), z) == OfSize(s, z) {
        PlaceOfSize(s[0], StableSort(s[1..]), z);
      }
    }
  }

  lemma {:induction false} OfSizeMembers(s: seq<Block>, z: nat)
    ensures forall b :: b in OfSize(s, z) ==> b in s && b.size == z
    ensures (exists b :: b in s && b.size == z) ==> OfSize(s, z) != []
  {
    if s != [] { OfSizeMembers(s[1..], z); }
  }

  lemma HeadsAgree(s: seq<Block>, t: seq<Block>)
    requires Ascending(s) && Ascending(t) && s != [] && t != []
    requires forall z :: OfSize(s, z) == OfSize(t, z)
    ensures t[0].size <= s[0].size
    ensures s[0].size == t[0].size ==> s[0] == t[0]
  {
    var z := s[0].size;
    OfSizeMembers(s, z);
    OfSizeMembers(t, z);
    assert s[0] in s;
    assert OfSize(s, z)[0] in OfSize(t, z);
    assert OfSize(s, z)[0] == s[0];
    if t[0].size == z { assert OfSize(t, z)[0] == t[0]; }
  }

  lemma {:induction false} AscendingUnique(s: seq<Block>, t: seq<Block>)
    requires Ascending(s) && Ascending(t)
    requires forall z :: OfSize(s, z) == OfSize(t, z)
    ensures s == t
  {
    if s == [] || t == [] {
      if s != [] { assert s[0] in s; OfSizeMembers(s, s[0].size); }
      if t != [] { assert t[0] in t; OfSizeMembers(t, t[0].size); }
    } else {
      HeadsAgree(s, t);
      HeadsAgree(t, s);
      forall z ensures OfSize(s[1..], z) == OfSize(t[1..], z) {
        assert OfSize(s, z) == OfSize(t, z);
        if s[0].size == z {
          assert OfSize(s, z)[1..] == OfSize(s[1..], z);
          assert OfSize(t, z)[1..] == OfSize(t[1..], z);
        } else {
          assert OfSize(s, z) == OfSize(s[1..], z);
          assert OfSize(t, z) == OfSize(t[1..], z);
        }
      }
      AscendingUnique(s[1..], t[1..]);
      assert s == [s[0]] + s[1..] && t == [t[0]] + t[1..];
    }
  }

  /** Stability decides the result: no other ascending arrangement keeps equal sizes in order. */
  lemma StableSortUnique(s: seq<Block>, t: seq<Block>)
    requires Ascending(t)
    requires forall z :: OfSize(t, z) == OfSize(s, z)
    ensures t == StableSort(s)
  {
    StableSortSorts(s);
    AscendingUnique(t, StableSort(s));
  }

  lemma {:induction false} SortOfAscending(s: seq<Block>)
    requires Ascending(s)
    ensures StableSort(s) == s
  {
    StableSortUnique(s, s);
  }

  lemma {:induction false} NeighboursAscending(s: seq<Block>)
    requires forall j :: 0 <= j < |s| - 1 ==> s[j].size <= s[j + 1].size
    ensures Ascending(s)
  {
    if |s| >= 2 {
      NeighboursAscending(s[1..]);
      assert s[0].size <= s[0 + 1].size;
      assert s == [s[0]] + s[1..];
    }
  }

  // ----- what one swap of the loop does -------------------------------------------------

  lemma {:induction false} PlaceCommutes(a: Block, b: Block, s: seq<Block>)
    requires a.size != b.size
    ensures Place(a, Place(b, s)) == Place(b, Place(a, s))
  {
    if s != [] && s[0].size < a.size && s[0].size < b.size {
      PlaceCommutes(a, b, s[1..]);
      var ta, tb := [s[0]] + Place(a, s[1..]), [s[0]] + Place(b, s[1..]);
      assert ta[1..] == Place(a, s[1..]) && tb[1..] == Place(b, s[1..]);
    } else {
      assert forall x: Block :: ([x] + s)[1..] == s;
      if s != [] {
        assert ([s[0]] + Place(a, s[1..]))[1..] == Place(a, s[1..]);
        assert ([s[0]] + Place(b, s[1..]))[1..] == Place(b, s[1..]);
      }
    }
  }

  /** Swapping two neighbours of different size does not change what sorting yields. */
  lemma {:induction false} SwapKeepsSort(s: seq<Block>, i: nat)
    requires i + 1 < |s| && s[i].size != s[i + 1].size
    ensures StableSort(Swapped(s, i)) == StableSort(s)
  {
    var t := Swapped(s, i);
    if i == 0 {
      assert t[1..][1..] == s[1..][1..];
      PlaceCommutes(s[0], s[1], StableSort(s[1..][1..]));
    } else {
      assert t[1..] == Swapped(s[1..], i - 1);
      SwapKeepsSort(s[1..], i - 1);
    }
  }

  lemma {:induction false} SwapKeepsCount(s: seq<Block>, i: nat, z: nat)
    requires i + 1 < |s|
    ensures CountBelow(Swapped(s, i), z) == CountBelow(s, z)
  {
    var t := Swapped(s, i);
    if i == 0 {
      assert t[1..][1..] == s[1..][1..];
    } else {
      assert t[1..] == Swapped(s[1..], i - 1);
      SwapKeepsCount(s[1..], i - 1, z);
    }
  }

  /** Each swap removes exactly one inversion, which is why the restarts come to an end. */
  lemma {:induction false} SwapRemovesInversion(s: seq<Block>, i: nat)
    requires i + 1 < |s| && s[i].size > s[i + 1].size
    ensures Inversions(Swapped(s, i)) + 1 == Inversions(s)
  {
    var t := Swapped(s, i);
    if i == 0 {
      assert t[1..][1..] == s[1..][1..];
    } else {
      assert t[1..] == Swapped(s[1..], i - 1);
      SwapRemovesInversion(s[1..], i - 1);
      SwapKeepsCount(s[1..], i - 1, s[0].size);
    }
  }
}
