/** Which bytes a call may write: never those of a block that stays in use. */
module LiveBytes {
  import opened Bits
  import opened Blocks
  import opened HeapModel
  import opened HeapInvariant
  import opened Coalescing
  import opened HeapTheorems
  import opened Merging

  /** The 32-bit guard of the split does not wrap for a request that is served from the list or has room to grow. */
  lemma GuardDoesNotWrap(h: Heap, size: nat, limit: nat)
    requires Inv(h) && FTR <= h.start && h.bump <= limit < U32_LIMIT
    requires FirstFit(h.order, size) == |h.order| ==> h.bump + HDR + size + FTR <= limit
    ensures HDR + size + FTR + SLACK < U32_LIMIT
  {
    var i := FirstFit(h.order, size);
    if i < |h.order| {
      SamePlaces(h.order, h.blocks, h.order[i]);
      assert h.blocks[IndexOf(h.blocks, h.order[i])] == h.order[i];
    } else {
      TiledBelow(h);
    }
  }

  /** The payload that calloc fills shares no byte with a block in use. */
  lemma CallocMisses(h: Heap, size: nat, address: nat)
    requires Inv(h) && address == Malloc(h, size).1
    ensures forall b: Block, i: nat :: b in h.blocks && b.used && Covers(b, i) ==> !(address <= i < address + size)
  {
    hide Inv, Malloc;
    forall b: Block, i: nat | b in h.blocks && b.used && Covers(b, i) ensures !(address <= i < address + size) {
      MallocIsDisjoint(h, size, b);
    }
  }

  lemma AlignedMisses(h: Heap, size: nat, address: nat)
    requires Inv(h) && PageRoom(h.bump) && address == MallocAligned(h, size).1
    ensures forall b: Block, i: nat :: b in h.blocks && b.used && Covers(b, i) ==> !(address <= i < address + size)
  {
    hide AppendAligned;
    forall b: Block, i: nat | b in h.blocks && b.used && Covers(b, i) ensures !(address <= i < address + size) {
      assert h.blocks[IndexOf(h.blocks, b)] == b;
    }
  }

  lemma FreeMisses(h: Heap, address: nat)
    requires Inv(h)
    ensures forall b: Block, i: nat :: b in h.blocks && b.used && b.Location() != address && Covers(b, i) ==> !FreedByte(h.blocks, address, i)
  {
    forall b: Block, i: nat | b in h.blocks && b.used && b.Location() != address && Covers(b, i)
      ensures !FreedByte(h.blocks, address, i)
    {
      hide FreedByte, Covers;
      LiveByteIsNotFreed(h.blocks, h.start, h.bump, b, address, i);
    }
  }

  /** What malloc hands out lies above the start of the heap and below its bump pointer. */
  lemma CallocAbove(h: Heap, size: nat)
    requires Inv(h)
    ensures h.start < Malloc(h, size).1 && Malloc(h, size).1 + size <= Malloc(h, size).0.bump
  {
    var t := MallocGives(h, size);
    MallocInv(h, size);
    var m := Malloc(h, size).0;
    assert m.blocks[IndexOf(m.blocks, t)] == t;
  }
}
