/** RDMAManager's memory management, with its list and map updated in place, proved against RdmaMemory. */
module RDMAManager {
  import opened Util
  import opened RdmaMemory
  import opened RdmaTheorems

  /** The gap list from position i on is the gap behind block i and the gap list from i + 1 on. */
  lemma GapsStep(total: nat, used: map<nat, Block>, off: seq<nat>, i: nat)
    requires i + 1 < |off| && forall j :: 0 <= j < |off| ==> off[j] in used
    ensures Gaps(total, used, off[i..]) == Gap(used[off[i]].End(), off[i + 1]) + Gaps(total, used, off[i + 1..])
  {
    assert off[i..][1..] == off[i + 1..];
  }

  lemma GapsLast(total: nat, used: map<nat, Block>, off: seq<nat>)
    requires off != [] && forall j :: 0 <= j < |off| ==> off[j] in used
    ensures Gaps(total, used, off[|off| - 1..]) == Gap(used[off[|off| - 1]].End(), total)
  {
  }

  /** The blocks of a snapshot, in the order of their offsets, do not overlap. */
  lemma SnapshotIsOrdered(total: nat, used: map<nat, Block>, off: seq<nat>)
    requires SortedOffsets(used, off) && UsedDisjoint(used) && forall o :: o in used ==> used[o].End() <= total
    ensures forall j :: 0 <= j < |off| ==> off[j] in used && used[off[j]].End() <= total
    ensures forall j :: 0 <= j < |off| - 1 ==> used[off[j]].End() <= off[j + 1]
  {
    assert forall j :: 0 <= j < |off| ==> off[j] in off;
  }

  /** The free list of a restored manager, piece by piece. */
  lemma RestorePieces(total: nat, used: map<nat, Block>, off: seq<nat>)
    requires off != [] && forall i :: 0 <= i < |off| ==> off[i] in used
    ensures Restore(total, used, off) ==
            if off[0] == 0 then [] + Gaps(total, used, off[0..])
            else if |off| == 1 then [] + Gap(0, off[0]) + Gap(used[off[0]].End(), total)
            else [] + Gap(0, off[0]) + Gaps(total, used, off[1..])
  {
    assert off[0..] == off;
  }

  /** The list with block i joined to its left neighbour, if they touch. */
  function MergeLeft(list: seq<Block>, i: nat): (free: seq<Block>)
    requires i < |list|
  {
    if i > 0 && list[i - 1].End() == list[i].offset
    then list[..i - 1] + [Block(list[i - 1].offset, list[i - 1].size + list[i].size)] + list[i + 1..]
    else list
  }

  /** The list with block i joined to its right neighbour, if they touch. */
  function MergeRight(list: seq<Block>, i: nat): (free: seq<Block>)
    requires i < |list|
  {
    if i + 1 < |list| && list[i].End() == list[i + 1].offset
    then list[..i] + [Block(list[i].offset, list[i].size + list[i + 1].size)] + list[i + 2..]
    else list
  }

  lemma MergeInTurn(list: seq<Block>, i: nat)
    requires i < |list|
    ensures var mid := MergeLeft(list, i);
            var at := if mid == list then i else i - 1;
            Merge(list, i) == MergeRight(mid, at) && mid[at].End() == list[i].End()
  {
    var mid := MergeLeft(list, i);
    if mid != list {
      assert mid[i..] == list[i + 1..];
      assert mid[..i - 1] == list[..i - 1];
    } else if MergeRight(list, i) == list {
      assert list == list[..i] + [list[i]] + list[i + 1..];
    }
  }

  class MemoryManager {
    const memSize: nat
    var rdmaMem: seq<Block>           // m_rdmaMem, the free list
    var usedRdmaMem: map<nat, Block>  // m_usedRdmaMem, keyed by offset

    ghost function Abs(): (h: Heap)
      reads this
    {
      Heap(rdmaMem, usedRdmaMem)
    }

    constructor (memSize: nat)
      ensures this.memSize == memSize && Abs() == Fresh(memSize)
    {
      this.memSize := memSize;
      rdmaMem := [Block(0, memSize)];
      usedRdmaMem := map[];
    }

    /** First fit. Under the invariant the block comes out of free memory and nothing else changes hands. */
    method InternalAlloc(size: nat) returns (r: Option<Block>)
      modifies this
      ensures (Abs(), r) == Alloc(old(Abs()), size)
      ensures old(HeapInv(memSize, Abs())) && size > 0 ==>
                && HeapInv(memSize, Abs())
                && (r.Some? ==> forall x: nat :: r.value.Has(x) ==> old(Covers(rdmaMem, x)) && !old(InUse(usedRdmaMem, x)))
    {
      if HeapInv(memSize, Abs()) && size > 0 {
        AllocInv(memSize, Abs(), size);
        AllocExactly(memSize, Abs(), size);
      }
      var i := 0;
      while i < |rdmaMem|
        invariant i <= |rdmaMem| && Abs() == old(Abs())
        invariant FirstFit(rdmaMem, size, 0) == FirstFit(rdmaMem, size, i)
      {
        var memRes := rdmaMem[i];
        if memRes.size >= size {
          var memResUsed := Block(memRes.offset, size);
          usedRdmaMem := usedRdmaMem[memRes.offset := memResUsed];
          if memRes.size > size {
            rdmaMem := rdmaMem[..i] + [Block(memRes.offset + size, memRes.size - size)] + rdmaMem[i..];
            i := i + 1;
          }
          rdmaMem := rdmaMem[..i] + rdmaMem[i + 1..];
          assert rdmaMem == WithoutFront(old(rdmaMem), FirstFit(old(rdmaMem), size, 0), size);
          return Some(memResUsed);
        }
        i := i + 1;
      }
      r := None;
    }

    /** Joins the block at position i with the neighbours it touches. */
    method MergeFreeMem(i: nat)
      requires i < |rdmaMem|
      modifies this`rdmaMem
      ensures rdmaMem == Merge(old(rdmaMem), i)
    {
      MergeInTurn(rdmaMem, i);
      var iter := i;
      var freeSpace, offset, size := rdmaMem[i].size, rdmaMem[i].offset, rdmaMem[i].size;
      if iter != 0 {
        iter := iter - 1;
        if rdmaMem[iter].offset + rdmaMem[iter].size == offset {
          freeSpace := freeSpace + rdmaMem[iter].size;
          rdmaMem := rdmaMem[iter := rdmaMem[iter].(size := freeSpace)];
          rdmaMem := rdmaMem[..iter + 1] + rdmaMem[iter + 2..];
        } else {
          iter := iter + 1;
        }
      }
      ghost var mid := rdmaMem;
      assert mid == MergeLeft(old(rdmaMem), i) && freeSpace == mid[iter].size && mid[iter].End() == offset + size;
      iter := iter + 1;
      if iter != |rdmaMem| && offset + size == rdmaMem[iter].offset {
        freeSpace := freeSpace + rdmaMem[iter].size;
        rdmaMem := rdmaMem[..iter] + rdmaMem[iter + 1..];
        iter := iter - 1;
        rdmaMem := rdmaMem[iter := rdmaMem[iter].(size := freeSpace)];
        assert rdmaMem == MergeRight(mid, iter);
      }
    }

    /** Gives a block back. It succeeds exactly when the running sum of offsets lets the loop stop before the first free
        block beyond the offset; on true the block's bytes are free again, on false they are lost. */
    method InternalFree(offset: nat) returns (ok: bool)
      modifies this
      ensures (Abs(), ok) == Free(old(Abs()), offset)
      ensures var (free, k) := (old(rdmaMem), FirstBeyond(old(rdmaMem), offset, 0));
              ok <==> free == [] || (k < |free| && SumOffsets(free[..k]) <= offset)
      ensures old(HeapInv(memSize, Abs()) && offset in usedRdmaMem) ==>
                && HeapInv(memSize, Abs())
                && (forall x: nat :: Covers(rdmaMem, x) <==> old(Covers(rdmaMem, x)) || (ok && old(usedRdmaMem)[offset].Has(x)))
    {
      FreeSucceedsExactly(Abs(), offset);
      if HeapInv(memSize, Abs()) && offset in usedRdmaMem {
        FreeInv(memSize, Abs(), offset);
      }
      var lastOffset := 0;
      var memResFree := if offset in usedRdmaMem then usedRdmaMem[offset] else Block(0, 0);
      usedRdmaMem := usedRdmaMem - {offset};
      if rdmaMem == [] {
        rdmaMem := [memResFree];
        return true;
      }
      var i := 0;
      while i < |rdmaMem|
        invariant i <= |rdmaMem| && rdmaMem == old(rdmaMem) && usedRdmaMem == old(usedRdmaMem) - {offset}
        invariant lastOffset == SumOffsets(rdmaMem[..i])
        invariant InsertAt(rdmaMem, offset, 0) == InsertAt(rdmaMem, offset, i)
      {
        if lastOffset <= offset < rdmaMem[i].offset {
          rdmaMem := rdmaMem[..i] + [memResFree] + rdmaMem[i..];
          MergeFreeMem(i);
          return true;
        }
        assert rdmaMem[..i + 1][..i] == rdmaMem[..i];
        lastOffset := lastOffset + rdmaMem[i].offset;
        i := i + 1;
      }
      ok := false;
    }

    /** Pushes the gap from `from` to `to`, if there is one. */
    method PushGap(from: nat, to: nat)
      requires from <= to
      modifies this`rdmaMem
      ensures rdmaMem == old(rdmaMem) + Gap(from, to)
    {
      if to - from > 0 {
        rdmaMem := rdmaMem + [Block(from, to - from)];
      }
    }

    /** The loop over neighbouring used blocks, from block i on, and the gap behind the last block. */
    method PushGaps(off: seq<nat>, first: nat)
      requires first < |off| && forall j :: 0 <= j < |off| ==> off[j] in usedRdmaMem && usedRdmaMem[off[j]].End() <= memSize
      requires forall j :: 0 <= j < |off| - 1 ==> usedRdmaMem[off[j]].End() <= off[j + 1]
      modifies this`rdmaMem
      ensures rdmaMem == old(rdmaMem) + Gaps(memSize, usedRdmaMem, off[first..])
    {
      var i := first;
      ghost var whole := rdmaMem + Gaps(memSize, usedRdmaMem, off[first..]);
      while i < |off| - 1
        invariant first <= i < |off|
        invariant rdmaMem + Gaps(memSize, usedRdmaMem, off[i..]) == whole
      {
        ghost var before := rdmaMem;
        GapsStep(memSize, usedRdmaMem, off, i);
        PushGap(usedRdmaMem[off[i]].End(), off[i + 1]);
        assert rdmaMem + Gaps(memSize, usedRdmaMem, off[i + 1..]) == before + Gaps(memSize, usedRdmaMem, off[i..]);
        i := i + 1;
      }
      GapsLast(memSize, usedRdmaMem, off);
      PushGap(usedRdmaMem[off[i]].End(), memSize);
    }

    /** Rebuilds the free list of a clean manager from a snapshot of the used blocks and their sorted offsets; when that
        is the free list the snapshot was taken from, RestoreIsExact says. */
    method RestoreMemStateSnapShot(usedMemory: map<nat, Block>, sortedOffsets: seq<nat>)
      requires usedRdmaMem == map[]
      requires sortedOffsets != [] && SortedOffsets(usedMemory, sortedOffsets)
      requires UsedDisjoint(usedMemory) && forall o :: o in usedMemory ==> usedMemory[o].End() <= memSize
      modifies this
      ensures usedRdmaMem == usedMemory
      ensures rdmaMem == Restore(memSize, usedMemory, sortedOffsets)
    {
      var off: seq<nat> := sortedOffsets;
      SnapshotIsOrdered(memSize, usedMemory, off);
      RestorePieces(memSize, usedMemory, off);
      usedRdmaMem := usedMemory;
      rdmaMem := [];
      if off[0] == 0 {
        PushGaps(off, 0);
      } else {
        PushGap(0, off[0]);
        if |off| == 1 {
          PushGap(usedRdmaMem[off[0]].End(), memSize);
        } else {
          PushGaps(off, 1);
        }
      }
    }
  }
}
