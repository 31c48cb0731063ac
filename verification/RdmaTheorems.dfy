/** What the RDMA memory allocator promises: over every run of allocations and frees, for a free that undoes an
    allocation, and for a snapshot that is restored. */
module RdmaTheorems {
  import opened Util
  import opened RdmaMemory

  // ---------------------------------------------------------------- every run

  datatype Op = Allocate(size: nat) | Release(offset: nat)

  /** The operations the callers make: allocations of at least a byte, frees of an allocated offset. */
  predicate Legal(h: Heap, op: Op) {
    match op
    case Allocate(size) => size > 0
    case Release(offset) => offset in h.used
  }

  function Do(h: Heap, op: Op): (h': Heap) {
    match op
    case Allocate(size) => Alloc(h, size).0
    case Release(offset) => Free(h, offset).0
  }

  /** The free, if it is one, returned true. */
  predicate Succeeds(h: Heap, op: Op) {
    op.Release? ==> Free(h, op.offset).1
  }

  function Fresh(total: nat): (h: Heap) {
    Heap([Block(0, total)], map[])
  }

  function RunOps(total: nat, ops: seq<Op>): (h: Heap) {
    if ops == [] then Fresh(total) else Do(RunOps(total, ops[..|ops| - 1]), ops[|ops| - 1])
  }

  predicate AllLegal(total: nat, ops: seq<Op>) {
    ops == [] || (AllLegal(total, ops[..|ops| - 1]) && Legal(RunOps(total, ops[..|ops| - 1]), ops[|ops| - 1]))
  }

  predicate AllSucceed(total: nat, ops: seq<Op>) {
    ops == [] || (AllSucceed(total, ops[..|ops| - 1]) && Succeeds(RunOps(total, ops[..|ops| - 1]), ops[|ops| - 1]))
  }

  lemma FreshInv(total: nat)
    requires total > 0
    ensures HeapInv(total, Fresh(total)) && NothingLost(total, Fresh(total))
  {
    forall x: nat | x < total
      ensures Covers(Fresh(total).free, x)
    {
      assert Fresh(total).free[0].Has(x);
    }
  }

  lemma AllocLosesNothing(total: nat, h: Heap, size: nat)
    requires HeapInv(total, h) && NothingLost(total, h) && size > 0
    ensures NothingLost(total, Alloc(h, size).0)
  {
    AllocExactly(total, h, size);
  }

  lemma FreeLosesNothing(total: nat, h: Heap, offset: nat)
    requires HeapInv(total, h) && NothingLost(total, h) && offset in h.used && Free(h, offset).1
    ensures NothingLost(total, Free(h, offset).0)
  {
    FreeInv(total, h, offset);
  }

  /** A byte neither free nor in use. */
  ghost predicate Lost(total: nat, h: Heap, x: nat) {
    x < total && !Covers(h.free, x) && !InUse(h.used, x)
  }

  /** A refused free loses its block. */
  lemma RefusedFreeLoses(total: nat, h: Heap, offset: nat)
    requires HeapInv(total, h) && offset in h.used && !Free(h, offset).1
    ensures Lost(total, Free(h, offset).0, offset)
  {
    FreeInv(total, h, offset);
    assert h.used[offset].Has(offset);
    if Covers(h.free, offset) {
      FreeNotUsed(total, h, offset);
    }
  }

  /** No operation finds a lost byte again. */
  lemma LostStaysLost(total: nat, h: Heap, op: Op, x: nat)
    requires HeapInv(total, h) && Legal(h, op) && Lost(total, h, x)
    ensures Lost(total, Do(h, op), x)
  {
    match op {
      case Allocate(size) => AllocExactly(total, h, size);
      case Release(offset) =>
        FreeInv(total, h, offset);
        assert h.used[offset].Has(x) ==> InUse(h.used, x);
    }
  }

  /** Every run of legal operations keeps the invariant. */
  lemma {:induction false} RunInv(total: nat, ops: seq<Op>)
    requires total > 0 && AllLegal(total, ops)
    ensures HeapInv(total, RunOps(total, ops))
  {
    if ops == [] {
      FreshInv(total);
    } else {
      var (h, op) := (RunOps(total, ops[..|ops| - 1]), ops[|ops| - 1]);
      RunInv(total, ops[..|ops| - 1]);
      match op {
        case Allocate(size) => AllocInv(total, h, size);
        case Release(offset) => FreeInv(total, h, offset);
      }
    }
  }

  lemma {:induction false} RunLosesNothing(total: nat, ops: seq<Op>)
    requires total > 0 && AllLegal(total, ops) && AllSucceed(total, ops)
    ensures NothingLost(total, RunOps(total, ops))
  {
    if ops == [] {
      FreshInv(total);
    } else {
      var (h, op) := (RunOps(total, ops[..|ops| - 1]), ops[|ops| - 1]);
      RunInv(total, ops[..|ops| - 1]);
      RunLosesNothing(total, ops[..|ops| - 1]);
      match op {
        case Allocate(size) => AllocLosesNothing(total, h, size);
        case Release(offset) => FreeLosesNothing(total, h, offset);
      }
    }
  }

  lemma {:induction false} RunLoses(total: nat, ops: seq<Op>) returns (x: nat)
    requires total > 0 && AllLegal(total, ops) && !AllSucceed(total, ops)
    ensures Lost(total, RunOps(total, ops), x)
  {
    var (h, op) := (RunOps(total, ops[..|ops| - 1]), ops[|ops| - 1]);
    RunInv(total, ops[..|ops| - 1]);
    if AllSucceed(total, ops[..|ops| - 1]) {
      x := op.offset;
      RefusedFreeLoses(total, h, x);
    } else {
      x := RunLoses(total, ops[..|ops| - 1]);
      LostStaysLost(total, h, op, x);
    }
  }

  /** Every run of legal operations keeps the invariant, and it has lost no byte if and only if every free returned true. */
  lemma RunKeepsInv(total: nat, ops: seq<Op>)
    requires total > 0 && AllLegal(total, ops)
    ensures HeapInv(total, RunOps(total, ops))
    ensures NothingLost(total, RunOps(total, ops)) <==> AllSucceed(total, ops)
  {
    RunInv(total, ops);
    if AllSucceed(total, ops) {
      RunLosesNothing(total, ops);
    } else {
      var x := RunLoses(total, ops);
    }
  }

  // ---------------------------------------------------------------- a free undoes an allocation

  /** Freeing what was just allocated restores the heap exactly whenever the free returns true. */
  lemma AllocFreeRoundTrip(total: nat, h: Heap, size: nat)
    requires HeapInv(total, h) && size > 0 && Alloc(h, size).1.Some?
    ensures var (h1, b) := (Alloc(h, size).0, Alloc(h, size).1.value);
            var (h2, ok) := Free(h1, b.offset);
            h2.used == h.used && (if ok then h2 == h else h2.free == h1.free)
  {
    var (h1, b) := (Alloc(h, size).0, Alloc(h, size).1.value);
    AllocExactly(total, h, size);
    AllocInv(total, h, size);
    FreeUndoes(total, h, h1, b);
  }

  lemma FreeUndoes(total: nat, h: Heap, h1: Heap, b: Block)
    requires HeapInv(total, h) && HeapInv(total, h1) && b.offset !in h.used && h1.used == h.used[b.offset := b]
    requires forall x: nat :: Covers(h1.free, x) <==> Covers(h.free, x) && !b.Has(x)
    requires forall x: nat :: b.Has(x) ==> Covers(h.free, x)
    ensures var (h2, ok) := Free(h1, b.offset);
            h2.used == h.used && (if ok then h2 == h else h2.free == h1.free)
  {
    var (h2, ok) := Free(h1, b.offset);
    FreeInv(total, h1, b.offset);
    assert h2.used == h.used;
    if ok {
      CoalescedUnique(h2.free, h.free);
    }
  }

  lemma FirstBeyondIs(free: seq<Block>, offset: nat, k: nat)
    requires k <= |free|
    requires forall j :: 0 <= j < k ==> free[j].offset <= offset
    requires k < |free| ==> offset < free[k].offset
    ensures FirstBeyond(free, offset, 0) == k
  {
  }

  /** When it does: exactly if nothing else was free, or a free block is left behind the allocated one and the offsets of
      the free blocks before it sum to no more than its offset. That is always so when one of the first two free
      blocks was split. */
  lemma RoundTripSucceedsExactly(total: nat, h: Heap, size: nat)
    requires HeapInv(total, h) && size > 0 && Alloc(h, size).1.Some?
    ensures var (k, h1, b) := (FirstFit(h.free, size, 0), Alloc(h, size).0, Alloc(h, size).1.value);
            && (Free(h1, b.offset).1 <==> h1.free == [] || (k < |h1.free| && SumOffsets(h.free[..k]) <= b.offset))
            && (k <= 1 && h.free[k].size > size ==> Free(h1, b.offset).1)
  {
    var (k, h1, b) := (FirstFit(h.free, size, 0), Alloc(h, size).0, Alloc(h, size).1.value);
    FirstFitIsFirst(h.free, size, 0);
    BeyondTheFront(h.free, k, size);
    FreeSucceedsExactly(h1, b.offset);
    if k == 1 {
      assert h.free[..1][..0] == [];
    }
  }

  /** What is left of the list around the front of block k. */
  lemma BeyondTheFront(free: seq<Block>, k: nat, size: nat)
    requires Coalesced(free) && k < |free| && 0 < size <= free[k].size
    ensures var free' := WithoutFront(free, k, size);
            k <= |free'| && free'[..k] == free[..k] && FirstBeyond(free', free[k].offset, 0) == k
  {
    FirstBeyondIs(WithoutFront(free, k, size), free[k].offset, k);
  }

  // ---------------------------------------------------------------- snapshots

  /** The used offsets, sorted. */
  ghost predicate SortedOffsets(used: map<nat, Block>, off: seq<nat>) {
    && (forall i, j :: 0 <= i < j < |off| ==> off[i] < off[j])
    && (forall o :: o in used <==> o in off)
  }

  function Gap(from: nat, to: nat): (free: seq<Block>) {
    if from < to then [Block(from, to - from)] else []
  }

  /** The gaps behind the used blocks at the given offsets, up to the end of memory. */
  function Gaps(total: nat, used: map<nat, Block>, off: seq<nat>): (free: seq<Block>)
    requires off != [] && forall i :: 0 <= i < |off| ==> off[i] in used
  {
    if |off| == 1 then Gap(used[off[0]].End(), total)
    else Gap(used[off[0]].End(), off[1]) + Gaps(total, used, off[1..])
  }

  /** restoreMemStateSnapShot: if memory starts with a gap, the gap behind the first used block is not looked at. */
  function Restore(total: nat, used: map<nat, Block>, off: seq<nat>): (free: seq<Block>)
    requires off != [] && forall i :: 0 <= i < |off| ==> off[i] in used
  {
    if off[0] == 0 then Gaps(total, used, off)
    else if |off| == 1 then [Block(0, off[0])] + Gap(used[off[0]].End(), total)
    else [Block(0, off[0])] + Gaps(total, used, off[1..])
  }

  lemma GapCovers(from: nat, to: nat, x: nat)
    ensures Covers(Gap(from, to), x) <==> from <= x < to
  {
    if from <= x < to {
      assert Gap(from, to)[0].Has(x);
    }
  }

  /** A block that comes before everything in a list. */
  lemma Prepend(a: seq<Block>, list: seq<Block>, y: nat)
    requires Coalesced(list) && |a| <= 1 && Coalesced(a)
    requires forall i :: 0 <= i < |a| ==> a[i].End() <= y
    requires forall i :: 0 <= i < |list| ==> y < list[i].offset
    ensures Coalesced(a + list)
  {
    assert forall i :: 0 <= i < |a + list| ==> (a + list)[i] == if i < |a| then a[i] else list[i - |a|];
  }

  lemma {:induction false} GapsAreTheComplement(total: nat, used: map<nat, Block>, off: seq<nat>)
    requires off != [] && forall i :: 0 <= i < |off| ==> off[i] in used
    requires forall i, j :: 0 <= i < j < |off| ==> off[i] < off[j]
    requires UsedDisjoint(used) && forall o :: o in used ==> used[o].End() <= total
    ensures Coalesced(Gaps(total, used, off))
    ensures forall i :: 0 <= i < |Gaps(total, used, off)| ==> used[off[0]].End() <= Gaps(total, used, off)[i].offset
    ensures forall x: nat :: Covers(Gaps(total, used, off), x) <==>
              used[off[0]].End() <= x < total && forall i :: 0 <= i < |off| ==> !used[off[i]].Has(x)
  {
    var end := used[off[0]].End();
    if |off| == 1 {
      forall x: nat
        ensures Covers(Gaps(total, used, off), x) <==>
                  end <= x < total && forall i :: 0 <= i < |off| ==> !used[off[i]].Has(x)
      {
        GapCovers(end, total, x);
      }
    } else {
      var tail := off[1..];
      GapsAreTheComplement(total, used, tail);
      Prepend(Gap(end, off[1]), Gaps(total, used, tail), off[1]);
      forall x: nat
        ensures Covers(Gaps(total, used, off), x) <==>
                  end <= x < total && forall i :: 0 <= i < |off| ==> !used[off[i]].Has(x)
      {
        CoversConcat(Gap(end, off[1]), Gaps(total, used, tail), x);
        GapCovers(end, off[1], x);
        GapCase(total, used, off, x);
      }
    }
  }

  /** A byte behind the first used block is in no used block if it is in the gap behind the first, or behind the second
      and in none of the rest. */
  lemma GapCase(total: nat, used: map<nat, Block>, off: seq<nat>, x: nat)
    requires |off| > 1 && forall i :: 0 <= i < |off| ==> off[i] in used
    requires forall i, j :: 0 <= i < j < |off| ==> off[i] < off[j]
    requires UsedDisjoint(used) && forall o :: o in used ==> used[o].End() <= total
    ensures (used[off[0]].End() <= x < total && forall i :: 0 <= i < |off| ==> !used[off[i]].Has(x)) <==>
            || used[off[0]].End() <= x < off[1]
            || (used[off[1]].End() <= x < total && forall i :: 0 <= i < |off[1..]| ==> !used[off[1..][i]].Has(x))
  {
    var tail := off[1..];
    assert forall i :: 0 <= i < |tail| ==> tail[i] == off[i + 1];
    assert forall i :: 1 <= i < |off| ==> off[i] == tail[i - 1];
  }

  /** All gaps, also the one in front. */
  function AllGaps(total: nat, used: map<nat, Block>, off: seq<nat>): (free: seq<Block>)
    requires off != [] && forall i :: 0 <= i < |off| ==> off[i] in used
  {
    Gap(0, off[0]) + Gaps(total, used, off)
  }

  /** In a heap that has lost nothing, the free list is exactly the list of gaps between used blocks. */
  lemma FreeListIsAllGaps(total: nat, h: Heap, off: seq<nat>)
    requires HeapInv(total, h) && NothingLost(total, h) && SortedOffsets(h.used, off) && off != []
    ensures h.free == AllGaps(total, h.used, off)
  {
    var gaps := Gaps(total, h.used, off);
    GapsAreTheComplement(total, h.used, off);
    Prepend(Gap(0, off[0]), gaps, off[0]);
    forall x: nat
      ensures Covers(h.free, x) <==> Covers(AllGaps(total, h.used, off), x)
    {
      CoversConcat(Gap(0, off[0]), gaps, x);
      GapCovers(0, off[0], x);
      FreeByte(total, h, off, x);
    }
    CoalescedUnique(h.free, AllGaps(total, h.used, off));
  }

  lemma FreeByte(total: nat, h: Heap, off: seq<nat>, x: nat)
    requires HeapInv(total, h) && NothingLost(total, h) && SortedOffsets(h.used, off) && off != []
    ensures Covers(h.free, x) <==>
              (x < off[0] || (h.used[off[0]].End() <= x < total && forall i :: 0 <= i < |off| ==> !h.used[off[i]].Has(x)))
  {
    if Covers(h.free, x) {
      FreeNotUsed(total, h, x);
      CoveredBelow(total, h, x);
    }
    if InUse(h.used, x) {
      var o :| o in h.used && h.used[o].Has(x);
      var i :| 0 <= i < |off| && off[i] == o;
      assert off[0] <= o;
    }
    assert h.used[off[0]].End() <= total;
  }

  /** What the restored list holds, for any used blocks: every byte in none of them, but for the gap behind the first block if that block
      is not at 0 and not the only one. No other coalesced list holds these bytes. */
  lemma RestoreCoversExactly(total: nat, used: map<nat, Block>, off: seq<nat>)
    requires SortedOffsets(used, off) && off != []
    requires UsedDisjoint(used) && forall o :: o in used ==> used[o].End() <= total
    ensures Coalesced(Restore(total, used, off))
    ensures forall x: nat :: Covers(Restore(total, used, off), x) <==>
              && x < total && !InUse(used, x)
              && !(off[0] > 0 && |off| > 1 && used[off[0]].End() <= x < off[1])
  {
    RestoreIs(total, used, off);
    var from := From(off);
    GapsAreTheComplement(total, used, from);
    forall x: nat
      ensures Covers(Restore(total, used, off), x) <==>
                x < total && !InUse(used, x) && !(off[0] > 0 && |off| > 1 && used[off[0]].End() <= x < off[1])
    {
      CoversConcat(Gap(0, off[0]), Gaps(total, used, from), x);
      GapCovers(0, off[0], x);
      assert Covers(Gaps(total, used, from), x) <==>
               used[from[0]].End() <= x < total && forall i :: 0 <= i < |from| ==> !used[from[i]].Has(x);
      RestoredByte(total, used, off, x);
    }
  }

  /** The used blocks from the one the loop starts with. */
  function From(off: seq<nat>): (from: seq<nat>)
    requires off != []
    ensures from != []
  {
    if off[0] > 0 && |off| > 1 then off[1..] else off
  }

  /** The gap in front, and the gaps behind those blocks. */
  lemma RestoreIs(total: nat, used: map<nat, Block>, off: seq<nat>)
    requires SortedOffsets(used, off) && off != []
    requires UsedDisjoint(used) && forall o :: o in used ==> used[o].End() <= total
    ensures var from := From(off);
            && (forall i :: 0 <= i < |from| ==> from[i] in used)
            && Restore(total, used, off) == Gap(0, off[0]) + Gaps(total, used, from)
            && Coalesced(Restore(total, used, off))
  {
    var from := From(off);
    GapsAreTheComplement(total, used, from);
    Prepend(Gap(0, off[0]), Gaps(total, used, from), off[0]);
    assert Restore(total, used, off) == Gap(0, off[0]) + Gaps(total, used, from);
  }

  lemma UsedByOffset(used: map<nat, Block>, off: seq<nat>, x: nat)
    requires SortedOffsets(used, off)
    ensures InUse(used, x) <==> exists i :: 0 <= i < |off| && off[i] in used && used[off[i]].Has(x)
  {
    if InUse(used, x) {
      var o :| o in used && used[o].Has(x);
      var i :| 0 <= i < |off| && off[i] == o;
    }
  }

  /** The bytes in front of the first block and behind the block the gaps start from. */
  lemma RestoredByte(total: nat, used: map<nat, Block>, off: seq<nat>, x: nat)
    requires SortedOffsets(used, off) && off != []
    requires UsedDisjoint(used) && forall o :: o in used ==> used[o].End() <= total
    ensures var from := From(off);
            (x < off[0] || (used[from[0]].End() <= x < total && forall i :: 0 <= i < |from| ==> !used[from[i]].Has(x))) <==>
              x < total && !InUse(used, x) && !(off[0] > 0 && |off| > 1 && used[off[0]].End() <= x < off[1])
  {
    UsedByOffset(used, off, x);
    assert off[0] in used && used[off[0]].Has(off[0]);
    if |off| > 1 {
      assert off[1] in used && used[off[0]].End() <= off[1];
      assert forall i :: 0 <= i < |off[1..]| ==> off[1..][i] == off[i + 1];
    }
  }

  /** Restoring a snapshot rebuilds the free list exactly if memory starts with a used block, or there is only one used
      block, or the second used block touches the first. */
  lemma RestoreIsExact(total: nat, h: Heap, off: seq<nat>)
    requires HeapInv(total, h) && NothingLost(total, h) && SortedOffsets(h.used, off) && off != []
    ensures Restore(total, h.used, off) == h.free <==>
              off[0] == 0 || |off| == 1 || h.used[off[0]].End() == off[1]
  {
    FreeListIsAllGaps(total, h, off);
    if off[0] == 0 {
      assert Gap(0, off[0]) + Gaps(total, h.used, off) == Gaps(total, h.used, off);
    } else if |off| > 1 {
      var gap := Gap(h.used[off[0]].End(), off[1]);
      assert h.used[off[0]].End() <= off[1];
      assert |h.free| == |Restore(total, h.used, off)| + |gap|;
      if gap == [] {
        assert Gaps(total, h.used, off) == Gaps(total, h.used, off[1..]);
      }
    }
  }

  /** The same, from a fresh memory through any run of legal operations in which every free returned true. */
  lemma SnapshotRoundTrip(total: nat, ops: seq<Op>, off: seq<nat>)
    requires total > 0 && AllLegal(total, ops) && AllSucceed(total, ops)
    requires SortedOffsets(RunOps(total, ops).used, off) && off != []
    ensures var h := RunOps(total, ops);
            Restore(total, h.used, off) == h.free <==>
              off[0] == 0 || |off| == 1 || h.used[off[0]].End() == off[1]
  {
    RunKeepsInv(total, ops);
    RestoreIsExact(total, RunOps(total, ops), off);
  }

  // ---------------------------------------------------------------- the conditions can fail

  /** One more operation of a legal run. */
  lemma Then(total: nat, ops: seq<Op>, op: Op)
    requires AllLegal(total, ops) && Legal(RunOps(total, ops), op)
    ensures AllLegal(total, ops + [op]) && RunOps(total, ops + [op]) == Do(RunOps(total, ops), op)
    ensures AllSucceed(total, ops + [op]) <==> AllSucceed(total, ops) && Succeeds(RunOps(total, ops), op)
  {
    assert (ops + [op])[..|ops|] == ops;
  }

  lemma OneMore(total: nat, ops: seq<Op>, h: Heap, op: Op)
    requires AllLegal(total, ops) && AllSucceed(total, ops) && RunOps(total, ops) == h && Legal(h, op) && Succeeds(h, op)
    ensures AllLegal(total, ops + [op]) && AllSucceed(total, ops + [op]) && RunOps(total, ops + [op]) == Do(h, op)
  {
    Then(total, ops, op);
  }

  lemma AllocFromLast(h: Heap, b: Block, size: nat)
    requires h.free == [b] && 0 < size <= b.size
    ensures Alloc(h, size) ==
            (Heap(if size < b.size then [Block(b.offset + size, b.size - size)] else [], h.used[b.offset := Block(b.offset, size)]),
             Some(Block(b.offset, size)))
  {
    assert FirstFit(h.free, size, 0) == 0;
    var rest := if size < b.size then [Block(b.offset + size, b.size - size)] else [];
    assert h.free[..0] + rest + h.free[1..] == rest;
  }

  /** In every memory of at least two bytes a legal run reaches a free that is refused: the memory is used up by two blocks,
      the first is freed, and then there is no free block beyond the second. */
  lemma RefusedFreeIsReachable(total: nat) returns (ops: seq<Op>, offset: nat)
    requires total >= 2
    ensures AllLegal(total, ops) && AllSucceed(total, ops)
    ensures var h := RunOps(total, ops); offset in h.used && !Free(h, offset).1
  {
    ops, offset := [], 1;
    var h := Fresh(total);
    AllocFromLast(h, h.free[0], 1);
    Then(total, ops, Allocate(1));
    ops, h := ops + [Allocate(1)], Do(h, Allocate(1));
    assert h == Heap([Block(1, total - 1)], map[0 := Block(0, 1)]);
    AllocFromLast(h, h.free[0], total - 1);
    Then(total, ops, Allocate(total - 1));
    ops, h := ops + [Allocate(total - 1)], Do(h, Allocate(total - 1));
    assert h == Heap([], map[0 := Block(0, 1), 1 := Block(1, total - 1)]);
    Then(total, ops, Release(0));
    ops, h := ops + [Release(0)], Do(h, Release(0));
    assert h == Heap([Block(0, 1)], map[1 := Block(1, total - 1)]);
    FreeSucceedsExactly(h, 1);
  }

  const B0 := Block(0, 1)
  const B1 := Block(1, 1)
  const B2 := Block(2, 1)
  const B3 := Block(3, 1)

  const FOUR := [Allocate(1), Allocate(1), Allocate(1), Allocate(1)]

  /** Four blocks of a byte each in front of the free rest. */
  lemma FourBlocks(total: nat)
    requires total >= 5
    ensures var ops := FOUR;
            && AllLegal(total, ops) && AllSucceed(total, ops)
            && RunOps(total, ops) == Heap([Block(4, total - 4)], map[0 := B0, 1 := B1, 2 := B2, 3 := B3])
  {
    var h := Fresh(total);
    AllocFromLast(h, Block(0, total), 1);
    Then(total, [], Allocate(1));
    assert [] + [Allocate(1)] == [Allocate(1)];
    h := Heap([Block(1, total - 1)], map[0 := B0]);
    AllocFromLast(h, Block(1, total - 1), 1);
    Then(total, [Allocate(1)], Allocate(1));
    assert [Allocate(1)] + [Allocate(1)] == [Allocate(1), Allocate(1)];
    h := Heap([Block(2, total - 2)], map[0 := B0, 1 := B1]);
    assert RunOps(total, [Allocate(1), Allocate(1)]) == h;
    AllocFromLast(h, Block(2, total - 2), 1);
    Then(total, [Allocate(1), Allocate(1)], Allocate(1));
    assert [Allocate(1), Allocate(1)] + [Allocate(1)] == [Allocate(1), Allocate(1), Allocate(1)];
    h := Heap([Block(3, total - 3)], map[0 := B0, 1 := B1, 2 := B2]);
    assert RunOps(total, [Allocate(1), Allocate(1), Allocate(1)]) == h;
    AllocFromLast(h, Block(3, total - 3), 1);
    Then(total, [Allocate(1), Allocate(1), Allocate(1)], Allocate(1));
    assert [Allocate(1), Allocate(1), Allocate(1)] + [Allocate(1)] == [Allocate(1), Allocate(1), Allocate(1), Allocate(1)];
  }

  /** Freeing the first of them: there is no free block before it. */
  lemma ReleaseFirst(h: Heap, b: Block)
    requires h.free == [b] && b.offset > 1 && 0 in h.used && h.used[0] == B0
    ensures Free(h, 0) == (Heap([B0, b], h.used - {0}), true)
  {
    assert h.free[..0] + [B0] + h.free[0..] == [B0, b];
    assert InsertAt(h.free, 0, 0) == 0;
  }

  /** Freeing the third: the one free block before it lies at 0. */
  lemma ReleaseThird(h: Heap, b: Block)
    requires h.free == [B0, b] && b.offset > 2 && 2 in h.used
    ensures Free(h, 2).1 && Free(h, 2).0.used == h.used - {2}
  {
    FirstBeyondIs(h.free, 2, 1);
    assert h.free[..1] == [] + [B0] && h.free[..1][..0] == [];
    FreeSucceedsExactly(h, 2);
  }

  lemma OneReleased(total: nat)
    requires total >= 5
    ensures var ops := FOUR + [Release(0)];
            && AllLegal(total, ops) && AllSucceed(total, ops)
            && RunOps(total, ops) == Heap([B0, Block(4, total - 4)], map[1 := B1, 2 := B2, 3 := B3])
  {
    var (h, b) := (Heap([Block(4, total - 4)], map[0 := B0, 1 := B1, 2 := B2, 3 := B3]), Block(4, total - 4));
    ReleaseFirst(h, b);
    assert h.used - {0} == map[1 := B1, 2 := B2, 3 := B3];
    assert Succeeds(h, Release(0)) && Do(h, Release(0)) == Heap([B0, b], map[1 := B1, 2 := B2, 3 := B3]);
    OneMore(total, FOUR, h, Release(0)) by { FourBlocks(total); }
  }

  lemma TwoReleased(total: nat)
    requires total >= 5
    ensures var ops := FOUR + [Release(0)] + [Release(2)];
            && AllLegal(total, ops) && AllSucceed(total, ops)
            && RunOps(total, ops).used == map[1 := B1, 3 := B3]
  {
    OneReleased(total);
    var h := Heap([B0, Block(4, total - 4)], map[1 := B1, 2 := B2, 3 := B3]);
    ReleaseThird(h, Block(4, total - 4));
    Then(total, FOUR + [Release(0)], Release(2));
    assert h.used - {2} == map[1 := B1, 3 := B3];
  }

  /** In every memory of at least five bytes a legal run in which every free returned true reaches a state whose snapshot is not
      restored: with the blocks at 0 and 2 freed again, the gap behind the one at 1 is skipped. */
  lemma InexactRestoreIsReachable(total: nat) returns (ops: seq<Op>, off: seq<nat>)
    requires total >= 5
    ensures AllLegal(total, ops) && AllSucceed(total, ops)
    ensures off != [] && SortedOffsets(RunOps(total, ops).used, off)
    ensures var h := RunOps(total, ops); Restore(total, h.used, off) != h.free
  {
    TwoReleased(total);
    ops, off := FOUR + [Release(0)] + [Release(2)], [1, 3];
    SnapshotRoundTrip(total, ops, off);
  }
}
