/**
 The allocator of a node's RDMA memory, on values: a first-fit free list with splitting and coalescing, and the map of
 used blocks. Covers says which bytes a list of blocks holds; conservation and the snapshot are stated through it.
 */
module RdmaMemory {
  import opened Util

  datatype Block = Block(offset: nat, size: nat) {
    function End(): (k: nat) { offset + size }
    predicate Has(x: nat) { offset <= x < End() }
  }

  /** m_rdmaMem and m_usedRdmaMem. */
  datatype Heap = Heap(free: seq<Block>, used: map<nat, Block>)

  // ---------------------------------------------------------------- operations

  /** The first block from position i on that is large enough. */
  function FirstFit(free: seq<Block>, size: nat, i: nat): (k: nat)
    requires i <= |free|
    ensures i <= k <= |free|
    decreases |free| - i
  {
    if i == |free| || free[i].size >= size then i else FirstFit(free, size, i + 1)
  }

  /** The list with the front of block k cut off, or without block k if nothing of it is left. */
  function WithoutFront(free: seq<Block>, k: nat, size: nat): (free': seq<Block>)
    requires k < |free|
  {
    var rest := if free[k].size > size then [Block(free[k].offset + size, free[k].size - size)] else [];
    free[..k] + rest + free[k + 1..]
  }

  function Alloc(h: Heap, size: nat): (r: (Heap, Option<Block>)) {
    var k := FirstFit(h.free, size, 0);
    if k == |h.free| then (h, None)
    else
      var b := Block(h.free[k].offset, size);
      (Heap(WithoutFront(h.free, k, size), h.used[b.offset := b]), Some(b))
  }

  function SumOffsets(free: seq<Block>): (k: nat) {
    if free == [] then 0 else SumOffsets(free[..|free| - 1]) + free[|free| - 1].offset
  }

  /** Where internalFree's loop inserts: the first position from i on whose block lies beyond the offset while the sum
      of the offsets of all blocks before it does not exceed it. */
  function InsertAt(free: seq<Block>, offset: nat, i: nat): (k: nat)
    requires i <= |free|
    ensures i <= k <= |free|
    decreases |free| - i
  {
    if i == |free| || SumOffsets(free[..i]) <= offset < free[i].offset then i else InsertAt(free, offset, i + 1)
  }

  /** The list with block i joined to the neighbours it touches. */
  function Merge(list: seq<Block>, i: nat): (free: seq<Block>)
    requires i < |list|
  {
    var lo := if i > 0 && list[i - 1].End() == list[i].offset then i - 1 else i;
    var hi := if i + 1 < |list| && list[i].End() == list[i + 1].offset then i + 1 else i;
    list[..lo] + [Block(list[lo].offset, list[hi].End() - list[lo].offset)] + list[hi + 1..]
  }

  /** internalFree: the block leaves the used map in any case; it reaches the free list only if a position is found.
      An offset that is not in use yields the map's default, an empty block at 0. */
  function Free(h: Heap, offset: nat): (r: (Heap, bool)) {
    var b := if offset in h.used then h.used[offset] else Block(0, 0);
    var used := h.used - {offset};
    if h.free == [] then (Heap([b], used), true)
    else
      var k := InsertAt(h.free, offset, 0);
      if k == |h.free| then (Heap(h.free, used), false)
      else (Heap(Merge(h.free[..k] + [b] + h.free[k..], k), used), true)
  }

  // ---------------------------------------------------------------- invariant

  /** Strictly sorted, no empty block, no two blocks overlapping or touching. */
  ghost predicate Coalesced(free: seq<Block>) {
    && (forall i :: 0 <= i < |free| ==> free[i].size > 0)
    && (forall i, j :: 0 <= i < j < |free| ==> free[i].End() < free[j].offset)
  }

  ghost predicate Covers(free: seq<Block>, x: nat) {
    exists i :: 0 <= i < |free| && free[i].Has(x)
  }

  ghost predicate InUse(used: map<nat, Block>, x: nat) {
    exists o :: o in used && used[o].Has(x)
  }

  ghost predicate UsedDisjoint(used: map<nat, Block>) {
    && (forall o :: o in used ==> used[o].offset == o && used[o].size > 0)
    && (forall o, o' :: o in used && o' in used && o < o' ==> used[o].End() <= o')
  }

  /** The allocator's invariant on a memory of `total` bytes. */
  ghost predicate HeapInv(total: nat, h: Heap) {
    && Coalesced(h.free)
    && UsedDisjoint(h.used)
    && (forall i :: 0 <= i < |h.free| ==> h.free[i].End() <= total)
    && (forall o :: o in h.used ==> h.used[o].End() <= total)
    && (forall i, o :: 0 <= i < |h.free| && o in h.used ==> h.free[i].End() <= o || h.used[o].End() <= h.free[i].offset)
  }

  /** No byte has been lost: every byte is free or in use. */
  ghost predicate NothingLost(total: nat, h: Heap) {
    forall x: nat :: x < total ==> Covers(h.free, x) || InUse(h.used, x)
  }

  // ---------------------------------------------------------------- allocation

  /** First fit: the block starts the first free block that is large enough; without one, nothing changes. */
  lemma {:induction false} FirstFitIsFirst(free: seq<Block>, size: nat, i: nat)
    requires i <= |free|
    ensures var k := FirstFit(free, size, i);
            && (k < |free| ==> free[k].size >= size)
            && (forall j :: i <= j < k ==> free[j].size < size)
    decreases |free| - i
  {
    if i < |free| && free[i].size < size {
      FirstFitIsFirst(free, size, i + 1);
    }
  }

  /** Every block of the list ends before y. */
  ghost predicate Below(list: seq<Block>, y: nat) {
    forall i :: 0 <= i < |list| ==> list[i].End() < y
  }

  /** Every block of the list starts after y. */
  ghost predicate Above(list: seq<Block>, y: nat) {
    forall i :: 0 <= i < |list| ==> y < list[i].offset
  }

  lemma CoversConcat(a: seq<Block>, b: seq<Block>, x: nat)
    ensures Covers(a + b, x) <==> Covers(a, x) || Covers(b, x)
  {
    if Covers(a + b, x) {
      var i :| 0 <= i < |a + b| && (a + b)[i].Has(x);
      assert if i < |a| then a[i].Has(x) else b[i - |a|].Has(x);
    }
    if Covers(a, x) {
      var i :| 0 <= i < |a| && a[i].Has(x);
      assert (a + b)[i].Has(x);
    }
    if Covers(b, x) {
      var i :| 0 <= i < |b| && b[i].Has(x);
      assert (a + b)[|a| + i].Has(x);
    }
  }

  lemma JoinCoalesced(a: seq<Block>, b: seq<Block>, y: nat)
    requires Coalesced(a) && Coalesced(b) && Below(a, y) && (Above(b, y) || (b != [] && b[0].offset == y && Above(b[1..], y)))
    ensures Coalesced(a + b)
  {
    var c := a + b;
    forall i, j | 0 <= i < j < |c|
      ensures c[i].End() < c[j].offset
    {
      if i < |a| <= j {
        assert c[j] == b[j - |a|];
        if j > |a| {
          assert b[1..] == [] || b[1..][j - |a| - 1] == c[j];
        }
      }
    }
  }

  lemma CoversOne(b: Block, x: nat)
    ensures Covers([b], x) <==> b.Has(x)
  {
    if b.Has(x) {
      assert [b][0].Has(x);
    }
  }

  /** A list around a block: coalesced if the sides are and keep their distance. */
  lemma Around(left: seq<Block>, b: Block, right: seq<Block>)
    requires Coalesced(left) && Coalesced(right) && b.size > 0 && Below(left, b.offset) && Above(right, b.End())
    ensures Coalesced(left + [b] + right)
    ensures forall x: nat :: Covers(left + [b] + right, x) <==> Covers(left, x) || b.Has(x) || Covers(right, x)
  {
    JoinCoalesced(left, [b], b.offset);
    forall i | 0 <= i < |left + [b]|
      ensures (left + [b])[i].End() <= b.End()
    {
    }
    assert Below(left + [b], b.End() + 1);
    if right != [] && right[0].offset == b.End() + 1 {
      assert forall i :: 0 <= i < |right[1..]| ==> right[1..][i] == right[i + 1];
      assert Above(right[1..], b.End() + 1);
    } else {
      assert Above(right, b.End() + 1);
    }
    JoinCoalesced(left + [b], right, b.End() + 1);
    forall x: nat
      ensures Covers(left + [b] + right, x) <==> Covers(left, x) || b.Has(x) || Covers(right, x)
    {
      CoversConcat(left + [b], right, x);
      CoversConcat(left, [b], x);
      CoversOne(b, x);
    }
  }

  /** A coalesced list seen from its k-th block. */
  lemma SplitAt(free: seq<Block>, k: nat)
    requires Coalesced(free) && k < |free|
    ensures Coalesced(free[..k]) && Coalesced(free[k + 1..])
    ensures Below(free[..k], free[k].offset) && Above(free[k + 1..], free[k].End())
    ensures free == free[..k] + [free[k]] + free[k + 1..]
    ensures forall x: nat :: Covers(free, x) <==> Covers(free[..k], x) || free[k].Has(x) || Covers(free[k + 1..], x)
  {
    var left, right := free[..k], free[k + 1..];
    assert forall i :: 0 <= i < |right| ==> right[i] == free[k + 1 + i];
    Around(left, free[k], right);
  }

  lemma ShrinkBlock(free: seq<Block>, k: nat, size: nat)
    requires Coalesced(free) && k < |free| && 0 < size < free[k].size
    ensures var (b, rest) := (Block(free[k].offset, size), Block(free[k].offset + size, free[k].size - size));
            var free' := free[..k] + [rest] + free[k + 1..];
            && Coalesced(free')
            && forall x: nat :: Covers(free', x) <==> Covers(free, x) && !b.Has(x)
  {
    var rest := Block(free[k].offset + size, free[k].size - size);
    SplitAt(free, k);
    Around(free[..k], rest, free[k + 1..]);
    SidesMiss(free[..k], free[k], free[k + 1..]);
  }

  lemma RemoveBlock(free: seq<Block>, k: nat)
    requires Coalesced(free) && k < |free|
    ensures Coalesced(free[..k] + free[k + 1..])
    ensures forall x: nat :: Covers(free[..k] + free[k + 1..], x) <==> Covers(free, x) && !free[k].Has(x)
  {
    var (left, right) := (free[..k], free[k + 1..]);
    SplitAt(free, k);
    JoinCoalesced(left, right, free[k].offset);
    SidesMiss(left, free[k], right);
    forall x: nat
      ensures Covers(left + right, x) <==> Covers(free, x) && !free[k].Has(x)
    {
      CoversConcat(left, right, x);
    }
  }

  /** What lies on the two sides of a block is not in it. */
  lemma SidesMiss(left: seq<Block>, b: Block, right: seq<Block>)
    requires Below(left, b.offset) && Above(right, b.End())
    ensures forall x: nat :: Covers(left, x) ==> x < b.offset
    ensures forall x: nat :: Covers(right, x) ==> x > b.End()
  {
  }

  /** Taking the front off one block, or the whole block out, keeps a list coalesced and takes exactly those bytes. */
  lemma TakeFront(free: seq<Block>, k: nat, size: nat)
    requires Coalesced(free) && k < |free| && 0 < size <= free[k].size
    ensures var b := Block(free[k].offset, size);
            var free' := WithoutFront(free, k, size);
            && Coalesced(free')
            && forall x: nat :: Covers(free', x) <==> Covers(free, x) && !b.Has(x)
  {
    if free[k].size > size {
      ShrinkBlock(free, k, size);
    } else {
      assert free[..k] + [] + free[k + 1..] == free[..k] + free[k + 1..];
      RemoveBlock(free, k);
    }
  }

  /** Two non-empty blocks that overlap share a byte. */
  lemma SharedByte(a: Block, b: Block) returns (x: nat)
    requires a.size > 0 && b.size > 0 && a.End() > b.offset && b.End() > a.offset
    ensures a.Has(x) && b.Has(x)
  {
    x := if a.offset < b.offset then b.offset else a.offset;
  }

  lemma FreeNotUsed(total: nat, h: Heap, x: nat)
    requires HeapInv(total, h) && Covers(h.free, x)
    ensures !InUse(h.used, x)
  {
  }

  /** Bounds and disjointness of a free list follow from the bytes it covers. */
  lemma BoundsFromBytes(total: nat, free: seq<Block>, used: map<nat, Block>)
    requires Coalesced(free) && UsedDisjoint(used)
    requires forall x: nat :: Covers(free, x) ==> x < total && !InUse(used, x)
    ensures forall i :: 0 <= i < |free| ==> free[i].End() <= total
    ensures forall i, o :: 0 <= i < |free| && o in used ==> free[i].End() <= o || used[o].End() <= free[i].offset
  {
    forall i | 0 <= i < |free|
      ensures free[i].End() <= total
    {
      assert free[i].Has(free[i].End() - 1);
      assert Covers(free, free[i].End() - 1);
    }
    forall i, o | 0 <= i < |free| && o in used && free[i].End() > o && used[o].End() > free[i].offset
      ensures false
    {
      var x := SharedByte(free[i], used[o]);
      assert Covers(free, x) && InUse(used, x);
    }
  }

  lemma CoveredBelow(total: nat, h: Heap, x: nat)
    requires HeapInv(total, h) && Covers(h.free, x)
    ensures x < total
  {
  }

  lemma FrontIsCovered(free: seq<Block>, k: nat, size: nat)
    requires k < |free| && size <= free[k].size
    ensures forall x: nat :: Block(free[k].offset, size).Has(x) ==> Covers(free, x)
  {
    forall x: nat | Block(free[k].offset, size).Has(x)
      ensures Covers(free, x)
    {
      assert free[k].Has(x);
    }
  }

  /** An allocation takes exactly the bytes of the returned block out of the free ones. */
  lemma AllocFreeSide(h: Heap, size: nat)
    requires Coalesced(h.free) && size > 0 && Alloc(h, size).1.Some?
    ensures var (h', b) := (Alloc(h, size).0, Alloc(h, size).1.value);
            && b.size == size
            && Coalesced(h'.free)
            && (forall x: nat :: Covers(h'.free, x) <==> Covers(h.free, x) && !b.Has(x))
            && (forall x: nat :: b.Has(x) ==> Covers(h.free, x))
  {
    var k := FirstFit(h.free, size, 0);
    FirstFitIsFirst(h.free, size, 0);
    TakeFront(h.free, k, size);
    FrontIsCovered(h.free, k, size);
  }

  /** It puts exactly those bytes in use, under a new offset. */
  lemma AllocUsedSide(total: nat, h: Heap, size: nat)
    requires HeapInv(total, h) && size > 0 && Alloc(h, size).1.Some?
    ensures var (h', b) := (Alloc(h, size).0, Alloc(h, size).1.value);
            && b.offset !in h.used
            && UsedDisjoint(h'.used)
            && b.End() <= total
            && (forall x: nat :: InUse(h'.used, x) <==> InUse(h.used, x) || b.Has(x))
  {
    var (k, h', b) := (FirstFit(h.free, size, 0), Alloc(h, size).0, Alloc(h, size).1.value);
    FirstFitIsFirst(h.free, size, 0);
    assert h.free[k].End() > b.offset;
    UsedWithBlock(h.used, b);
  }

  lemma UsedWithBlock(used: map<nat, Block>, b: Block)
    requires b.offset !in used
    ensures forall x: nat :: InUse(used[b.offset := b], x) <==> InUse(used, x) || b.Has(x)
  {
    var used' := used[b.offset := b];
    forall x: nat
      ensures InUse(used', x) <==> InUse(used, x) || b.Has(x)
    {
      if InUse(used, x) {
        var o :| o in used && used[o].Has(x);
        assert used'[o].Has(x);
      }
      if b.Has(x) {
        assert used'[b.offset].Has(x);
      }
    }
  }

  lemma AllocInv(total: nat, h: Heap, size: nat)
    requires HeapInv(total, h) && size > 0
    ensures HeapInv(total, Alloc(h, size).0)
  {
    if Alloc(h, size).1.Some? {
      var (h', b) := (Alloc(h, size).0, Alloc(h, size).1.value);
      AllocFreeSide(h, size);
      AllocUsedSide(total, h, size);
      forall x: nat | Covers(h'.free, x)
        ensures x < total && !InUse(h'.used, x)
      {
        CoveredBelow(total, h, x);
        FreeNotUsed(total, h, x);
      }
      BoundsFromBytes(total, h'.free, h'.used);
    }
  }

  /** The block returned is the front of the first free block that is large enough, all of it was free, and it is
      taken from the free bytes and added to the used ones; without such a block nothing changes. */
  lemma AllocExactly(total: nat, h: Heap, size: nat)
    requires HeapInv(total, h) && size > 0
    ensures var (h', r) := Alloc(h, size);
            match r
            case None => h' == h && forall i :: 0 <= i < |h.free| ==> h.free[i].size < size
            case Some(b) =>
              && b.size == size && b.offset !in h.used && h'.used == h.used[b.offset := b]
              && (exists k :: 0 <= k < |h.free| && h.free[k].offset == b.offset && h.free[k].size >= size
                              && forall i :: 0 <= i < k ==> h.free[i].size < size)
              && (forall x: nat :: b.Has(x) ==> Covers(h.free, x) && !InUse(h.used, x))
              && (forall x: nat :: Covers(h'.free, x) <==> Covers(h.free, x) && !b.Has(x))
              && (forall x: nat :: InUse(h'.used, x) <==> InUse(h.used, x) || b.Has(x))
  {
    FirstFitIsFirst(h.free, size, 0);
    if Alloc(h, size).1.Some? {
      AllocFreeSide(h, size);
      AllocUsedSide(total, h, size);
      var b := Alloc(h, size).1.value;
      forall x: nat | b.Has(x)
        ensures Covers(h.free, x) && !InUse(h.used, x)
      {
        FreeNotUsed(total, h, x);
      }
    }
  }

  /** What an allocation does to the used map. */
  lemma AllocUsed(total: nat, h: Heap, size: nat)
    requires HeapInv(total, h) && size > 0
    ensures var (h', r) := Alloc(h, size);
            if r.None? then h' == h
            else r.value.size == size && r.value.offset !in h.used && h'.used == h.used[r.value.offset := r.value]
  {
    AllocExactly(total, h, size);
  }

  // ---------------------------------------------------------------- coalesced lists are unique

  lemma CoversTail(free: seq<Block>, x: nat)
    requires Coalesced(free) && free != []
    ensures Covers(free, x) <==> free[0].Has(x) || Covers(free[1..], x)
    ensures Covers(free[1..], x) ==> free[0].End() < x
  {
    if Covers(free[1..], x) {
      var i :| 0 <= i < |free[1..]| && free[1..][i].Has(x);
      assert free[i + 1].Has(x);
    }
    if Covers(free, x) {
      var i :| 0 <= i < |free| && free[i].Has(x);
      assert i > 0 ==> free[1..][i - 1].Has(x);
    }
  }

  /** The coalesced form of a set of bytes is unique. */
  lemma {:induction false} CoalescedUnique(a: seq<Block>, b: seq<Block>)
    requires Coalesced(a) && Coalesced(b)
    requires forall x: nat :: Covers(a, x) <==> Covers(b, x)
    ensures a == b
  {
    if a == [] || b == [] {
      if a != [] {
        assert a[0].Has(a[0].offset);
        assert Covers(a, a[0].offset);
      }
      if b != [] {
        assert b[0].Has(b[0].offset);
        assert Covers(b, b[0].offset);
      }
    } else {
      assert a[0].Has(a[0].offset) && b[0].Has(b[0].offset);
      CoversTail(a, a[0].offset);
      CoversTail(b, a[0].offset);
      CoversTail(a, b[0].offset);
      CoversTail(b, b[0].offset);
      CoversTail(a, a[0].End());
      CoversTail(b, a[0].End());
      CoversTail(a, b[0].End());
      CoversTail(b, b[0].End());
      assert a[0] == b[0];
      forall x: nat
        ensures Covers(a[1..], x) <==> Covers(b[1..], x)
      {
        CoversTail(a, x);
        CoversTail(b, x);
      }
      CoalescedUnique(a[1..], b[1..]);
      assert a == [a[0]] + a[1..] && b == [b[0]] + b[1..];
    }
  }

  // ---------------------------------------------------------------- freeing

  /** The first free block beyond the offset. */
  function FirstBeyond(free: seq<Block>, offset: nat, i: nat): (k: nat)
    requires i <= |free|
    ensures i <= k <= |free|
    ensures k < |free| ==> offset < free[k].offset
    ensures forall j :: i <= j < k ==> free[j].offset <= offset
    decreases |free| - i
  {
    if i == |free| || offset < free[i].offset then i else FirstBeyond(free, offset, i + 1)
  }

  lemma {:induction false} SumGrows(free: seq<Block>, i: nat, j: nat)
    requires i <= j <= |free|
    ensures SumOffsets(free[..i]) <= SumOffsets(free[..j])
    ensures i < j ==> SumOffsets(free[..i]) + free[j - 1].offset <= SumOffsets(free[..j])
  {
    if i < j {
      SumGrows(free, i, j - 1);
      assert free[..j][..j - 1] == free[..j - 1];
    }
  }

  lemma {:induction false} NoLaterPosition(free: seq<Block>, offset: nat, i: nat)
    requires i <= |free| && SumOffsets(free[..i]) > offset
    ensures InsertAt(free, offset, i) == |free|
    decreases |free| - i
  {
    if i < |free| {
      SumGrows(free, i, i + 1);
      NoLaterPosition(free, offset, i + 1);
    }
  }

  /** The loop's running sum decides: it stops at the first block beyond the offset if the sum is not past it there,
      and nowhere otherwise. */
  lemma {:induction false} InsertPosition(free: seq<Block>, offset: nat, i: nat)
    requires i <= |free|
    ensures var k := FirstBeyond(free, offset, i);
            InsertAt(free, offset, i) == if k < |free| && SumOffsets(free[..k]) <= offset then k else |free|
    decreases |free| - i
  {
    if i < |free| {
      if offset < free[i].offset {
        if SumOffsets(free[..i]) > offset {
          NoLaterPosition(free, offset, i);
        }
      } else {
        InsertPosition(free, offset, i + 1);
      }
    }
  }

  lemma EmptyBlockStays(free: seq<Block>, k: nat)
    requires k < |free| && free[k].offset > 0 && (k > 0 ==> free[k - 1].size > 0)
    ensures Merge(free[..k] + [Block(0, 0)] + free[k..], k) == free[..k] + [Block(0, 0)] + free[k..]
  {
    NothingToJoin(free, k, Block(0, 0));
    MergeParts(free, k, Block(0, 0));
  }

  lemma NothingToJoin(free: seq<Block>, k: nat, b: Block)
    requires k < |free| && b.End() != free[k].offset && (k > 0 ==> free[k - 1].End() != b.offset)
    ensures LeftOf(free, k, b) == free[..k] && RightOf(free, k, b) == free[k..] && Joined(free, k, b) == b
  {
  }

  lemma EmptyBlockCovers(free: seq<Block>, k: nat, x: nat)
    requires k <= |free|
    ensures Covers(free[..k] + [Block(0, 0)] + free[k..], x) <==> Covers(free, x)
  {
    CoversConcat(free[..k] + [Block(0, 0)], free[k..], x);
    CoversConcat(free[..k], [Block(0, 0)], x);
    CoversConcat(free[..k], free[k..], x);
    assert free[..k] + free[k..] == free;
  }

  /** A free of an offset that is not in use answers by the same rule. It changes no byte's owner, but if it finds a place it
      leaves an empty block in the list. */
  lemma FreeOfUnused(total: nat, h: Heap, offset: nat)
    requires HeapInv(total, h) && offset !in h.used
    ensures var (h', ok) := Free(h, offset);
            && h'.used == h.used
            && (forall x: nat :: Covers(h'.free, x) <==> Covers(h.free, x))
            && (if ok then |h'.free| == |h.free| + 1 && Block(0, 0) in h'.free else h'.free == h.free)
  {
    var (h', ok) := Free(h, offset);
    assert h.used - {offset} == h.used;
    if ok {
      var k := if h.free == [] then 0 else InsertAt(h.free, offset, 0);
      InsertPosition(h.free, offset, 0);
      if h.free == [] {
        assert h'.free == h.free[..k] + [Block(0, 0)] + h.free[k..];
      } else {
        EmptyBlockStays(h.free, k);
      }
      assert h'.free[k] == Block(0, 0);
      forall x: nat
        ensures Covers(h'.free, x) <==> Covers(h.free, x)
      {
        EmptyBlockCovers(h.free, k, x);
      }
    }
  }

  /** internalFree, exactly: true if and only if the free list is empty, or some free block lies beyond the offset and the
      offsets of the free blocks before the first such block sum to no more than the offset. */
  lemma FreeSucceedsExactly(h: Heap, offset: nat)
    ensures var k := FirstBeyond(h.free, offset, 0);
            Free(h, offset).1 <==> h.free == [] || (k < |h.free| && SumOffsets(h.free[..k]) <= offset)
  {
    InsertPosition(h.free, offset, 0);
  }

  /** What Merge makes of a block inserted at position k: the list left of it, the joined block, the list right of it. */
  predicate JoinsLeft(free: seq<Block>, k: nat, b: Block)
    requires k <= |free|
  {
    k > 0 && free[k - 1].End() == b.offset
  }

  predicate JoinsRight(free: seq<Block>, k: nat, b: Block)
    requires k <= |free|
  {
    k < |free| && b.End() == free[k].offset
  }

  function LeftOf(free: seq<Block>, k: nat, b: Block): (free': seq<Block>)
    requires k <= |free|
  {
    if JoinsLeft(free, k, b) then free[..k - 1] else free[..k]
  }

  function RightOf(free: seq<Block>, k: nat, b: Block): (free': seq<Block>)
    requires k <= |free|
  {
    if JoinsRight(free, k, b) then free[k + 1..] else free[k..]
  }

  function Joined(free: seq<Block>, k: nat, b: Block): (b': Block)
    requires k <= |free|
  {
    var start := if JoinsLeft(free, k, b) then free[k - 1].offset else b.offset;
    var end := if JoinsRight(free, k, b) then free[k].End() else b.End();
    Block(start, end - start)
  }

  lemma MergeParts(free: seq<Block>, k: nat, b: Block)
    requires k <= |free|
    ensures Merge(free[..k] + [b] + free[k..], k) == LeftOf(free, k, b) + [Joined(free, k, b)] + RightOf(free, k, b)
  {
    var list := free[..k] + [b] + free[k..];
    assert k > 0 ==> list[k - 1] == free[k - 1] && list[..k - 1] == free[..k - 1];
    assert k < |free| ==> list[k + 1] == free[k] && list[k + 2..] == free[k + 1..];
    assert list[..k] == free[..k] && list[k + 1..] == free[k..];
  }

  /** Between its neighbours: the sides keep their distance from the joined block. */
  ghost predicate Fits(free: seq<Block>, k: nat, b: Block) {
    && k <= |free| && b.size > 0
    && (k > 0 ==> free[k - 1].End() <= b.offset)
    && (k < |free| ==> b.End() <= free[k].offset)
  }

  lemma LeftKeepsDistance(free: seq<Block>, k: nat, b: Block)
    requires Coalesced(free) && Fits(free, k, b)
    ensures Coalesced(LeftOf(free, k, b)) && Below(LeftOf(free, k, b), Joined(free, k, b).offset)
  {
    if k > 0 {
      SplitAt(free, k - 1);
      if !JoinsLeft(free, k, b) {
        assert forall i :: 0 <= i < k ==> free[..k][i].End() <= free[k - 1].End();
        assert Below(free[..k], b.offset);
      }
    }
  }

  lemma RightKeepsDistance(free: seq<Block>, k: nat, b: Block)
    requires Coalesced(free) && Fits(free, k, b)
    ensures Coalesced(RightOf(free, k, b)) && Above(RightOf(free, k, b), Joined(free, k, b).End())
  {
    if k < |free| {
      SplitAt(free, k);
      if !JoinsRight(free, k, b) {
        assert forall i :: 0 <= i < |free[k..]| ==> free[k..][i] == free[k + i] && free[k].offset <= free[k + i].offset;
        assert Above(free[k..], b.End());
      }
    }
  }

  lemma CoversLeft(free: seq<Block>, k: nat, b: Block, x: nat)
    requires k <= |free|
    ensures Covers(free[..k], x) <==> Covers(LeftOf(free, k, b), x) || (JoinsLeft(free, k, b) && free[k - 1].Has(x))
  {
    if JoinsLeft(free, k, b) {
      assert free[..k] == free[..k - 1] + [free[k - 1]];
      CoversConcat(free[..k - 1], [free[k - 1]], x);
      CoversOne(free[k - 1], x);
    }
  }

  lemma CoversRight(free: seq<Block>, k: nat, b: Block, x: nat)
    requires k <= |free|
    ensures Covers(free[k..], x) <==> (JoinsRight(free, k, b) && free[k].Has(x)) || Covers(RightOf(free, k, b), x)
  {
    if JoinsRight(free, k, b) {
      assert free[k..] == [free[k]] + free[k + 1..];
      CoversConcat([free[k]], free[k + 1..], x);
      CoversOne(free[k], x);
    }
  }

  lemma CoversParts(free: seq<Block>, k: nat, b: Block, x: nat)
    requires Fits(free, k, b)
    ensures Covers(LeftOf(free, k, b), x) || Joined(free, k, b).Has(x) || Covers(RightOf(free, k, b), x) <==>
            Covers(free, x) || b.Has(x)
  {
    assert Covers(free, x) <==> Covers(free[..k], x) || Covers(free[k..], x) by {
      assert free == free[..k] + free[k..];
      CoversConcat(free[..k], free[k..], x);
    }
    CoversLeft(free, k, b, x);
    CoversRight(free, k, b, x);
  }

  /** Inserting a block between its neighbours and merging keeps the list coalesced and adds exactly the block's bytes. */
  lemma MergeKeepsCoalesced(free: seq<Block>, k: nat, b: Block)
    requires Coalesced(free) && Fits(free, k, b)
    ensures Coalesced(Merge(free[..k] + [b] + free[k..], k))
    ensures forall x: nat :: Covers(Merge(free[..k] + [b] + free[k..], k), x) <==> Covers(free, x) || b.Has(x)
  {
    MergeParts(free, k, b);
    LeftKeepsDistance(free, k, b);
    RightKeepsDistance(free, k, b);
    Around(LeftOf(free, k, b), Joined(free, k, b), RightOf(free, k, b));
    forall x: nat
      ensures Covers(Merge(free[..k] + [b] + free[k..], k), x) <==> Covers(free, x) || b.Has(x)
    {
      CoversParts(free, k, b, x);
    }
  }

  /** Used blocks lie between the free blocks around the insert position. */
  lemma UsedFits(total: nat, h: Heap, offset: nat)
    requires HeapInv(total, h) && offset in h.used
    ensures Fits(h.free, FirstBeyond(h.free, offset, 0), h.used[offset])
  {
  }

  lemma FreeFreeSide(total: nat, h: Heap, offset: nat)
    requires HeapInv(total, h) && offset in h.used
    ensures var (h', ok) := Free(h, offset);
            && Coalesced(h'.free)
            && (forall x: nat :: Covers(h'.free, x) <==> Covers(h.free, x) || (ok && h.used[offset].Has(x)))
            && (!ok ==> h'.free == h.free)
            && h'.used == h.used - {offset}
  {
    var (k, b) := (FirstBeyond(h.free, offset, 0), h.used[offset]);
    InsertPosition(h.free, offset, 0);
    UsedFits(total, h, offset);
    if h.free == [] {
      assert [b] == Merge(h.free[..0] + [b] + h.free[0..], 0);
      MergeKeepsCoalesced(h.free, 0, b);
    } else if Free(h, offset).1 {
      MergeKeepsCoalesced(h.free, k, b);
    }
  }

  /** On true the free list gains exactly the freed bytes; on false it is unchanged and they are lost. Used loses them
      either way. The invariant survives both. */
  lemma FreeInv(total: nat, h: Heap, offset: nat)
    requires HeapInv(total, h) && offset in h.used
    ensures var (h', ok) := Free(h, offset);
            && HeapInv(total, h')
            && (forall x: nat :: Covers(h'.free, x) <==> Covers(h.free, x) || (ok && h.used[offset].Has(x)))
            && (!ok ==> h'.free == h.free)
            && h'.used == h.used - {offset}
            && (forall x: nat :: InUse(h'.used, x) <==> InUse(h.used, x) && !h.used[offset].Has(x))
  {
    var h' := Free(h, offset).0;
    FreeFreeSide(total, h, offset);
    FreeUsedSide(total, h, offset);
    forall x: nat | Covers(h'.free, x)
      ensures x < total && !InUse(h'.used, x)
    {
      if Covers(h.free, x) {
        CoveredBelow(total, h, x);
        FreeNotUsed(total, h, x);
      }
    }
    BoundsFromBytes(total, h'.free, h'.used);
  }

  lemma FreeUsedSide(total: nat, h: Heap, offset: nat)
    requires HeapInv(total, h) && offset in h.used
    ensures var used := h.used - {offset};
            UsedDisjoint(used) && forall x: nat :: InUse(used, x) <==> InUse(h.used, x) && !h.used[offset].Has(x)
  {
    var used := h.used - {offset};
    forall x: nat
      ensures InUse(used, x) <==> InUse(h.used, x) && !h.used[offset].Has(x)
    {
      if InUse(used, x) {
        var o :| o in used && used[o].Has(x);
        assert h.used[o].Has(x);
      }
      if InUse(h.used, x) && !h.used[offset].Has(x) {
        var o :| o in h.used && h.used[o].Has(x);
        assert used[o].Has(x);
      }
    }
  }
}
