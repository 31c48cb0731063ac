/**
 NodeServer's answer to a request for a ring of segments: allocate a block, and write the ring into it. Whether or not the
 allocation succeeds, the ring is written: after a failure the offset is the null block's, 0.
 */
module NodeServer {
  import opened Util
  import opened SegmentHeader
  import opened RdmaMemory
  import opened RdmaTheorems
  import opened RDMAManager
  import opened RingLayout

  /** The size of the block behind a ring: its counter word and its segments. */
  function RequestSize(t: BufferType, stride: nat, n: nat): (size: nat) {
    SegmentOffset(CounterSize(t), stride, n)
  }

  /** What the node's server computes it as. */
  lemma RequestSizeIs(t: BufferType, stride: nat, n: nat)
    ensures RequestSize(t, stride, n) == n * stride + if t == LAT then 8 else 0
  {
    OffsetIs(CounterSize(t), stride, n);
  }

  /** Where the ring is written. */
  function Base(r: Option<Block>): (base: nat) {
    if r.Some? then r.value.offset else 0
  }

  // ---------------------------------------------------------------- what survives a request

  /** Whatever the memory holds, every byte in use keeps its value. */
  ghost predicate Spares(used: map<nat, Block>, base: nat, t: BufferType, stride: nat, n: nat) {
    forall mem: Memory, x: nat :: InUse(used, x) ==> At(WriteRing(mem, base, t, stride, n), x) == At(mem, x)
  }

  lemma SparesUntouched(used: map<nat, Block>, base: nat, t: BufferType, stride: nat, n: nat)
    ensures Spares(used, base, t, stride, n) <==> forall x: nat :: InUse(used, x) ==> !Touched(base, t, stride, n, x)
  {
    forall x: nat | InUse(used, x) && Touched(base, t, stride, n, x)
      ensures !Spares(used, base, t, stride, n)
    {
      var b := RingByte(base, t, stride, n, x);
      RingByteIsWritten(map[], base, t, stride, n, x);
      var mem: Memory := map[x := if b == Some(0) then 1 else 0];
      RingByteIsWritten(mem, base, t, stride, n, x);
      assert At(WriteRing(mem, base, t, stride, n), x) != At(mem, x);
    }
    forall mem: Memory, x: nat | InUse(used, x) && !Touched(base, t, stride, n, x)
      ensures At(WriteRing(mem, base, t, stride, n), x) == At(mem, x)
    {
      RingByteIsWritten(mem, base, t, stride, n, x);
    }
  }

  /** A successful request touches nothing that was in use. */
  lemma SuccessSpares(total: nat, h: Heap, t: BufferType, stride: nat, n: nat)
    requires HeapInv(total, h) && stride >= HEADER_SIZE && RequestSize(t, stride, n) > 0
    requires Alloc(h, RequestSize(t, stride, n)).1.Some?
    ensures Spares(h.used, Alloc(h, RequestSize(t, stride, n)).1.value.offset, t, stride, n)
  {
    var b := Alloc(h, RequestSize(t, stride, n)).1.value;
    AllocExactly(total, h, RequestSize(t, stride, n));
    forall x: nat | Touched(b.offset, t, stride, n, x)
      ensures !InUse(h.used, x)
    {
      TouchedInBlock(b, t, stride, n, x);
    }
    SparesUntouched(h.used, b.offset, t, stride, n);
  }

  /** Existing rings and counter words survive a request, whatever the memory holds, if and only if the allocation succeeds or
      nothing in use lies in the bytes a ring at offset 0 is written to. */
  lemma RingsSurviveExactly(total: nat, h: Heap, t: BufferType, stride: nat, n: nat)
    requires HeapInv(total, h) && stride >= HEADER_SIZE && RequestSize(t, stride, n) > 0
    ensures var r := Alloc(h, RequestSize(t, stride, n)).1;
            Spares(h.used, Base(r), t, stride, n) <==>
              r.Some? || forall x: nat :: InUse(h.used, x) ==> !Touched(0, t, stride, n, x)
  {
    if Alloc(h, RequestSize(t, stride, n)).1.Some? {
      SuccessSpares(total, h, t, stride, n);
    } else {
      SparesUntouched(h.used, 0, t, stride, n);
    }
  }

  /** A refused request writes over whatever lies at offset 0. If that is the counter word of a LAT ring, its credits are gone:
      the word reads 0, the counter of the refused ring's first header, or the size of the refused ring if that is a LAT ring. */
  lemma RefusedRequestOverwritesCredit(mem: Memory, t: BufferType, stride: nat, n: nat)
    requires stride >= HEADER_SIZE && n > 0 && RequestSize(t, stride, n) < WORD
    ensures WordAt(WriteRing(mem, 0, t, stride, n), 0) == if t == LAT then n else 0
  {
    if t == LAT {
      CountBelowOffset(COUNTER_SIZE, stride, n);
      CounterIsWritten(mem, 0, stride, n);
    } else {
      RefusedRequestClearsCredit(mem, stride, n);
    }
  }

  lemma RefusedRequestClearsCredit(mem: Memory, stride: nat, n: nat)
    requires stride >= HEADER_SIZE && n > 0 && SegmentOffset(0, stride, n) < WORD
    ensures WordAt(WriteRing(mem, 0, BW, stride, n), 0) == 0
  {
    RingIsWritten(mem, 0, BW, stride, n);
    var mem' := WriteRing(mem, 0, BW, stride, n);
    assert Linked(mem', 0, stride, n, 0);
    assert HeaderAt(mem', 0).counter == WordAt(mem', 0) by {
      assert Slice(mem', 0, HEADER_SIZE)[..8] == Slice(mem', 0, COUNTER_SIZE);
    }
  }

  /** And this happens: in a memory one LAT ring fills, every further request, of either kind, is refused and overwrites its credit. */
  lemma RefusedRequestIsReachable(stride: nat, n: nat, t2: BufferType, stride2: nat, n2: nat)
    requires stride > 0 && stride2 > 0 && n2 > 0
    ensures var total := RequestSize(LAT, stride, n);
            var (h, r) := Alloc(Fresh(total), total);
            && r == Some(Block(0, total))
            && InUse(h.used, 0)
            && Alloc(h, RequestSize(t2, stride2, n2)).1 == None
            && Touched(0, t2, stride2, n2, 0)
  {
    var total := RequestSize(LAT, stride, n);
    CountBelowOffset(COUNTER_SIZE, stride, n);
    AllocFromLast(Fresh(total), Block(0, total), total);
    var h := Alloc(Fresh(total), total).0;
    assert h.used[0].Has(0);
    assert t2 == BW ==> InHeader(0, stride2, 0, 0);
  }

  // ---------------------------------------------------------------- the server

  /** A ring the server has made, by its block and layout. */
  datatype MadeRing = MadeRing(base: nat, t: BufferType, stride: nat, n: nat) {
    function Where(): (b: Block) {
      Block(base, RequestSize(t, stride, n))
    }
  }

  /** The ring holds its block of the manager. */
  ghost predicate Holds(used: map<nat, Block>, ring: MadeRing) {
    ring.base in used && used[ring.base] == ring.Where()
  }

  class Server {
    const manager: MemoryManager
    var mem: Memory

    ghost var rings: seq<MadeRing>

    /** The manager's invariant, and every ring made is a block of its own in use. */
    ghost predicate Valid()
      reads this, manager
    {
      && manager.memSize < WORD
      && HeapInv(manager.memSize, manager.Abs())
      && (forall i :: 0 <= i < |rings| ==> Holds(manager.usedRdmaMem, rings[i]))
      && (forall i, j :: 0 <= i < j < |rings| ==> rings[i].base != rings[j].base)
    }

    constructor (memSize: nat, mem: Memory)
      requires 0 < memSize < WORD
      ensures Valid() && fresh(manager) && manager.memSize == memSize
      ensures manager.Abs() == Fresh(memSize) && this.mem == mem && rings == []
    {
      manager := new MemoryManager(memSize);
      this.mem := mem;
      rings := [];
      new;
      FreshInv(memSize);
    }

    /** DPIAllocSegmentsRequest. The memory after it is the one before with the ring written at the new block, or after a refusal
        at 0. In either case a fresh ring is there, with its size in the counter word if it is a LAT ring. After a success
        every ring made before, header, counter word and payload, is as it was; after a refusal that is so exactly
        under the condition of RingsSurviveExactly. */
    method AllocSegments(count: nat, stride: nat, t: BufferType) returns (ok: bool, offset: nat)
      requires Valid() && stride >= HEADER_SIZE && 0 < RequestSize(t, stride, count) < WORD
      modifies this`mem, this`rings, manager
      ensures Valid()
      ensures var (h, r) := Alloc(old(manager.Abs()), RequestSize(t, stride, count));
              && manager.Abs() == h
              && ok == r.Some?
              && offset == Base(r) + CounterSize(t)
              && mem == WriteRing(old(mem), Base(r), t, stride, count)
              && rings == old(rings) + if ok then [MadeRing(Base(r), t, stride, count)] else []
      ensures IsRing(mem, offset, stride, count)
      ensures t == LAT ==> WordAt(mem, offset - COUNTER_SIZE) == count
      ensures ok ==> forall x: nat :: InUse(old(manager.usedRdmaMem), x) ==> At(mem, x) == At(old(mem), x)
    {
      var base;
      ok, base := RequestRing(count, stride, t);
      offset := WriteRingTo(base, count, stride, t);
      FreshRing(old(mem), base, t, stride, count);
    }

    /** requestMemoryResource, with the ring recorded if there is a block for it. */
    method RequestRing(count: nat, stride: nat, t: BufferType) returns (ok: bool, base: nat)
      requires Valid() && stride >= HEADER_SIZE && 0 < RequestSize(t, stride, count) < WORD
      modifies this`rings, manager
      ensures Valid()
      ensures var (h, r) := Alloc(old(manager.Abs()), RequestSize(t, stride, count));
              && manager.Abs() == h && ok == r.Some? && base == Base(r)
              && rings == old(rings) + if ok then [MadeRing(base, t, stride, count)] else []
      ensures base + RequestSize(t, stride, count) < WORD
      ensures ok ==> Spares(old(manager.usedRdmaMem), base, t, stride, count)
    {
      var memRes := RequestMemory(count, stride, t);
      ok := memRes.Some?;
      base := if ok then memRes.value.offset else 0;
      if ok {
        Made(MadeRing(base, t, stride, count));
      }
    }

    /** The size of the request, and requestMemoryResource. */
    method RequestMemory(count: nat, stride: nat, t: BufferType) returns (r: Option<Block>)
      requires Valid() && stride >= HEADER_SIZE && RequestSize(t, stride, count) > 0
      modifies manager
      ensures Valid()
      ensures (manager.Abs(), r) == Alloc(old(manager.Abs()), RequestSize(t, stride, count))
      ensures r.Some? ==>
                && NewBlock(old(manager.usedRdmaMem), r.value, t, stride, count)
                && manager.usedRdmaMem == old(manager.usedRdmaMem)[r.value.offset := r.value]
                && r.value.End() <= manager.memSize
    {
      SuccessIsNew(count, stride, t);
      var allocateMemorySize := AllocateMemorySize(count, stride, t);
      r := manager.InternalAlloc(allocateMemorySize);
    }

    method AllocateMemorySize(count: nat, stride: nat, t: BufferType) returns (size: nat)
      ensures size == RequestSize(t, stride, count)
    {
      RequestSizeIs(t, stride, count);
      size := count * stride;
      if t == LAT {
        size := size + COUNTER_SIZE;
      }
    }

    /** Everything that is written: the counter word, and the headers behind it. */
    method WriteRingTo(base: nat, count: nat, stride: nat, t: BufferType) returns (offset: nat)
      modifies this`mem
      ensures mem == WriteRing(old(mem), base, t, stride, count)
      ensures offset == base + CounterSize(t)
    {
      offset := base;
      if t == LAT {
        CopyTo(offset, WordBytes(count, COUNTER_SIZE));
        offset := offset + COUNTER_SIZE;
      }
      WriteSegmentHeaders(count, stride, offset);
    }

    /** The ring is recorded. */
    ghost method Made(ring: MadeRing)
      requires Valid() && Holds(manager.usedRdmaMem, ring)
      requires forall i :: 0 <= i < |rings| ==> rings[i].base != ring.base
      modifies this`rings
      ensures Valid() && rings == old(rings) + [ring]
    {
      rings := rings + [ring];
    }

    /** memcpy to the RDMA buffer. */
    method CopyTo(at: nat, bytes: seq<byte>)
      modifies this`mem
      ensures mem == Write(old(mem), at, bytes)
    {
      for i := 0 to |bytes|
        invariant mem == Write(old(mem), at, bytes[..i])
      {
        assert bytes[..i + 1][..i] == bytes[..i];
        mem := mem[at + i := bytes[i]];
      }
      assert bytes[..|bytes|] == bytes;
    }

    /** The loop that writes the headers, each linked to the next and the last to the first. */
    method WriteSegmentHeaders(segmentsCount: nat, segmentsSize: nat, offset: nat)
      modifies this`mem
      ensures mem == WriteHeaders(old(mem), offset, segmentsSize, segmentsCount, segmentsCount)
    {
      for i := 0 to segmentsCount
        invariant mem == WriteHeaders(old(mem), offset, segmentsSize, segmentsCount, i)
      {
        WriteSegmentHeader(segmentsCount, segmentsSize, offset, i);
      }
    }

    method WriteSegmentHeader(segmentsCount: nat, segmentsSize: nat, offset: nat, i: nat)
      requires i < segmentsCount
      modifies this`mem
      ensures mem == Write(old(mem), SegmentOffset(offset, segmentsSize, i), HeaderBytes(InitialHeader(offset, segmentsSize, segmentsCount, i)))
    {
      var lastSegment := i == segmentsCount - 1;
      var nextSegOffset := if lastSegment then offset else offset + (i + 1) * segmentsSize;
      var segmentHeader := Header(0, nextSegOffset, false, false, false).SetWriteable(true);
      var at := offset + i * segmentsSize;
      LoopHeader(offset, segmentsSize, segmentsCount, i, nextSegOffset);
      CopyTo(at, HeaderBytes(segmentHeader));
    }

    /** What a request will mean for the rings made before. */
    lemma SuccessIsNew(count: nat, stride: nat, t: BufferType)
      requires Valid() && stride >= HEADER_SIZE && RequestSize(t, stride, count) > 0
      ensures var (h, r) := Alloc(manager.Abs(), RequestSize(t, stride, count));
              && HeapInv(manager.memSize, h)
              && (forall ring :: Holds(manager.usedRdmaMem, ring) ==> Holds(h.used, ring))
              && (r.Some? ==>
                    && NewBlock(manager.usedRdmaMem, r.value, t, stride, count)
                    && h.used == manager.usedRdmaMem[r.value.offset := r.value]
                    && r.value.End() <= manager.memSize)
    {
      var size := RequestSize(t, stride, count);
      AllocInv(manager.memSize, manager.Abs(), size);
      AllocExactly(manager.memSize, manager.Abs(), size);
      if Alloc(manager.Abs(), size).1.Some? {
        SuccessSpares(manager.memSize, manager.Abs(), t, stride, count);
      }
    }
  }

  /** A block of that size that was not in use; writing the ring into it spares everything that was. */
  ghost predicate NewBlock(used: map<nat, Block>, b: Block, t: BufferType, stride: nat, n: nat) {
    b.offset !in used && b.size == RequestSize(t, stride, n) && Spares(used, b.offset, t, stride, n)
  }

  /** The offsets the loop multiplies out. */
  lemma LoopHeader(entry: nat, stride: nat, n: nat, i: nat, next: nat)
    requires i < n && next == if i == n - 1 then entry else entry + (i + 1) * stride
    ensures entry + i * stride == SegmentOffset(entry, stride, i)
    ensures FreeHeader(next) == InitialHeader(entry, stride, n, i)
  {
    OffsetIs(entry, stride, i);
    OffsetIs(entry, stride, i + 1);
  }

  /** The ring just written is there, and fits its words. */
  lemma FreshRing(mem: Memory, base: nat, t: BufferType, stride: nat, n: nat)
    requires stride >= HEADER_SIZE && base + RequestSize(t, stride, n) < WORD
    ensures IsRing(WriteRing(mem, base, t, stride, n), base + CounterSize(t), stride, n)
    ensures t == LAT ==> WordAt(WriteRing(mem, base, t, stride, n), base) == n
  {
    OffsetShift(base, CounterSize(t), stride, n);
    CountBelowOffset(CounterSize(t), stride, n);
    RingIsWritten(mem, base, t, stride, n);
    if t == LAT {
      CounterIsWritten(mem, base, stride, n);
    }
  }
}
