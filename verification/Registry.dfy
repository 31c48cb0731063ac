/**
 The buffer registry: registering a buffer creates one ring per appender on a node, joining hands the rings out, one
 to each writer. The memory of the nodes is the allocator's, reached through a ring request.
 */
module Registry {
  import opened Util
  import opened SegmentHeader
  import opened RdmaMemory
  import opened RdmaTheorems
  import opened RingLayout
  import opened NodeServer

  /** The entry segment of a ring: its byte offset, and the payload size of each segment. */
  datatype BufferSegment = BufferSegment(offset: nat, size: nat)

  datatype BufferHandle = BufferHandle(nodeId: nat, entrySegments: seq<BufferSegment>, segmentsPerWriter: nat,
                                       segmentSizes: nat, bufferType: BufferType)

  /** The allocators of the nodes 1, 2, ..., the registered buffers, and how many writers have joined each. */
  datatype Registry = Registry(heaps: seq<Heap>, handles: map<string, BufferHandle>, joined: map<string, nat>)

  datatype Request =
    | Register(name: string, handle: BufferHandle, numberAppenders: nat)
    | Join(name: string)
    | Retrieve(name: string)
    | Other(node: nat, op: Op)  // somebody else's allocation or free on a node, numbered from 0

  datatype Response =
    | Registered(ok: bool)
    | Segments(handle: BufferHandle)  // what the client builds its handle from
    | JoinFailed
    | NotFound
    | NoAnswer

  /** What the client sends: a fresh handle, for a node numbered from 1, with at least one segment a ring. */
  predicate WellFormed(req: Request) {
    req.Register? ==> req.handle.entrySegments == [] && req.handle.nodeId > 0 && req.handle.segmentsPerWriter > 0
  }

  /** The size of the block of memory behind a ring of the buffer. */
  function RingSize(h: BufferHandle): (size: nat) {
    RequestSize(h.bufferType, h.segmentSizes + HEADER_SIZE, h.segmentsPerWriter)
  }

  /** This is what NodeServer asks the allocator for. */
  lemma RingSizeIs(h: BufferHandle)
    ensures RingSize(h) == h.segmentsPerWriter * (h.segmentSizes + HEADER_SIZE) + if h.bufferType == LAT then 8 else 0
  {
    RequestSizeIs(h.bufferType, h.segmentSizes + HEADER_SIZE, h.segmentsPerWriter);
  }

  /** An allocation on the k-th node. */
  function AllocOn(heaps: seq<Heap>, k: nat, size: nat): (r: (seq<Heap>, Option<Block>))
    requires k < |heaps|
    ensures |r.0| == |heaps|
  {
    var (heap, b) := Alloc(heaps[k], size);
    (heaps[k := heap], b)
  }

  /** createRingOnBuffer: a ring request to the buffer's node; it fails on an unknown node or without memory. */
  function CreateRing(heaps: seq<Heap>, h: BufferHandle): (r: (seq<Heap>, Option<BufferSegment>))
    requires h.nodeId > 0
    ensures |r.0| == |heaps|
  {
    if h.nodeId > |heaps| then (heaps, None)
    else
      var (heaps', b) := AllocOn(heaps, h.nodeId - 1, RingSize(h));
      match b
      case None => (heaps', None)
      case Some(block) => (heaps', Some(BufferSegment(block.offset + CounterSize(h.bufferType), h.segmentSizes)))
  }

  /** Register's loop: rings are created and added one by one until one fails. */
  function CreateRings(heaps: seq<Heap>, h: BufferHandle, count: nat): (r: (seq<Heap>, BufferHandle, bool))
    requires h.nodeId > 0
    ensures |r.0| == |heaps| && r.1 == h.(entrySegments := r.1.entrySegments) && h.entrySegments <= r.1.entrySegments
    decreases count
  {
    if count == 0 then (heaps, h, true)
    else
      var (heaps', segment) := CreateRing(heaps, h);
      match segment
      case None => (heaps', h, false)
      case Some(seg) => CreateRings(heaps', h.(entrySegments := h.entrySegments + [seg]), count - 1)
  }

  /** registerBuffer and the ring loop; the join counter is reset even if the name was taken. */
  function DoRegister(s: Registry, name: string, handle: BufferHandle, numberAppenders: nat): (r: (Registry, Response))
    requires handle.nodeId > 0
  {
    if name in s.handles then (s.(joined := s.joined[name := 0]), Registered(false))
    else
      var (heaps, h, ok) := CreateRings(s.heaps, handle, numberAppenders);
      (Registry(heaps, s.handles[name := h], s.joined[name := 0]), Registered(ok))
  }

  /** A join gets the ring its number of predecessors points at. The source compares with == where this says >=: the
      count never exceeds the number of rings. */
  function DoJoin(s: Registry, name: string): (r: (Registry, Response)) {
    if name !in s.handles then (s, NotFound)
    else
      var h := s.handles[name];
      var n := if name in s.joined then s.joined[name] else 0;
      if n >= |h.entrySegments| then (s.(joined := s.joined[name := n]), JoinFailed)
      else (s.(joined := s.joined[name := n + 1]), Segments(h.(entrySegments := [h.entrySegments[n]])))
  }

  function Handle(s: Registry, req: Request): (r: (Registry, Response))
    requires WellFormed(req)
  {
    match req
    case Register(name, handle, numberAppenders) => DoRegister(s, name, handle, numberAppenders)
    case Join(name) => DoJoin(s, name)
    case Retrieve(name) => if name in s.handles then (s, Segments(s.handles[name])) else (s, NotFound)
    case Other(node, op) => (if MayDo(s, node, op) then s.(heaps := s.heaps[node := Do(s.heaps[node], op)]) else s, NoAnswer)
  }

  /** A ring of the buffer lies on the node in the block at that offset. */
  predicate RingAt(h: BufferHandle, node: nat, offset: nat) {
    h.nodeId == node + 1 && exists i :: 0 <= i < |h.entrySegments| && h.entrySegments[i].offset == offset + CounterSize(h.bufferType)
  }

  /** Others allocate what they like, and free what they have: no block of a ring. */
  predicate MayDo(s: Registry, node: nat, op: Op) {
    && node < |s.heaps| && Legal(s.heaps[node], op)
    && (op.Release? ==> forall name :: name in s.handles ==> !RingAt(s.handles[name], node, op.offset))
  }

  function Start(sizes: seq<nat>): (s: Registry) {
    Registry(seq(|sizes|, i requires 0 <= i < |sizes| => Fresh(sizes[i])), map[], map[])
  }

  function RunRequests(s: Registry, reqs: seq<Request>): (s': Registry)
    requires forall i :: 0 <= i < |reqs| ==> WellFormed(reqs[i])
  {
    if reqs == [] then s else Handle(RunRequests(s, reqs[..|reqs| - 1]), reqs[|reqs| - 1]).0
  }

  // ---------------------------------------------------------------- rings are allocated blocks

  /** The block that holds ring i of the buffer. */
  function RingBlock(h: BufferHandle, i: nat): (b: Block)
    requires i < |h.entrySegments| && h.entrySegments[i].offset >= CounterSize(h.bufferType)
  {
    Block(h.entrySegments[i].offset - CounterSize(h.bufferType), RingSize(h))
  }

  ghost predicate RingAllocated(heaps: seq<Heap>, h: BufferHandle, i: nat)
    requires i < |h.entrySegments|
  {
    && h.entrySegments[i].offset >= CounterSize(h.bufferType)
    && 0 < h.nodeId <= |heaps|
    && var b := RingBlock(h, i); b.offset in heaps[h.nodeId - 1].used && heaps[h.nodeId - 1].used[b.offset] == b
  }

  /** All rings of the buffer are allocated, in different blocks. */
  ghost predicate BufferInv(heaps: seq<Heap>, h: BufferHandle) {
    && h.nodeId > 0 && h.segmentsPerWriter > 0
    && (forall i :: 0 <= i < |h.entrySegments| ==> RingAllocated(heaps, h, i))
    && (forall i, j :: 0 <= i < j < |h.entrySegments| ==> h.entrySegments[i].offset != h.entrySegments[j].offset)
  }

  /** No ring of one buffer shares its block with a ring of the other. */
  ghost predicate BuffersApart(heaps: seq<Heap>, a: BufferHandle, b: BufferHandle) {
    a.nodeId == b.nodeId ==>
      forall i, j :: 0 <= i < |a.entrySegments| && 0 <= j < |b.entrySegments| &&
                     RingAllocated(heaps, a, i) && RingAllocated(heaps, b, j) ==>
                       RingBlock(a, i).offset != RingBlock(b, j).offset
  }

  ghost predicate HeapsInv(sizes: seq<nat>, heaps: seq<Heap>) {
    |heaps| == |sizes| && forall k :: 0 <= k < |heaps| ==> HeapInv(sizes[k], heaps[k])
  }

  ghost predicate RegistryInv(sizes: seq<nat>, s: Registry) {
    && HeapsInv(sizes, s.heaps)
    && (forall name :: name in s.handles ==> BufferInv(s.heaps, s.handles[name]))
    && (forall a, b :: a in s.handles && b in s.handles && a != b ==> BuffersApart(s.heaps, s.handles[a], s.handles[b]))
    && (forall name :: name in s.joined ==> s.joined[name] <= (if name in s.handles then |s.handles[name].entrySegments| else 0))
  }

  /** What a ring request does to the allocators: everything in use stays in use. */
  ghost predicate Grows(heaps: seq<Heap>, heaps': seq<Heap>) {
    && |heaps'| == |heaps|
    && forall k, o :: 0 <= k < |heaps| && o in heaps[k].used ==> o in heaps'[k].used && heaps'[k].used[o] == heaps[k].used[o]
  }

  lemma RingSizePositive(h: BufferHandle)
    requires h.segmentsPerWriter > 0
    ensures RingSize(h) > 0
  {
  }

  lemma AllocOnNodeInv(sizes: seq<nat>, heaps: seq<Heap>, k: nat, size: nat)
    requires HeapsInv(sizes, heaps) && k < |heaps| && size > 0
    ensures HeapsInv(sizes, AllocOn(heaps, k, size).0)
  {
    AllocInv(sizes[k], heaps[k], size);
    var heaps' := AllocOn(heaps, k, size).0;
    assert forall i :: 0 <= i < |heaps| ==> heaps'[i] == if i == k then Alloc(heaps[k], size).0 else heaps[i];
  }

  lemma AllocOnNodeUsed(total: nat, heaps: seq<Heap>, k: nat, size: nat)
    requires k < |heaps| && HeapInv(total, heaps[k]) && size > 0
    ensures var (heaps', b) := AllocOn(heaps, k, size);
            && Grows(heaps, heaps')
            && (b.Some? ==> b.value.size == size && b.value.offset !in heaps[k].used
                            && b.value.offset in heaps'[k].used && heaps'[k].used[b.value.offset] == b.value)
  {
    AllocUsed(total, heaps[k], size);
  }

  /** The ring's block was not in use before, and is now. */
  ghost predicate NewBlock(heaps: seq<Heap>, heaps': seq<Heap>, h: BufferHandle, segment: BufferSegment) {
    && 0 < h.nodeId <= |heaps| == |heaps'|
    && segment.offset >= CounterSize(h.bufferType)
    && var b := Block(segment.offset - CounterSize(h.bufferType), RingSize(h));
       && b.offset !in heaps[h.nodeId - 1].used
       && b.offset in heaps'[h.nodeId - 1].used && heaps'[h.nodeId - 1].used[b.offset] == b
  }

  lemma GrowsReflexive(heaps: seq<Heap>)
    ensures Grows(heaps, heaps)
  {
  }

  lemma CreateRingIs(heaps: seq<Heap>, h: BufferHandle)
    requires 0 < h.nodeId <= |heaps|
    ensures var ((heaps', segment), (heaps'', b)) := (CreateRing(heaps, h), AllocOn(heaps, h.nodeId - 1, RingSize(h)));
            && heaps' == heaps''
            && segment == (if b.None? then None else Some(BufferSegment(b.value.offset + CounterSize(h.bufferType), h.segmentSizes)))
  {
  }

  lemma CreateRingKeepsInv(sizes: seq<nat>, heaps: seq<Heap>, h: BufferHandle)
    requires HeapsInv(sizes, heaps) && h.nodeId > 0 && h.segmentsPerWriter > 0
    ensures HeapsInv(sizes, CreateRing(heaps, h).0)
  {
    if h.nodeId <= |heaps| {
      RingSizePositive(h);
      CreateRingIs(heaps, h);
      AllocOnNodeInv(sizes, heaps, h.nodeId - 1, RingSize(h));
    }
  }

  lemma CreateRingIsNew(sizes: seq<nat>, heaps: seq<Heap>, h: BufferHandle)
    requires HeapsInv(sizes, heaps) && h.nodeId > 0 && h.segmentsPerWriter > 0
    ensures var (heaps', segment) := CreateRing(heaps, h);
            Grows(heaps, heaps') && (segment.Some? ==> NewBlock(heaps, heaps', h, segment.value))
  {
    if h.nodeId <= |heaps| {
      RingSizePositive(h);
      CreateRingIs(heaps, h);
      AllocOnNodeUsed(sizes[h.nodeId - 1], heaps, h.nodeId - 1, RingSize(h));
    } else {
      GrowsReflexive(heaps);
    }
  }

  /** Allocated rings stay allocated. */
  lemma AllocatedStays(heaps: seq<Heap>, heaps': seq<Heap>, h: BufferHandle)
    requires BufferInv(heaps, h) && Grows(heaps, heaps')
    ensures BufferInv(heaps', h)
  {
    forall i | 0 <= i < |h.entrySegments|
      ensures RingAllocated(heaps', h, i)
    {
      assert RingAllocated(heaps, h, i);
    }
  }

  /** The rings created by one registration: all allocated, in blocks that were not in use before. */
  ghost predicate NewRings(heaps: seq<Heap>, heaps': seq<Heap>, h: BufferHandle, from: nat) {
    && BufferInv(heaps', h)
    && forall i :: from <= i < |h.entrySegments| ==>
         RingAllocated(heaps', h, i) && h.nodeId <= |heaps| && RingBlock(h, i).offset !in heaps[h.nodeId - 1].used
  }

  /** After rings have been created from heaps0 for one buffer. */
  ghost predicate RingsMade(sizes: seq<nat>, heaps0: seq<Heap>, heaps: seq<Heap>, h: BufferHandle) {
    HeapsInv(sizes, heaps) && Grows(heaps0, heaps) && NewRings(heaps0, heaps, h, 0)
  }

  lemma CreateRingsUnfolds(heaps: seq<Heap>, h: BufferHandle, count: nat)
    requires h.nodeId > 0 && count > 0
    ensures var (heaps', segment) := CreateRing(heaps, h);
            CreateRings(heaps, h, count) ==
              if segment.None? then (heaps', h, false)
              else CreateRings(heaps', h.(entrySegments := h.entrySegments + [segment.value]), count - 1)
  {
  }

  lemma RingMade(sizes: seq<nat>, heaps0: seq<Heap>, heaps: seq<Heap>, h: BufferHandle)
    requires RingsMade(sizes, heaps0, heaps, h)
    ensures var (heaps', segment) := CreateRing(heaps, h);
            RingsMade(sizes, heaps0, heaps', if segment.None? then h else h.(entrySegments := h.entrySegments + [segment.value]))
  {
    var (heaps', segment) := CreateRing(heaps, h);
    CreateRingKeepsInv(sizes, heaps, h);
    CreateRingIsNew(sizes, heaps, h);
    if segment.Some? {
      OneMoreRing(heaps0, heaps, heaps', h, segment.value);
    } else {
      NoMoreRing(heaps0, heaps, heaps', h);
    }
  }

  /** The result of CreateRings, with the rings it makes. */
  lemma {:induction false} CreateRingsResult(sizes: seq<nat>, heaps0: seq<Heap>, heaps: seq<Heap>, h: BufferHandle, count: nat)
    returns (r: (seq<Heap>, BufferHandle, bool))
    requires RingsMade(sizes, heaps0, heaps, h)
    ensures r == CreateRings(heaps, h, count)
    ensures RingsMade(sizes, heaps0, r.0, r.1)
    decreases count
  {
    if count == 0 {
      return (heaps, h, true);
    }
    var (heaps', segment) := CreateRing(heaps, h);
    RingMade(sizes, heaps0, heaps, h);
    CreateRingsUnfolds(heaps, h, count);
    if segment.None? {
      return (heaps', h, false);
    }
    r := CreateRingsResult(sizes, heaps0, heaps', h.(entrySegments := h.entrySegments + [segment.value]), count - 1);
  }

  lemma GrowsTransitive(a: seq<Heap>, b: seq<Heap>, c: seq<Heap>)
    requires Grows(a, b) && Grows(b, c)
    ensures Grows(a, c)
  {
    forall k, o | 0 <= k < |a| && o in a[k].used
      ensures o in c[k].used && c[k].used[o] == a[k].used[o]
    {
      assert o in b[k].used;
    }
  }

  lemma NoMoreRing(heaps0: seq<Heap>, heaps: seq<Heap>, heaps': seq<Heap>, h: BufferHandle)
    requires Grows(heaps0, heaps) && Grows(heaps, heaps') && NewRings(heaps0, heaps, h, 0)
    ensures Grows(heaps0, heaps') && NewRings(heaps0, heaps', h, 0)
  {
    GrowsTransitive(heaps0, heaps, heaps');
    AllocatedStays(heaps, heaps', h);
  }

  lemma OneMoreRing(heaps0: seq<Heap>, heaps: seq<Heap>, heaps': seq<Heap>, h: BufferHandle, segment: BufferSegment)
    requires Grows(heaps0, heaps) && Grows(heaps, heaps') && NewRings(heaps0, heaps, h, 0)
    requires NewBlock(heaps, heaps', h, segment)
    ensures Grows(heaps0, heaps')
    ensures NewRings(heaps0, heaps', h.(entrySegments := h.entrySegments + [segment]), 0)
  {
    GrowsTransitive(heaps0, heaps, heaps');
    var h' := h.(entrySegments := h.entrySegments + [segment]);
    forall i | 0 <= i < |h'.entrySegments|
      ensures RingAllocated(heaps', h', i) && RingBlock(h', i).offset !in heaps0[h.nodeId - 1].used
      ensures i < |h.entrySegments| ==> h'.entrySegments[i].offset != segment.offset
    {
      if i < |h.entrySegments| {
        assert RingAllocated(heaps, h, i);
        assert RingBlock(h', i) == RingBlock(h, i);
      }
    }
  }

  lemma RegisterInv(sizes: seq<nat>, s: Registry, name: string, handle: BufferHandle, numberAppenders: nat)
    requires RegistryInv(sizes, s) && name !in s.handles
    requires handle.entrySegments == [] && handle.nodeId > 0 && handle.segmentsPerWriter > 0
    ensures RegistryInv(sizes, DoRegister(s, name, handle, numberAppenders).0)
  {
    var s' := DoRegister(s, name, handle, numberAppenders).0;
    var made := CreateRingsResult(sizes, s.heaps, s.heaps, handle, numberAppenders);
    forall a | a in s.handles
      ensures BufferInv(s'.heaps, s.handles[a])
      ensures BuffersApart(s'.heaps, s.handles[a], s'.handles[name]) && BuffersApart(s'.heaps, s'.handles[name], s.handles[a])
    {
      AllocatedStays(s.heaps, s'.heaps, s.handles[a]);
      OldAndNewApart(s.heaps, s'.heaps, s.handles[a], s'.handles[name]);
    }
    forall a, b | a in s.handles && b in s.handles && a != b
      ensures BuffersApart(s'.heaps, s.handles[a], s.handles[b])
    {
      StillApart(s.heaps, s'.heaps, s.handles[a], s.handles[b]);
    }
  }

  lemma OldAndNewApart(heaps: seq<Heap>, heaps': seq<Heap>, a: BufferHandle, b: BufferHandle)
    requires BufferInv(heaps, a) && Grows(heaps, heaps') && NewRings(heaps, heaps', b, 0)
    ensures BuffersApart(heaps', a, b) && BuffersApart(heaps', b, a)
  {
    if a.nodeId == b.nodeId {
      forall i, j | 0 <= i < |a.entrySegments| && 0 <= j < |b.entrySegments|
        ensures RingAllocated(heaps', a, i) && RingAllocated(heaps', b, j) ==> RingBlock(a, i).offset != RingBlock(b, j).offset
      {
        assert RingAllocated(heaps, a, i);
      }
    }
  }

  lemma StillApart(heaps: seq<Heap>, heaps': seq<Heap>, a: BufferHandle, b: BufferHandle)
    requires BufferInv(heaps, a) && BufferInv(heaps, b) && Grows(heaps, heaps') && BuffersApart(heaps, a, b)
    ensures BuffersApart(heaps', a, b)
  {
    if a.nodeId == b.nodeId {
      forall i, j | 0 <= i < |a.entrySegments| && 0 <= j < |b.entrySegments|
        ensures RingAllocated(heaps', a, i) && RingAllocated(heaps', b, j) ==> RingBlock(a, i).offset != RingBlock(b, j).offset
      {
        assert RingAllocated(heaps, a, i) && RingAllocated(heaps, b, j);
      }
    }
  }

  /** A ring whose block is not the one freed stays where it is. */
  lemma RingStays(sizes: seq<nat>, s: Registry, node: nat, op: Op, a: string, i: nat)
    requires RegistryInv(sizes, s) && MayDo(s, node, op) && a in s.handles && i < |s.handles[a].entrySegments|
    ensures RingAllocated(s.heaps, s.handles[a], i)
    ensures RingAllocated(s.heaps[node := Do(s.heaps[node], op)], s.handles[a], i)
  {
    var h := s.handles[a];
    assert BufferInv(s.heaps, h);
    assert RingAllocated(s.heaps, h, i);
    if h.nodeId == node + 1 {
      var offset := RingBlock(h, i).offset;
      assert op == Release(offset) ==> RingAt(h, node, offset);
      BlockStays(sizes, s.heaps, node, op, offset);
    }
  }

  lemma BlockStays(sizes: seq<nat>, heaps: seq<Heap>, node: nat, op: Op, offset: nat)
    requires HeapsInv(sizes, heaps) && node < |heaps| && Legal(heaps[node], op)
    requires offset in heaps[node].used && op != Release(offset)
    ensures var used := Do(heaps[node], op).used; offset in used && used[offset] == heaps[node].used[offset]
  {
    assert HeapInv(sizes[node], heaps[node]);
    match op {
      case Allocate(size) => AllocExactly(sizes[node], heaps[node], size);
      case Release(freed) => FreeInv(sizes[node], heaps[node], freed);
    }
  }

  lemma OtherInv(sizes: seq<nat>, s: Registry, node: nat, op: Op)
    requires RegistryInv(sizes, s) && MayDo(s, node, op)
    ensures RegistryInv(sizes, s.(heaps := s.heaps[node := Do(s.heaps[node], op)]))
  {
    var heaps' := s.heaps[node := Do(s.heaps[node], op)];
    assert HeapInv(sizes[node], s.heaps[node]);
    assert HeapInv(sizes[node], heaps'[node]) by {
      match op {
        case Allocate(size) => AllocInv(sizes[node], s.heaps[node], size);
        case Release(offset) => FreeInv(sizes[node], s.heaps[node], offset);
      }
    }
    forall a | a in s.handles
      ensures BufferInv(heaps', s.handles[a])
    {
      assert BufferInv(s.heaps, s.handles[a]);
      forall i | 0 <= i < |s.handles[a].entrySegments|
        ensures RingAllocated(heaps', s.handles[a], i)
      {
        RingStays(sizes, s, node, op, a, i);
      }
    }
    forall a, b | a in s.handles && b in s.handles && a != b
      ensures BuffersApart(heaps', s.handles[a], s.handles[b])
    {
      OthersLeaveApart(sizes, s, node, op, a, b);
    }
  }

  lemma OthersLeaveApart(sizes: seq<nat>, s: Registry, node: nat, op: Op, a: string, b: string)
    requires RegistryInv(sizes, s) && MayDo(s, node, op) && a in s.handles && b in s.handles && a != b
    ensures BuffersApart(s.heaps[node := Do(s.heaps[node], op)], s.handles[a], s.handles[b])
  {
    var (x, y) := (s.handles[a], s.handles[b]);
    assert BuffersApart(s.heaps, x, y);
    if x.nodeId == y.nodeId {
      forall i, j | 0 <= i < |x.entrySegments| && 0 <= j < |y.entrySegments|
        ensures RingAllocated(s.heaps, x, i) && RingAllocated(s.heaps, y, j)
      {
        RingStays(sizes, s, node, op, a, i);
        RingStays(sizes, s, node, op, b, j);
      }
    }
  }

  lemma HandleInv(sizes: seq<nat>, s: Registry, req: Request)
    requires RegistryInv(sizes, s) && WellFormed(req)
    ensures RegistryInv(sizes, Handle(s, req).0)
  {
    if req.Register? && req.name !in s.handles {
      RegisterInv(sizes, s, req.name, req.handle, req.numberAppenders);
    } else if req.Other? && MayDo(s, req.node, req.op) {
      OtherInv(sizes, s, req.node, req.op);
    }
  }

  lemma {:induction false} RunInv(sizes: seq<nat>, reqs: seq<Request>)
    requires forall i :: 0 <= i < |sizes| ==> sizes[i] > 0
    requires forall i :: 0 <= i < |reqs| ==> WellFormed(reqs[i])
    ensures RegistryInv(sizes, RunRequests(Start(sizes), reqs))
  {
    if reqs == [] {
      forall k | 0 <= k < |sizes|
        ensures HeapInv(sizes[k], Start(sizes).heaps[k])
      {
        FreshInv(sizes[k]);
      }
    } else {
      RunInv(sizes, reqs[..|reqs| - 1]);
      HandleInv(sizes, RunRequests(Start(sizes), reqs[..|reqs| - 1]), reqs[|reqs| - 1]);
    }
  }

  // ---------------------------------------------------------------- what writers are promised

  /** Segment k of ring i of a buffer. */
  ghost predicate IsSegment(s: Registry, a: string, i: nat, k: nat) {
    a in s.handles && i < |s.handles[a].entrySegments| && k < s.handles[a].segmentsPerWriter
  }

  /** Its bytes. */
  function SegmentOf(s: Registry, a: string, i: nat, k: nat): (b: Block)
    requires IsSegment(s, a, i, k)
  {
    SegmentBlock(s.handles[a].entrySegments[i].offset, s.handles[a].segmentSizes + HEADER_SIZE, k)
  }

  /** Rings never share a byte: after any register, join and retrieve requests, whatever others allocate and free in between,
      different rings on a node, of one buffer or of two, have disjoint segments. */
  lemma RingsNeverShareAByte(sizes: seq<nat>, reqs: seq<Request>, a: string, i: nat, b: string, j: nat, k: nat, l: nat)
    requires forall i :: 0 <= i < |sizes| ==> sizes[i] > 0
    requires forall i :: 0 <= i < |reqs| ==> WellFormed(reqs[i])
    requires var s := RunRequests(Start(sizes), reqs);
             && IsSegment(s, a, i, k) && IsSegment(s, b, j, l)
             && s.handles[a].nodeId == s.handles[b].nodeId && (a, i) != (b, j)
    ensures var s := RunRequests(Start(sizes), reqs);
            var (x, y) := (SegmentOf(s, a, i, k), SegmentOf(s, b, j, l));
            x.End() <= y.offset || y.End() <= x.offset
  {
    RunInv(sizes, reqs);
    SegmentsApart(sizes, RunRequests(Start(sizes), reqs), a, i, b, j, k, l);
  }

  lemma SegmentsApart(sizes: seq<nat>, s: Registry, a: string, i: nat, b: string, j: nat, k: nat, l: nat)
    requires RegistryInv(sizes, s) && IsSegment(s, a, i, k) && IsSegment(s, b, j, l)
    requires s.handles[a].nodeId == s.handles[b].nodeId && (a, i) != (b, j)
    ensures var (x, y) := (SegmentOf(s, a, i, k), SegmentOf(s, b, j, l));
            x.End() <= y.offset || y.End() <= x.offset
  {
    BlocksApart(sizes, s, a, i, b, j);
    SegmentInRing(s.heaps, s.handles[a], i, k);
    SegmentInRing(s.heaps, s.handles[b], j, l);
  }

  lemma BlocksApart(sizes: seq<nat>, s: Registry, a: string, i: nat, b: string, j: nat)
    requires RegistryInv(sizes, s)
    requires a in s.handles && i < |s.handles[a].entrySegments| && b in s.handles && j < |s.handles[b].entrySegments|
    requires s.handles[a].nodeId == s.handles[b].nodeId && (a, i) != (b, j)
    ensures RingAllocated(s.heaps, s.handles[a], i) && RingAllocated(s.heaps, s.handles[b], j)
    ensures var (x, y) := (RingBlock(s.handles[a], i), RingBlock(s.handles[b], j)); x.End() <= y.offset || y.End() <= x.offset
  {
    var (x, y) := (s.handles[a], s.handles[b]);
    DifferentBlocks(sizes, s, a, i, b, j);
    NodeHeapInv(sizes, s.heaps, x.nodeId - 1);
    AllocatedApart(s.heaps, x, i, y, j);
  }

  /** Two rings are allocated in different blocks. */
  lemma DifferentBlocks(sizes: seq<nat>, s: Registry, a: string, i: nat, b: string, j: nat)
    requires RegistryInv(sizes, s)
    requires a in s.handles && i < |s.handles[a].entrySegments| && b in s.handles && j < |s.handles[b].entrySegments|
    requires s.handles[a].nodeId == s.handles[b].nodeId && (a, i) != (b, j)
    ensures RingAllocated(s.heaps, s.handles[a], i) && RingAllocated(s.heaps, s.handles[b], j)
    ensures RingBlock(s.handles[a], i).offset != RingBlock(s.handles[b], j).offset
  {
    var (x, y) := (s.handles[a], s.handles[b]);
    assert BufferInv(s.heaps, x) && BufferInv(s.heaps, y);
    if a == b {
      assert x.entrySegments[i].offset != x.entrySegments[j].offset;
    } else {
      assert BuffersApart(s.heaps, x, y);
    }
  }

  lemma NodeHeapInv(sizes: seq<nat>, heaps: seq<Heap>, k: nat)
    requires HeapsInv(sizes, heaps) && k < |heaps|
    ensures UsedDisjoint(heaps[k].used)
  {
    assert HeapInv(sizes[k], heaps[k]);
  }

  lemma AllocatedApart(heaps: seq<Heap>, x: BufferHandle, i: nat, y: BufferHandle, j: nat)
    requires i < |x.entrySegments| && j < |y.entrySegments| && x.nodeId == y.nodeId
    requires RingAllocated(heaps, x, i) && RingAllocated(heaps, y, j) && UsedDisjoint(heaps[x.nodeId - 1].used)
    requires RingBlock(x, i).offset != RingBlock(y, j).offset
    ensures RingBlock(x, i).End() <= RingBlock(y, j).offset || RingBlock(y, j).End() <= RingBlock(x, i).offset
  {
  }

  lemma SegmentInRing(heaps: seq<Heap>, h: BufferHandle, i: nat, k: nat)
    requires i < |h.entrySegments| && RingAllocated(heaps, h, i) && k < h.segmentsPerWriter
    ensures var (r, x) := (RingBlock(h, i), SegmentBlock(h.entrySegments[i].offset, h.segmentSizes + HEADER_SIZE, k));
            r.offset <= x.offset && x.End() <= r.End()
  {
    var (r, stride) := (RingBlock(h, i), h.segmentSizes + HEADER_SIZE);
    assert r.offset + CounterSize(h.bufferType) == h.entrySegments[i].offset;
    SegmentsAreApart(r, stride, h.segmentsPerWriter, h.bufferType);
    assert SegmentBlock(h.entrySegments[i].offset, stride, k).End() <= r.End();
  }

  function JoinedCount(s: Registry, name: string): (k: nat) {
    if name in s.joined then s.joined[name] else 0
  }

  /** The entry segments handed to the writers that join a buffer during the requests, in order. */
  function Handouts(s: Registry, name: string, reqs: seq<Request>): (r: seq<BufferSegment>)
    requires forall i :: 0 <= i < |reqs| ==> WellFormed(reqs[i])
  {
    if reqs == [] then []
    else
      var k := |reqs| - 1;
      var r := Handle(RunRequests(s, reqs[..k]), reqs[k]).1;
      Handouts(s, name, reqs[..k]) + (if reqs[k] == Join(name) && r.Segments? then r.handle.entrySegments else [])
  }

  /** One request that does not register the name: a join takes the next ring, anything else leaves the name alone. */
  lemma HandoutStep(s: Registry, name: string, req: Request)
    requires WellFormed(req) && !(req.Register? && req.name == name)
    requires name in s.handles && JoinedCount(s, name) <= |s.handles[name].entrySegments|
    ensures var (s', r) := Handle(s, req);
            var (rings, n) := (s.handles[name].entrySegments, JoinedCount(s, name));
            && name in s'.handles && s'.handles[name] == s.handles[name]
            && (req == Join(name) && r.Segments? <==> req == Join(name) && n < |rings|)
            && (req == Join(name) && n < |rings| ==> r.handle.entrySegments == [rings[n]] && JoinedCount(s', name) == n + 1)
            && (!(req == Join(name) && n < |rings|) ==> JoinedCount(s', name) == n)
  {
  }

  /** What a run of requests that do not register the name leaves of the buffer, and hands out. */
  ghost predicate InOrder(s: Registry, name: string, s': Registry, handouts: seq<BufferSegment>)
    requires name in s.handles
  {
    var rings := s.handles[name].entrySegments;
    && name in s'.handles && s'.handles[name] == s.handles[name]
    && JoinedCount(s, name) <= JoinedCount(s', name) <= |rings|
    && handouts == rings[JoinedCount(s, name)..JoinedCount(s', name)]
  }

  lemma InOrderStep(s: Registry, name: string, t: Registry, handouts: seq<BufferSegment>, req: Request)
    requires name in s.handles && InOrder(s, name, t, handouts)
    requires WellFormed(req) && !(req.Register? && req.name == name)
    ensures var (s', r) := Handle(t, req);
            InOrder(s, name, s', handouts + (if req == Join(name) && r.Segments? then r.handle.entrySegments else []))
  {
    HandoutStep(t, name, req);
  }

  /** Between register requests for a name, successive joins get the next rings in order, each ring once, and fail exactly
      when none is left; no more writers have joined than there are rings. */
  lemma JoinsHandOutInOrder(s: Registry, name: string, reqs: seq<Request>)
    requires forall i :: 0 <= i < |reqs| ==> WellFormed(reqs[i]) && !(reqs[i].Register? && reqs[i].name == name)
    requires name in s.handles && JoinedCount(s, name) <= |s.handles[name].entrySegments|
    ensures InOrder(s, name, RunRequests(s, reqs), Handouts(s, name, reqs))
    ensures var s' := RunRequests(s, reqs);
            DoJoin(s', name).1 == JoinFailed <==> JoinedCount(s', name) == |s.handles[name].entrySegments|
  {
    HandsOutInOrder(s, name, reqs);
  }

  lemma {:induction false} HandsOutInOrder(s: Registry, name: string, reqs: seq<Request>)
    requires forall i :: 0 <= i < |reqs| ==> WellFormed(reqs[i]) && !(reqs[i].Register? && reqs[i].name == name)
    requires name in s.handles && JoinedCount(s, name) <= |s.handles[name].entrySegments|
    ensures InOrder(s, name, RunRequests(s, reqs), Handouts(s, name, reqs))
  {
    if reqs != [] {
      var k := |reqs| - 1;
      HandsOutInOrder(s, name, reqs[..k]);
      InOrderStep(s, name, RunRequests(s, reqs[..k]), Handouts(s, name, reqs[..k]), reqs[k]);
    }
  }

  // ---------------------------------------------------------------- which rings are handed out twice

  /** No ring is in the list twice. */
  ghost predicate NoRepeat(handouts: seq<BufferSegment>) {
    forall i, j :: 0 <= i < j < |handouts| ==> handouts[i] != handouts[j]
  }

  /** How far the requests have come along register, join, register, join for the name: at 4 they have done all four in this
      order, with anything in between. */
  function Stage(start: nat, name: string, reqs: seq<Request>): (stage: nat) {
    if reqs == [] then start
    else
      var (stage, last) := (Stage(start, name, reqs[..|reqs| - 1]), reqs[|reqs| - 1]);
      if stage in {0, 2} && last.Register? && last.name == name then stage + 1
      else if stage in {1, 3} && last == Join(name) then stage + 1
      else stage
  }

  /** What has been handed out, stage by stage; `rings` are the buffer's. */
  ghost predicate HandedOut(stage: nat, rings: seq<BufferSegment>, count: nat, handouts: seq<BufferSegment>) {
    match stage
    case 0 => handouts == []
    case 1 => handouts == [] && count == 0
    case 2 => count <= |rings| && handouts == rings[..count] && (rings != [] ==> count > 0)
    case 3 => count == 0 && handouts <= rings && (rings != [] ==> handouts != [])
    case _ => if rings == [] then handouts == [] else !NoRepeat(handouts)
  }

  ghost predicate AtStage(stage: nat, name: string, s: Registry, handouts: seq<BufferSegment>) {
    && (stage == 0 <==> name !in s.handles)
    && (name in s.handles ==> JoinedCount(s, name) <= |s.handles[name].entrySegments|)
    && HandedOut(stage, if name in s.handles then s.handles[name].entrySegments else [], JoinedCount(s, name), handouts)
  }

  lemma RepeatStays(handouts: seq<BufferSegment>, more: seq<BufferSegment>)
    requires !NoRepeat(handouts)
    ensures !NoRepeat(handouts + more)
  {
    var i, j :| 0 <= i < j < |handouts| && handouts[i] == handouts[j];
    assert (handouts + more)[i] == (handouts + more)[j];
  }

  /** A join, with the ring it is handed. */
  lemma JoinStage(stage: nat, name: string, s: Registry, handouts: seq<BufferSegment>)
    requires AtStage(stage, name, s, handouts)
    ensures var (s', r) := DoJoin(s, name);
            AtStage(if stage in {1, 3} then stage + 1 else stage, name, s', handouts + if r.Segments? then r.handle.entrySegments else [])
  {
    assert handouts + [] == handouts;
    if name in s.handles {
      var (rings, n) := (s.handles[name].entrySegments, JoinedCount(s, name));
      if n < |rings| {
        assert rings[..n] + [rings[n]] == rings[..n + 1];
        if stage == 3 {
          assert (handouts + [rings[0]])[0] == (handouts + [rings[0]])[|handouts|];
        } else if stage > 3 {
          RepeatStays(handouts, [rings[n]]);
        }
      }
    }
  }

  /** A register of the name: the first makes the rings, any later one is refused and resets the count. */
  lemma RegisterStage(stage: nat, name: string, s: Registry, handle: BufferHandle, numberAppenders: nat, handouts: seq<BufferSegment>)
    requires AtStage(stage, name, s, handouts) && handle.nodeId > 0
    ensures AtStage(if stage in {0, 2} then stage + 1 else stage, name, DoRegister(s, name, handle, numberAppenders).0, handouts)
  {
  }

  /** A request that is neither changes nothing of the name. */
  lemma OtherStage(stage: nat, name: string, s: Registry, req: Request, handouts: seq<BufferSegment>)
    requires AtStage(stage, name, s, handouts) && WellFormed(req) && req != Join(name) && !(req.Register? && req.name == name)
    ensures AtStage(stage, name, Handle(s, req).0, handouts)
  {
  }

  lemma {:induction false} RunStage(start: nat, s: Registry, name: string, reqs: seq<Request>)
    requires forall i :: 0 <= i < |reqs| ==> WellFormed(reqs[i])
    requires AtStage(start, name, s, [])
    ensures AtStage(Stage(start, name, reqs), name, RunRequests(s, reqs), Handouts(s, name, reqs))
  {
    if reqs != [] {
      var (before, last) := (reqs[..|reqs| - 1], reqs[|reqs| - 1]);
      RunStage(start, s, name, before);
      var (stage, t, handouts) := (Stage(start, name, before), RunRequests(s, before), Handouts(s, name, before));
      if last == Join(name) {
        JoinStage(stage, name, t, handouts);
      } else {
        assert handouts + [] == handouts;
        if last.Register? && last.name == name {
          RegisterStage(stage, name, t, last.handle, last.numberAppenders, handouts);
        } else {
          OtherStage(stage, name, t, last, handouts);
        }
      }
    }
  }

  /** A registered name nobody has joined yet, with different rings: the handouts repeat a ring if and only if there is a ring and a join follows a
      register of the name that itself follows a join. */
  lemma HandedOutOnceFrom(s: Registry, name: string, reqs: seq<Request>)
    requires forall i :: 0 <= i < |reqs| ==> WellFormed(reqs[i])
    requires name in s.handles && JoinedCount(s, name) == 0 && NoRepeat(s.handles[name].entrySegments)
    ensures NoRepeat(Handouts(s, name, reqs)) <==> Stage(1, name, reqs) < 4 || s.handles[name].entrySegments == []
  {
    RunStage(1, s, name, reqs);
    RingsOfNameStay(s, name, reqs);
    StageBound(1, name, reqs);
  }

  lemma {:induction false} RingsOfNameStay(s: Registry, name: string, reqs: seq<Request>)
    requires forall i :: 0 <= i < |reqs| ==> WellFormed(reqs[i])
    requires name in s.handles
    ensures name in RunRequests(s, reqs).handles && RunRequests(s, reqs).handles[name] == s.handles[name]
  {
    if reqs != [] {
      RingsOfNameStay(s, name, reqs[..|reqs| - 1]);
    }
  }

  lemma {:induction false} StageBound(start: nat, name: string, reqs: seq<Request>)
    requires start <= 4
    ensures start <= Stage(start, name, reqs) <= 4
  {
    if reqs != [] {
      StageBound(start, name, reqs[..|reqs| - 1]);
    }
  }

  /** The rings of a buffer that has been registered are different ones. */
  lemma RingsDiffer(sizes: seq<nat>, s: Registry, name: string)
    requires RegistryInv(sizes, s) && name in s.handles
    ensures NoRepeat(s.handles[name].entrySegments)
  {
    assert BufferInv(s.heaps, s.handles[name]);
  }

  /** In every run from fresh nodes, a ring of the buffer is handed to two writers if and only if the buffer has a ring and the name is
      registered, joined, registered again and joined again, in this order with anything in between. */
  lemma HandedOutOnceExactly(sizes: seq<nat>, name: string, reqs: seq<Request>)
    requires forall i :: 0 <= i < |sizes| ==> sizes[i] > 0
    requires forall i :: 0 <= i < |reqs| ==> WellFormed(reqs[i])
    ensures var s := RunRequests(Start(sizes), reqs);
            NoRepeat(Handouts(Start(sizes), name, reqs)) <==>
              Stage(0, name, reqs) < 4 || (name in s.handles && s.handles[name].entrySegments == [])
  {
    RunStage(0, Start(sizes), name, reqs);
    RunInv(sizes, reqs);
    StageBound(0, name, reqs);
    var s := RunRequests(Start(sizes), reqs);
    if name in s.handles {
      RingsDiffer(sizes, s, name);
    }
  }

  /** With memory for a ring, a register makes one. */
  lemma FirstRingIsMade(heaps: seq<Heap>, h: BufferHandle, count: nat)
    requires 0 < h.nodeId <= |heaps| && count > 0 && Alloc(heaps[h.nodeId - 1], RingSize(h)).1.Some?
    ensures CreateRings(heaps, h, count).1.entrySegments != []
  {
    CreateRingsUnfolds(heaps, h, count);
  }

  lemma FreshNodeHasRoom(sizes: seq<nat>, h: BufferHandle)
    requires 0 < h.nodeId <= |sizes| && RingSize(h) <= sizes[h.nodeId - 1]
    ensures Alloc(Start(sizes).heaps[h.nodeId - 1], RingSize(h)).1.Some?
  {
    var free := Start(sizes).heaps[h.nodeId - 1].free;
    assert free == [Block(0, sizes[h.nodeId - 1])];
    assert FirstFit(free, RingSize(h), 0) == 0;
  }

  /** It happens: on fresh nodes with room for a ring, register, join, register and join hand the first ring to both writers. */
  lemma ReRegisteringHandsOutAgain(sizes: seq<nat>, name: string, handle: BufferHandle, numberAppenders: nat)
    requires forall i :: 0 <= i < |sizes| ==> sizes[i] > 0
    requires WellFormed(Register(name, handle, numberAppenders)) && numberAppenders > 0
    requires handle.nodeId <= |sizes| && RingSize(handle) <= sizes[handle.nodeId - 1]
    ensures var reqs := [Register(name, handle, numberAppenders), Join(name), Register(name, handle, numberAppenders), Join(name)];
            var handouts := Handouts(Start(sizes), name, reqs);
            |handouts| == 2 && handouts[0] == handouts[1]
  {
    var register := Register(name, handle, numberAppenders);
    var s := Start(sizes);
    FreshNodeHasRoom(sizes, handle);
    FirstRingIsMade(s.heaps, handle, numberAppenders);
    FourRequests(s, name, register);
  }

  /** One more request. */
  lemma OneMoreRequest(s: Registry, name: string, reqs: seq<Request>, req: Request)
    requires (forall i :: 0 <= i < |reqs| ==> WellFormed(reqs[i])) && WellFormed(req)
    ensures var (t, r) := (RunRequests(s, reqs), Handle(RunRequests(s, reqs), req).1);
            && RunRequests(s, reqs + [req]) == Handle(t, req).0
            && Handouts(s, name, reqs + [req]) ==
               Handouts(s, name, reqs) + if req == Join(name) && r.Segments? then r.handle.entrySegments else []
  {
    assert (reqs + [req])[..|reqs|] == reqs;
  }

  /** A register of the name and then a join: whatever went before, the join gets the first ring. */
  lemma RegisterAndJoin(s: Registry, name: string, reqs: seq<Request>, register: Request)
    requires (forall i :: 0 <= i < |reqs| ==> WellFormed(reqs[i])) && WellFormed(register) && register.Register? && register.name == name
    requires Handle(RunRequests(s, reqs), register).0.handles[name].entrySegments != []
    ensures var h := Handle(RunRequests(s, reqs), register).0.handles[name];
            var more := reqs + [register] + [Join(name)];
            && name in RunRequests(s, more).handles && RunRequests(s, more).handles[name] == h
            && Handouts(s, name, more) == Handouts(s, name, reqs) + [h.entrySegments[0]]
  {
    OneMoreRequest(s, name, reqs, register);
    OneMoreRequest(s, name, reqs + [register], Join(name));
  }

  /** Four requests, one after the other. */
  lemma FourRequests(s: Registry, name: string, register: Request)
    requires WellFormed(register) && register.Register? && register.name == name && name !in s.handles
    requires Handle(s, register).0.handles[name].entrySegments != []
    ensures var first := Handle(s, register).0.handles[name].entrySegments[0];
            Handouts(s, name, [register, Join(name), register, Join(name)]) == [first, first]
  {
    var two := [register, Join(name)];
    RegisterAndJoin(s, name, [], register);
    assert [] + [register] + [Join(name)] == two;
    RegisterAndJoin(s, name, two, register);
    assert two + [register] + [Join(name)] == [register, Join(name), register, Join(name)];
  }
}
