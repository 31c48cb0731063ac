/** What the registry answers: to a register request, by the room on the node; to join and retrieve, by the registration. */
module RegistryAnswers {
  import opened RdmaMemory
  import opened Registry

  // ---------------------------------------------------------------- how many rings a free list has room for

  /** How many blocks of the size fit into that many bytes. */
  function Fitting(bytes: nat, size: nat): (k: nat)
    requires size > 0
  {
    if bytes < size then 0 else 1 + Fitting(bytes - size, size)
  }

  /** How many fit into the free blocks. */
  function Room(free: seq<Block>, size: nat): (k: nat)
    requires size > 0
  {
    if free == [] then 0 else Fitting(free[0].size, size) + Room(free[1..], size)
  }

  lemma {:induction false} RoomConcat(a: seq<Block>, b: seq<Block>, size: nat)
    requires size > 0
    ensures Room(a + b, size) == Room(a, size) + Room(b, size)
  {
    if a == [] {
      assert a + b == b;
    } else {
      assert (a + b)[1..] == a[1..] + b;
      RoomConcat(a[1..], b, size);
    }
  }

  lemma RoomAt(free: seq<Block>, k: nat, size: nat)
    requires size > 0 && k < |free|
    ensures Room(free, size) == Room(free[..k], size) + Fitting(free[k].size, size) + Room(free[k + 1..], size)
  {
    assert free == free[..k] + free[k..];
    RoomConcat(free[..k], free[k..], size);
    assert free[k..][1..] == free[k + 1..];
  }

  lemma RoomWithoutFront(free: seq<Block>, k: nat, size: nat)
    requires size > 0 && k < |free| && free[k].size >= size
    ensures Room(free, size) == Room(WithoutFront(free, k, size), size) + 1
  {
    var rest := if free[k].size > size then [Block(free[k].offset + size, free[k].size - size)] else [];
    RoomAt(free, k, size);
    RoomConcat(free[..k], rest, size);
    RoomConcat(free[..k] + rest, free[k + 1..], size);
    if rest != [] {
      assert rest[1..] == [];
    }
  }

  lemma {:induction false} NoRoom(free: seq<Block>, size: nat)
    requires size > 0 && forall j :: 0 <= j < |free| ==> free[j].size < size
    ensures Room(free, size) == 0
  {
    if free != [] {
      NoRoom(free[1..], size);
    }
  }

  /** An allocation succeeds exactly if there is room, and takes the room of one. */
  lemma AllocTakesRoom(h: Heap, size: nat)
    requires size > 0
    ensures var (h', b) := Alloc(h, size);
            && (b.Some? <==> Room(h.free, size) > 0)
            && Room(h'.free, size) == Room(h.free, size) - if b.Some? then 1 else 0
  {
    var k := FirstFit(h.free, size, 0);
    FirstFitIsFirst(h.free, size, 0);
    if k < |h.free| {
      RoomWithoutFront(h.free, k, size);
    } else {
      NoRoom(h.free, size);
    }
  }

  /** Rings the buffer's node has room for; none if it is unknown. */
  function RoomOnNode(heaps: seq<Heap>, h: BufferHandle): (k: nat)
    requires h.nodeId > 0 && h.segmentsPerWriter > 0
  {
    if h.nodeId > |heaps| then 0 else Room(heaps[h.nodeId - 1].free, RingSize(h))
  }

  // ---------------------------------------------------------------- register

  lemma RingTakesRoom(heaps: seq<Heap>, h: BufferHandle)
    requires h.nodeId > 0 && h.segmentsPerWriter > 0
    ensures var (heaps', segment) := CreateRing(heaps, h);
            && (segment.Some? <==> RoomOnNode(heaps, h) > 0)
            && (segment.Some? ==> segment.value.size == h.segmentSizes)
            && RoomOnNode(heaps', h) == RoomOnNode(heaps, h) - if segment.Some? then 1 else 0
  {
    RingSizePositive(h);
    if h.nodeId <= |heaps| {
      CreateRingIs(heaps, h);
      AllocTakesRoom(heaps[h.nodeId - 1], RingSize(h));
    }
  }

  /** The buffer with more rings, of its own segment size. */
  predicate MoreRings(h: BufferHandle, h': BufferHandle) {
    && h' == h.(entrySegments := h'.entrySegments)
    && h.entrySegments <= h'.entrySegments
    && forall i :: |h.entrySegments| <= i < |h'.entrySegments| ==> h'.entrySegments[i].size == h.segmentSizes
  }

  /** The loop makes as many rings as asked for, or as there is room for. */
  lemma {:induction false} RingsMadeExactly(heaps: seq<Heap>, h: BufferHandle, count: nat)
    requires h.nodeId > 0 && h.segmentsPerWriter > 0
    ensures var (heaps', h', ok) := CreateRings(heaps, h, count);
            && MoreRings(h, h')
            && |h'.entrySegments| == |h.entrySegments| + (if count <= RoomOnNode(heaps, h) then count else RoomOnNode(heaps, h))
            && (ok <==> count <= RoomOnNode(heaps, h))
    decreases count
  {
    if count > 0 {
      var (heaps', segment) := CreateRing(heaps, h);
      CreateRingsUnfolds(heaps, h, count);
      RingTakesRoom(heaps, h);
      if segment.Some? {
        var h' := h.(entrySegments := h.entrySegments + [segment.value]);
        assert RoomOnNode(heaps', h') == RoomOnNode(heaps', h);
        RingsMadeExactly(heaps', h', count - 1);
      }
    }
  }

  /** Register answers true if and only if the name is new and every ring asked for was made, which is so exactly if the node is
      known and its free blocks have room for all of them; otherwise as many as there is room for are made. The
      handle stored is the request's with these rings. For a taken name only the join counter changes. */
  lemma RegisterAnswersExactly(s: Registry, name: string, handle: BufferHandle, numberAppenders: nat)
    requires WellFormed(Register(name, handle, numberAppenders))
    ensures var (s', r) := Handle(s, Register(name, handle, numberAppenders));
            var room := RoomOnNode(s.heaps, handle);
            && s'.joined == s.joined[name := 0]
            && (r == Registered(true) <==> name !in s.handles && numberAppenders <= room)
            && (r == Registered(false) <==> name in s.handles || numberAppenders > room)
            && (name in s.handles ==> s'.handles == s.handles && s'.heaps == s.heaps)
            && (name !in s.handles ==>
                  && s'.handles.Keys == s.handles.Keys + {name}
                  && (forall other :: other in s.handles ==> s'.handles[other] == s.handles[other])
                  && MoreRings(handle, s'.handles[name])
                  && |s'.handles[name].entrySegments| == if numberAppenders <= room then numberAppenders else room)
  {
    if name !in s.handles {
      RingsMadeExactly(s.heaps, handle, numberAppenders);
    }
  }

  /** If rings are missing afterwards, no free block of the node is as large as a ring, or the node is unknown. */
  lemma RegisterStopsShort(s: Registry, name: string, handle: BufferHandle, numberAppenders: nat)
    requires WellFormed(Register(name, handle, numberAppenders)) && name !in s.handles
    requires |Handle(s, Register(name, handle, numberAppenders)).0.handles[name].entrySegments| < numberAppenders
    ensures var s' := Handle(s, Register(name, handle, numberAppenders)).0;
            || handle.nodeId > |s'.heaps|
            || var free := s'.heaps[handle.nodeId - 1].free; forall j :: 0 <= j < |free| ==> free[j].size < RingSize(handle)
  {
    RegisterAnswersExactly(s, name, handle, numberAppenders);
    var s' := Handle(s, Register(name, handle, numberAppenders)).0;
    RoomUsedUp(s.heaps, handle, numberAppenders);
    if handle.nodeId <= |s'.heaps| {
      NoRoomMeansSmall(s'.heaps[handle.nodeId - 1].free, RingSize(handle));
    }
  }

  /** The rings made have taken their room. */
  lemma {:induction false} RoomUsedUp(heaps: seq<Heap>, h: BufferHandle, count: nat)
    requires h.nodeId > 0 && h.segmentsPerWriter > 0
    ensures var room := RoomOnNode(heaps, h);
            RoomOnNode(CreateRings(heaps, h, count).0, h) == if count <= room then room - count else 0
    decreases count
  {
    if count > 0 {
      var (heaps', segment) := CreateRing(heaps, h);
      CreateRingsUnfolds(heaps, h, count);
      RingTakesRoom(heaps, h);
      if segment.Some? {
        var h' := h.(entrySegments := h.entrySegments + [segment.value]);
        assert forall hs: seq<Heap> :: RoomOnNode(hs, h') == RoomOnNode(hs, h);
        RoomUsedUp(heaps', h', count - 1);
      }
    }
  }

  lemma {:induction false} NoRoomMeansSmall(free: seq<Block>, size: nat)
    requires size > 0 && Room(free, size) == 0
    ensures forall j :: 0 <= j < |free| ==> free[j].size < size
  {
    if free != [] {
      NoRoomMeansSmall(free[1..], size);
      assert forall j :: 1 <= j < |free| ==> free[j] == free[1..][j - 1];
    }
  }

  /** A fresh node has room for as many rings as fit into its memory. */
  lemma FreshRoom(sizes: seq<nat>, h: BufferHandle)
    requires 0 < h.nodeId <= |sizes| && h.segmentsPerWriter > 0
    ensures var room := RoomOnNode(Start(sizes).heaps, h);
            room * RingSize(h) <= sizes[h.nodeId - 1] < (room + 1) * RingSize(h)
  {
    var (free, size) := (Start(sizes).heaps[h.nodeId - 1].free, sizes[h.nodeId - 1]);
    assert free == [Block(0, size)] && Room(free[1..], RingSize(h)) == 0;
    FittingIs(size, RingSize(h));
  }

  lemma {:induction false} FittingIs(bytes: nat, size: nat)
    requires size > 0
    ensures Fitting(bytes, size) * size <= bytes < (Fitting(bytes, size) + 1) * size
  {
    if bytes >= size {
      FittingIs(bytes - size, size);
    }
  }

  // ---------------------------------------------------------------- join and retrieve

  /** What every answer about a buffer says of it, whatever rings it lists. */
  predicate Describes(answer: BufferHandle, handle: BufferHandle) {
    && answer.nodeId == handle.nodeId
    && answer.segmentsPerWriter == handle.segmentsPerWriter
    && answer.segmentSizes == handle.segmentSizes
    && answer.bufferType == handle.bufferType
    && forall i :: 0 <= i < |answer.entrySegments| ==> answer.entrySegments[i].size == handle.segmentSizes
  }

  /** After a registration that made the buffer, and any further requests, retrieve answers with node, sizes and kind as registered
      and all rings that were made; join with the same and one of them, the first not handed out since the last register of the name, or
      that none is left. */
  lemma AnswersMatchRegistration(s: Registry, name: string, handle: BufferHandle, numberAppenders: nat, reqs: seq<Request>)
    requires name !in s.handles
    requires WellFormed(Register(name, handle, numberAppenders)) && forall i :: 0 <= i < |reqs| ==> WellFormed(reqs[i])
    ensures var made := Handle(s, Register(name, handle, numberAppenders)).0;
            var t := RunRequests(made, reqs);
            var rings := made.handles[name].entrySegments;
            var (retrieved, joined) := (Handle(t, Retrieve(name)).1, Handle(t, Join(name)).1);
            && retrieved.Segments? && Describes(retrieved.handle, handle) && retrieved.handle.entrySegments == rings
            && match joined
               case Segments(h) => Describes(h, handle) && JoinedCount(t, name) < |rings| && h.entrySegments == [rings[JoinedCount(t, name)]]
               case JoinFailed => JoinedCount(t, name) == |rings|
               case _ => false
  {
    RegisterAnswersExactly(s, name, handle, numberAppenders);
    var made := Handle(s, Register(name, handle, numberAppenders)).0;
    RingsOfNameStay(made, name, reqs);
    CountStays(made, name, reqs);
  }

  /** Retrieve changes nothing; join changes nothing but the count of the buffer's own writers. */
  lemma AnswersChangeOnlyTheCount(s: Registry, name: string)
    ensures Handle(s, Retrieve(name)).0 == s
    ensures var s' := Handle(s, Join(name)).0;
            && s'.heaps == s.heaps && s'.handles == s.handles
            && forall other :: other != name ==> JoinedCount(s', other) == JoinedCount(s, other)
  {
  }

  /** No more writers have joined than there are rings. */
  lemma {:induction false} CountStays(s: Registry, name: string, reqs: seq<Request>)
    requires forall i :: 0 <= i < |reqs| ==> WellFormed(reqs[i])
    requires name in s.handles && JoinedCount(s, name) <= |s.handles[name].entrySegments|
    ensures var t := RunRequests(s, reqs); name in t.handles && JoinedCount(t, name) <= |t.handles[name].entrySegments|
  {
    if reqs != [] {
      var k := |reqs| - 1;
      CountStays(s, name, reqs[..k]);
      CountStaysStep(RunRequests(s, reqs[..k]), name, reqs[k]);
    }
  }

  lemma CountStaysStep(s: Registry, name: string, req: Request)
    requires WellFormed(req) && name in s.handles && JoinedCount(s, name) <= |s.handles[name].entrySegments|
    ensures var t := Handle(s, req).0; name in t.handles && JoinedCount(t, name) <= |t.handles[name].entrySegments|
  {
  }

  /** From fresh nodes, a join or a retrieve finds no buffer of the name if and only if the name has not been registered. */
  lemma {:induction false} FoundIffRegistered(sizes: seq<nat>, name: string, reqs: seq<Request>)
    requires forall i :: 0 <= i < |reqs| ==> WellFormed(reqs[i])
    ensures var s := RunRequests(Start(sizes), reqs);
            var registered := exists i :: 0 <= i < |reqs| && reqs[i].Register? && reqs[i].name == name;
            && (name in s.handles <==> registered)
            && (Handle(s, Retrieve(name)).1 == NotFound <==> !registered)
            && (Handle(s, Join(name)).1 == NotFound <==> !registered)
  {
    if reqs != [] {
      var (before, last) := (reqs[..|reqs| - 1], reqs[|reqs| - 1]);
      FoundIffRegistered(sizes, name, before);
      NamesAfter(RunRequests(Start(sizes), before), name, last);
      assert forall i :: 0 <= i < |before| ==> before[i] == reqs[i];
    }
  }

  lemma NamesAfter(s: Registry, name: string, req: Request)
    requires WellFormed(req)
    ensures name in Handle(s, req).0.handles <==> name in s.handles || (req.Register? && req.name == name)
  {
  }
}
