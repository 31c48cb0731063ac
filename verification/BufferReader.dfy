/**
 BufferReader::read: walk every ring of a buffer from its entry segment to the end mark and copy headers and payload, as they
 lie in the node's memory, into one local buffer. On rings that writers have closed and no iterator has touched it returns
 what was written.
 */
module BufferReader {
  import opened Util
  import opened SegmentHeader
  import opened RingLayout
  import RingStart
  import Bw = BwProtocol
  import BwInv = BwInvariant
  import BwTh = BwTheorems
  import Lat = LatProtocol
  import LatInv = LatInvariant
  import LatPr = LatProgress
  import LatTh = LatTheorems

  /** A ring as the buffer's handle describes it: the byte offset of the entry segment, payload bytes a segment, segments. */
  datatype Place = Place(entry: nat, size: nat, n: nat)

  // ---------------------------------------------------------------- closed rings

  /** From the segment at byte offset `at` the links lead through the given segments, in order, the last marked as the end. */
  ghost predicate Chain(memory: Memory, size: nat, at: nat, segs: seq<Segment>)
    decreases |segs|
  {
    && segs != []
    && HeaderAt(memory, at) == segs[0].h
    && segs[0].h.counter == |segs[0].data| <= size
    && Slice(memory, at + HEADER_SIZE, |segs[0].data|) == segs[0].data
    && (if |segs| == 1 then segs[0].h.end else !segs[0].h.end && Chain(memory, size, segs[0].h.next, segs[1..]))
  }

  /** A closed ring that nobody has consumed from; it holds the segments. */
  ghost predicate ClosedRing(memory: Memory, place: Place, segs: seq<Segment>) {
    |segs| <= place.n && Chain(memory, place.size, place.entry, segs)
  }

  function Payloads(segs: seq<Segment>): (pieces: seq<seq<byte>>) {
    seq(|segs|, i requires 0 <= i < |segs| => segs[i].data)
  }

  /** The first k segments from byte offset `at` along the links, as they lie in memory: with the header in front, or the payload
      alone. */
  function ChainBytes(memory: Memory, at: nat, k: nat, withHeader: bool): (bytes: seq<byte>)
    decreases k
  {
    if k == 0 then []
    else
      var h := HeaderAt(memory, at);
      (if withHeader then Slice(memory, at, HEADER_SIZE + h.counter) else Slice(memory, at + HEADER_SIZE, h.counter)) +
      ChainBytes(memory, h.next, k - 1, withHeader)
  }

  lemma {:induction false} ChainIsStream(memory: Memory, size: nat, at: nat, segs: seq<Segment>)
    requires Chain(memory, size, at, segs)
    ensures ChainBytes(memory, at, |segs|, false) == Flatten(Payloads(segs))
    decreases |segs|
  {
    var h := segs[0].h;
    assert Payloads(segs) == [segs[0].data] + Payloads(segs[1..]);
    FlattenCons(segs[0].data, Payloads(segs[1..]));
    if |segs| > 1 {
      ChainIsStream(memory, size, h.next, segs[1..]);
    }
  }

  /** All rings of a buffer, closed and unconsumed. */
  ghost predicate ClosedRings(memory: Memory, places: seq<Place>, rings: seq<seq<Segment>>) {
    |places| == |rings| && forall r :: 0 <= r < |rings| ==> ClosedRing(memory, places[r], rings[r])
  }

  /** The first k rings, one behind the other. */
  ghost function RingsBytes(memory: Memory, places: seq<Place>, rings: seq<seq<Segment>>, k: nat, withHeader: bool): (bytes: seq<byte>)
    requires k <= |rings| == |places|
  {
    if k == 0 then []
    else RingsBytes(memory, places, rings, k - 1, withHeader) + ChainBytes(memory, places[k - 1].entry, |rings[k - 1]|, withHeader)
  }

  // ---------------------------------------------------------------- sizes

  function PerSegment(place: Place, withHeader: bool): (k: nat) {
    place.size + (if withHeader then HEADER_SIZE else 0)
  }

  /** dataSize, for the first k rings. */
  function Capacity(places: seq<Place>, k: nat, withHeader: bool): (k': nat)
    requires k <= |places|
  {
    if k == 0 then 0 else SegmentOffset(Capacity(places, k - 1, withHeader), PerSegment(places[k - 1], withHeader), places[k - 1].n)
  }

  /** Every segment of the ring is full. */
  predicate Full(place: Place, segs: seq<Segment>) {
    |segs| == place.n && forall i :: 0 <= i < |segs| ==> |segs[i].data| == place.size
  }

  lemma {:induction false} ChainFits(memory: Memory, place: Place, at: nat, segs: seq<Segment>, withHeader: bool)
    requires Chain(memory, place.size, at, segs)
    ensures |ChainBytes(memory, at, |segs|, withHeader)| <= SegmentOffset(0, PerSegment(place, withHeader), |segs|)
    ensures (forall i :: 0 <= i < |segs| ==> |segs[i].data| == place.size) ==>
              |ChainBytes(memory, at, |segs|, withHeader)| == SegmentOffset(0, PerSegment(place, withHeader), |segs|)
    decreases |segs|
  {
    if |segs| > 1 {
      ChainFits(memory, place, segs[0].h.next, segs[1..], withHeader);
      assert forall i :: 0 <= i < |segs[1..]| ==> segs[1..][i] == segs[i + 1];
    }
  }

  lemma OffsetMonotone(base: nat, stride: nat, i: nat, j: nat)
    requires i <= j
    ensures SegmentOffset(base, stride, i) <= SegmentOffset(base, stride, j)
  {
    if i < j {
      OffsetsIncrease(base, stride, i, j);
    }
  }

  /** The buffer has room for whatever the rings hold, and no more than full rings take. */
  lemma {:induction false} RingsFit(memory: Memory, places: seq<Place>, rings: seq<seq<Segment>>, k: nat, withHeader: bool)
    requires ClosedRings(memory, places, rings) && k <= |rings|
    ensures |RingsBytes(memory, places, rings, k, withHeader)| <= Capacity(places, k, withHeader)
    ensures (forall r :: 0 <= r < k ==> Full(places[r], rings[r])) ==>
              |RingsBytes(memory, places, rings, k, withHeader)| == Capacity(places, k, withHeader)
  {
    if k > 0 {
      var place := places[k - 1];
      RingsFit(memory, places, rings, k - 1, withHeader);
      ChainFits(memory, place, place.entry, rings[k - 1], withHeader);
      OffsetMonotone(0, PerSegment(place, withHeader), |rings[k - 1]|, place.n);
      OffsetShift(Capacity(places, k - 1, withHeader), 0, PerSegment(place, withHeader), place.n);
    }
  }

  lemma {:induction false} CapacityMonotone(places: seq<Place>, j: nat, k: nat, withHeader: bool)
    requires j <= k <= |places|
    ensures Capacity(places, j, withHeader) <= Capacity(places, k, withHeader)
  {
    if j < k {
      CapacityMonotone(places, j, k - 1, withHeader);
      OffsetShift(Capacity(places, k - 1, withHeader), 0, PerSegment(places[k - 1], withHeader), places[k - 1].n);
    }
  }

  /** Behind the first r rings there is room for the next. */
  lemma RingFits(memory: Memory, places: seq<Place>, rings: seq<seq<Segment>>, r: nat, withHeader: bool)
    requires ClosedRings(memory, places, rings) && r < |rings|
    ensures var next := ChainBytes(memory, places[r].entry, |rings[r]|, withHeader);
            && RingsBytes(memory, places, rings, r + 1, withHeader) == RingsBytes(memory, places, rings, r, withHeader) + next
            && |RingsBytes(memory, places, rings, r, withHeader)| + |next| <= Capacity(places, |places|, withHeader)
  {
    RingsFit(memory, places, rings, r + 1, withHeader);
    CapacityMonotone(places, r + 1, |places|, withHeader);
  }

  // ---------------------------------------------------------------- the reader

  lemma Regroup<T>(copied: seq<T>, bytes: seq<T>, rest: seq<T>)
    ensures copied + (bytes + rest) == (copied + bytes) + rest
  {
  }

  class Reader {
    const memory: Memory      // the node's memory, behind remote reads
    var places: seq<Place>    // the entry segments of the handle the registry returned

    constructor (memory: Memory, places: seq<Place>)
      ensures this.memory == memory && this.places == places
    {
      this.memory := memory;
      this.places := places;
    }

    /** One remote read into the local buffer. */
    method ReadTo(data: array<byte>, offset: nat, at: nat, length: nat)
      requires offset + length <= data.Length
      modifies data
      ensures data[..offset + length] == old(data[..offset]) + Slice(memory, at, length)
    {
      ghost var bytes := Slice(memory, at, length);
      for i := 0 to length
        invariant data[..offset + i] == old(data[..offset]) + bytes[..i]
      {
        data[offset + i] := At(memory, at + i);
      }
    }

    /** Reads every ring of the buffer; null if there is none. On closed, unconsumed rings it terminates, never writes past
        the buffer it allocated, and returns the bytes of all rings in ring order, as they lie in memory. */
    method Read(withHeader: bool, ghost rings: seq<seq<Segment>>) returns (data: array?<byte>, sizeRead: nat)
      requires ClosedRings(memory, places, rings)
      ensures places == [] ==> data == null
      ensures places != [] ==>
                && data != null && fresh(data) && data.Length == Capacity(places, |places|, withHeader)
                && sizeRead <= data.Length
                && data[..sizeRead] == RingsBytes(memory, places, rings, |rings|, withHeader)
    {
      sizeRead := 0;
      if places == [] {
        return null, 0;
      }
      var dataSize := DataSize(withHeader);
      var buffer := new byte[dataSize](_ => 0);
      var writeoffset: nat := 0;
      for r := 0 to |places|
        invariant writeoffset <= buffer.Length && buffer[..writeoffset] == RingsBytes(memory, places, rings, r, withHeader)
      {
        writeoffset := ReadNext(r, withHeader, buffer, writeoffset, rings);
      }
      data, sizeRead := buffer, writeoffset;
    }

    method DataSize(withHeader: bool) returns (dataSize: nat)
      ensures dataSize == Capacity(places, |places|, withHeader)
    {
      dataSize := 0;
      for r := 0 to |places|
        invariant dataSize == Capacity(places, r, withHeader)
      {
        OffsetIs(dataSize, PerSegment(places[r], withHeader), places[r].n);
        dataSize := dataSize + places[r].n * PerSegment(places[r], withHeader);
      }
    }

    /** One turn of the outer loop: the ring behind the first r. */
    method ReadNext(r: nat, withHeader: bool, data: array<byte>, offset: nat, ghost rings: seq<seq<Segment>>) returns (writeoffset: nat)
      requires ClosedRings(memory, places, rings) && r < |places| && data.Length == Capacity(places, |places|, withHeader)
      requires offset <= data.Length && data[..offset] == RingsBytes(memory, places, rings, r, withHeader)
      modifies data
      ensures writeoffset <= data.Length && data[..writeoffset] == RingsBytes(memory, places, rings, r + 1, withHeader)
    {
      RingFits(memory, places, rings, r, withHeader);
      writeoffset := ReadRing(places[r], withHeader, data, offset, rings[r]);
    }

    /** One turn of the inner loop: the segment at byte offset `at`, header and payload. */
    method ReadSegment(size: nat, at: nat, withHeader: bool, data: array<byte>, offset: nat, ghost left: seq<Segment>)
      returns (next: nat, end: bool, writeoffset: nat)
      requires Chain(memory, size, at, left) && offset + |ChainBytes(memory, at, |left|, withHeader)| <= data.Length
      modifies data
      ensures end <==> |left| == 1
      ensures !end ==> Chain(memory, size, next, left[1..])
      ensures writeoffset + |ChainBytes(memory, next, |left| - 1, withHeader)| <= data.Length
      ensures data[..writeoffset] + ChainBytes(memory, next, |left| - 1, withHeader) ==
              old(data[..offset]) + ChainBytes(memory, at, |left|, withHeader)
    {
      var header := HeaderAt(memory, at);
      ghost var copied := data[..offset];
      ghost var rest := ChainBytes(memory, header.next, |left| - 1, withHeader);
      if !withHeader {
        Regroup(copied, Slice(memory, at + HEADER_SIZE, header.counter), rest);
        ReadTo(data, offset, at + HEADER_SIZE, header.counter);
        writeoffset := offset + header.counter;
      } else {
        Regroup(copied, Slice(memory, at, HEADER_SIZE + header.counter), rest);
        ReadTo(data, offset, at, header.counter + HEADER_SIZE);
        writeoffset := offset + header.counter + HEADER_SIZE;
      }
      next, end := header.next, header.end;
    }

    /** The inner loop: from the entry segment along the links up to the end mark. */
    method ReadRing(place: Place, withHeader: bool, data: array<byte>, start: nat, ghost segs: seq<Segment>) returns (writeoffset: nat)
      requires ClosedRing(memory, place, segs)
      requires start + |ChainBytes(memory, place.entry, |segs|, withHeader)| <= data.Length
      modifies data
      ensures writeoffset == start + |ChainBytes(memory, place.entry, |segs|, withHeader)|
      ensures data[..writeoffset] == old(data[..start]) + ChainBytes(memory, place.entry, |segs|, withHeader)
    {
      var current := place.entry;
      writeoffset := start;
      ghost var left := segs;
      ghost var bytesLeft := ChainBytes(memory, current, |left|, withHeader);
      ghost var whole := data[..start] + bytesLeft;
      var end := false;
      while !end
        invariant bytesLeft == ChainBytes(memory, current, |left|, withHeader)
        invariant writeoffset + |bytesLeft| <= data.Length && data[..writeoffset] + bytesLeft == whole
        invariant if end then left == [] else Chain(memory, place.size, current, left)
        decreases |left|
      {
        current, end, writeoffset := ReadSegment(place.size, current, withHeader, data, writeoffset, left);
        left := left[1..];
        bytesLeft := ChainBytes(memory, current, |left|, withHeader);
      }
    }
  }

  // ---------------------------------------------------------------- the reader inverts the writers

  /** The segments of a closed ring as they lie in memory, piece by piece: the counter is the piece's length, the link the next segment's
      byte offset, consumable, the last one with the end mark; writeable only what a latency writer has sent and not stamped. */
  function ClosedSegments(place: Place, pieces: seq<seq<byte>>, latency: bool): (segs: seq<Segment>) {
    seq(|pieces|, i requires 0 <= i < |pieces| => ClosedSegment(place, pieces, latency, i))
  }

  function ClosedSegment(place: Place, pieces: seq<seq<byte>>, latency: bool, i: nat): (seg: Segment)
    requires i < |pieces|
  {
    var (last, next) := (i + 1 == |pieces|, SegmentOffset(place.entry, place.size + HEADER_SIZE, NextSlot(place.n, i)));
    Segment(Header(|pieces[i]|, next, latency && !last, true, last), pieces[i])
  }

  /** One segment of a ring in memory, from what the protocol says of its position. */
  lemma SegmentInMemory(memory: Memory, place: Place, segments: seq<Segment>, pieces: seq<seq<byte>>, latency: bool, i: nat)
    requires RingStart.Holds(memory, place.entry, place.size, segments) && i < |pieces| <= place.n == |segments|
    requires pieces[i] <= segments[i].data && |segments[i].data| == place.size
    requires segments[i].h == Header(|pieces[i]|, NextSlot(place.n, i), latency && i + 1 < |pieces|, true, i + 1 == |pieces|)
    ensures var (seg, at) := (ClosedSegment(place, pieces, latency, i), SegmentOffset(place.entry, place.size + HEADER_SIZE, i));
            HeaderAt(memory, at) == seg.h && Slice(memory, at + HEADER_SIZE, |seg.data|) == seg.data && |seg.data| <= place.size
  {
    assert RingStart.HoldsSegment(memory, place.entry, place.size, i, segments[i]);
    RingStart.SliceParts(memory, SegmentOffset(place.entry, place.size + HEADER_SIZE, i) + HEADER_SIZE, place.size, |pieces[i]|);
  }

  /** A chain by its segments. */
  lemma {:induction false} ChainFromSegments(memory: Memory, place: Place, pieces: seq<seq<byte>>, latency: bool, i: nat)
    requires i < |pieces| <= place.n
    requires forall j :: i <= j < |pieces| ==> LiesAt(memory, place, pieces, latency, j)
    ensures Chain(memory, place.size, SegmentOffset(place.entry, place.size + HEADER_SIZE, i), ClosedSegments(place, pieces, latency)[i..])
    decreases |pieces| - i
  {
    var segs := ClosedSegments(place, pieces, latency);
    assert LiesAt(memory, place, pieces, latency, i);
    assert segs[i..][0] == ClosedSegment(place, pieces, latency, i);
    if i + 1 < |pieces| {
      assert segs[i..][1..] == segs[i + 1..];
      ChainFromSegments(memory, place, pieces, latency, i + 1);
    }
  }

  ghost predicate LiesAt(memory: Memory, place: Place, pieces: seq<seq<byte>>, latency: bool, i: nat)
    requires i < |pieces|
  {
    var (seg, at) := (ClosedSegment(place, pieces, latency, i), SegmentOffset(place.entry, place.size + HEADER_SIZE, i));
    HeaderAt(memory, at) == seg.h && Slice(memory, at + HEADER_SIZE, |seg.data|) == seg.data && |seg.data| <= place.size
  }

  lemma BwSegmentIs(p: Bw.Params, s: Bw.State, i: nat)
    requires BwInv.Inv(p, s) && s.w.pc == Bw.Closed && s.r.delivered == [] && i < |s.r.published|
    ensures |s.r.published| <= p.n && |s.r.mem[i].data| == p.size && s.r.published[i] <= s.r.mem[i].data
    ensures s.r.mem[i].h == Header(|s.r.published[i]|, NextSlot(p.n, i), false, true, i + 1 == |s.r.published|)
  {
    assert BwInv.Held(p, s, i);
    SlotNext(p.n, i);
  }

  /** A closed bandwidth ring nothing was consumed from, as it lies in memory: its chain holds the appended stream. */
  lemma BwRingIsClosed(p: Bw.Params, schedule: seq<Bw.Step>, memory: Memory, entry: nat)
    requires p.Valid()
    requires var s := BwTh.After(p, schedule);
             s.w.pc == Bw.Closed && s.r.delivered == [] && RingStart.Holds(memory, entry, p.size, s.r.mem)
    ensures var (s, place) := (BwTh.After(p, schedule), Place(entry, p.size, p.n));
            && ClosedRing(memory, place, ClosedSegments(place, s.r.published, false))
            && Flatten(s.r.published) == s.appended
  {
    BwTh.AfterInv(p, schedule);
    var s := BwTh.After(p, schedule);
    assert s.appended == Flatten(s.r.published);
    BwChain(p, s, memory, entry);
  }

  lemma BwChain(p: Bw.Params, s: Bw.State, memory: Memory, entry: nat)
    requires BwInv.Inv(p, s) && s.w.pc == Bw.Closed && s.r.delivered == []
    requires RingStart.Holds(memory, entry, p.size, s.r.mem)
    ensures var place := Place(entry, p.size, p.n); ClosedRing(memory, place, ClosedSegments(place, s.r.published, false))
  {
    var place := Place(entry, p.size, p.n);
    BwSegmentIs(p, s, 0);
    forall i | 0 <= i < |s.r.published|
      ensures LiesAt(memory, place, s.r.published, false, i)
    {
      BwSegmentIs(p, s, i);
      SegmentInMemory(memory, place, s.r.mem, s.r.published, false, i);
    }
    ChainFromSegments(memory, place, s.r.published, false, 0);
    var segs := ClosedSegments(place, s.r.published, false);
    assert segs[0..] == segs;
  }

  lemma LatSegmentIs(p: Lat.Params, s: Lat.State, i: nat)
    requires LatInv.Inv(p, s) && s.w.pc == Lat.Closed && s.r.delivered == [] && i < |s.messages|
    ensures |s.messages| <= p.n && |s.r.mem[i].data| == p.size && s.messages[i] <= s.r.mem[i].data
    ensures var last := i + 1 == |s.messages|;
            s.r.mem[i].h == Header(if last then p.size else |s.messages[i]|, NextSlot(p.n, i), !last, true, last)
  {
    assert LatInv.Held(p, s, i);
    SlotNext(p.n, i);
  }

  /** A closed latency ring nothing was consumed from, of any size from one segment on, as it lies in memory: its chain holds the
      messages if and only if the last one fills its segment, which is what close has stamped on it. */
  lemma LatRingIsClosed(p: Lat.Params, schedule: seq<Lat.Step>, memory: Memory, entry: nat)
    requires p.Valid()
    requires var s := LatPr.After(p, schedule);
             s.w.pc == Lat.Closed && s.r.delivered == [] && RingStart.Holds(memory, entry, p.size, s.r.mem)
    ensures var (s, place) := (LatPr.After(p, schedule), Place(entry, p.size, p.n));
            ClosedRing(memory, place, ClosedSegments(place, s.messages, true)) <==> LatTh.LastIsFull(p, s)
  {
    LatPr.AfterInv(p, schedule);
    var (s, place) := (LatPr.After(p, schedule), Place(entry, p.size, p.n));
    LatSegmentIs(p, s, 0);
    if LatTh.LastIsFull(p, s) {
      LatChain(p, s, memory, entry);
    }
    if ClosedRing(memory, place, ClosedSegments(place, s.messages, true)) {
      LatLastSegment(p, s, memory, entry);
    }
  }

  /** The last segment of a chain is as long as its counter says. */
  lemma LatLastSegment(p: Lat.Params, s: Lat.State, memory: Memory, entry: nat)
    requires LatInv.Inv(p, s) && s.w.pc == Lat.Closed && s.r.delivered == []
    requires RingStart.Holds(memory, entry, p.size, s.r.mem)
    requires var place := Place(entry, p.size, p.n); ClosedRing(memory, place, ClosedSegments(place, s.messages, true))
    ensures LatTh.LastIsFull(p, s)
  {
    var (place, i) := (Place(entry, p.size, p.n), |s.messages| - 1);
    assert RingStart.HoldsSegment(memory, entry, p.size, i, s.r.mem[i]);
    LatSegmentIs(p, s, i);
    var segs := ClosedSegments(place, s.messages, true);
    assert segs[0..] == segs;
    ChainEntry(memory, place, s.messages, true, 0, i);
  }

  lemma LatChain(p: Lat.Params, s: Lat.State, memory: Memory, entry: nat)
    requires LatInv.Inv(p, s) && s.w.pc == Lat.Closed && s.r.delivered == [] && LatTh.LastIsFull(p, s)
    requires RingStart.Holds(memory, entry, p.size, s.r.mem)
    ensures var place := Place(entry, p.size, p.n); ClosedRing(memory, place, ClosedSegments(place, s.messages, true))
  {
    var place := Place(entry, p.size, p.n);
    LatSegmentIs(p, s, 0);
    forall i | 0 <= i < |s.messages|
      ensures LiesAt(memory, place, s.messages, true, i)
    {
      LatSegmentIs(p, s, i);
      SegmentInMemory(memory, place, s.r.mem, s.messages, true, i);
    }
    ChainFromSegments(memory, place, s.messages, true, 0);
    var segs := ClosedSegments(place, s.messages, true);
    assert segs[0..] == segs;
  }

  /** Segment k of a chain is where its position says. */
  lemma {:induction false} ChainEntry(memory: Memory, place: Place, pieces: seq<seq<byte>>, latency: bool, i: nat, k: nat)
    requires i <= k < |pieces| <= place.n
    requires Chain(memory, place.size, SegmentOffset(place.entry, place.size + HEADER_SIZE, i), ClosedSegments(place, pieces, latency)[i..])
    ensures HeaderAt(memory, SegmentOffset(place.entry, place.size + HEADER_SIZE, k)) == ClosedSegment(place, pieces, latency, k).h
    decreases k - i
  {
    var segs := ClosedSegments(place, pieces, latency);
    assert segs[i..][0] == ClosedSegment(place, pieces, latency, i);
    if i < k {
      assert segs[i..][1..] == segs[i + 1..];
      ChainEntry(memory, place, pieces, latency, i + 1, k);
    }
  }

  // ---------------------------------------------------------------- all rings of a buffer

  /** A ring and its writer: any parameters, any run, any place in memory. */
  datatype Written =
    | BwWritten(p: Bw.Params, bw: seq<Bw.Step>, entry: nat)
    | LatWritten(q: Lat.Params, lat: seq<Lat.Step>, entry: nat)
  {
    ghost predicate Valid() {
      match this
      case BwWritten(p, _, _) => p.Valid()
      case LatWritten(q, _, _) => q.Valid()
    }

    /** The writer has closed the ring and nothing was taken from it; close's stamp fits a latency ring's last message. The ring
        lies in the memory. */
    ghost predicate ClosedUnread(memory: Memory)
      requires Valid()
    {
      match this
      case BwWritten(p, bw, entry) =>
        var s := BwTh.After(p, bw);
        s.w.pc == Bw.Closed && s.r.delivered == [] && RingStart.Holds(memory, entry, p.size, s.r.mem)
      case LatWritten(q, lat, entry) =>
        var s := LatPr.After(q, lat);
        && s.w.pc == Lat.Closed && s.r.delivered == [] && RingStart.Holds(memory, entry, q.size, s.r.mem)
        && LatTh.LastIsFull(q, s)
    }

    function Where(): (place: Place) {
      match this
      case BwWritten(p, _, entry) => Place(entry, p.size, p.n)
      case LatWritten(q, _, entry) => Place(entry, q.size, q.n)
    }

    /** The pieces that lie in the segments. */
    function Pieces(): (pieces: seq<seq<byte>>)
      requires Valid()
    {
      match this
      case BwWritten(p, bw, _) => BwTh.After(p, bw).r.published
      case LatWritten(q, lat, _) => LatPr.After(q, lat).messages
    }

    function Segments(): (segs: seq<Segment>)
      requires Valid()
    {
      ClosedSegments(Where(), Pieces(), LatWritten?)
    }

    /** Everything appended. */
    function Stream(): (stream: seq<byte>)
      requires Valid()
    {
      match this
      case BwWritten(p, bw, _) => BwTh.After(p, bw).appended
      case LatWritten(q, lat, _) => Flatten(LatPr.After(q, lat).messages)
    }
  }

  lemma WrittenIsClosed(memory: Memory, w: Written)
    requires w.Valid() && w.ClosedUnread(memory)
    ensures ClosedRing(memory, w.Where(), w.Segments()) && Flatten(Payloads(w.Segments())) == w.Stream()
  {
    assert Payloads(w.Segments()) == w.Pieces();
    match w {
      case BwWritten(p, bw, entry) => BwRingIsClosed(p, bw, memory, entry);
      case LatWritten(q, lat, entry) => LatRingIsClosed(q, lat, memory, entry);
    }
  }

  ghost predicate AllClosedUnread(memory: Memory, ws: seq<Written>) {
    forall i :: 0 <= i < |ws| ==> ws[i].Valid() && ws[i].ClosedUnread(memory)
  }

  function Places(ws: seq<Written>): (places: seq<Place>) {
    seq(|ws|, i requires 0 <= i < |ws| => ws[i].Where())
  }

  ghost function AllSegments(memory: Memory, ws: seq<Written>): (rings: seq<seq<Segment>>)
    requires AllClosedUnread(memory, ws)
  {
    seq(|ws|, i requires 0 <= i < |ws| => ws[i].Segments())
  }

  ghost function Streams(memory: Memory, ws: seq<Written>): (streams: seq<seq<byte>>)
    requires AllClosedUnread(memory, ws)
  {
    seq(|ws|, i requires 0 <= i < |ws| => ws[i].Stream())
  }

  /** The reader inverts the writers, bandwidth or latency, each with its own sizes: once every writer of a buffer has closed its
      ring and nothing was consumed, what read returns without headers is the concatenation of all appended
      streams, in ring order. */
  lemma ReaderInvertsWriters(memory: Memory, ws: seq<Written>)
    requires AllClosedUnread(memory, ws)
    ensures ClosedRings(memory, Places(ws), AllSegments(memory, ws))
    ensures RingsBytes(memory, Places(ws), AllSegments(memory, ws), |ws|, false) == Flatten(Streams(memory, ws))
  {
    var (rings, streams) := (AllSegments(memory, ws), Streams(memory, ws));
    forall i | 0 <= i < |ws|
      ensures ClosedRing(memory, Places(ws)[i], rings[i]) && Flatten(Payloads(rings[i])) == streams[i]
    {
      WrittenIsClosed(memory, ws[i]);
    }
    RingsConcatenate(memory, Places(ws), rings, streams, |ws|);
    assert streams[..|ws|] == streams;
  }

  lemma {:induction false} RingsConcatenate(memory: Memory, places: seq<Place>, rings: seq<seq<Segment>>, streams: seq<seq<byte>>, k: nat)
    requires ClosedRings(memory, places, rings) && |streams| == |rings| && k <= |rings|
    requires forall i :: 0 <= i < |rings| ==> Flatten(Payloads(rings[i])) == streams[i]
    ensures RingsBytes(memory, places, rings, k, false) == Flatten(streams[..k])
  {
    if k > 0 {
      RingsConcatenate(memory, places, rings, streams, k - 1);
      ChainIsStream(memory, places[k - 1].size, places[k - 1].entry, rings[k - 1]);
      FlattenUpTo(streams, k - 1);
    }
  }

  // ---------------------------------------------------------------- a dump with headers

  /** A dump taken with headers, taken apart again: headers say how long each piece is and which is a ring's last. `open` holds the
      segments of the ring being read. */
  function Parse(dump: seq<byte>, open: seq<Segment>): (rings: seq<seq<Segment>>)
    decreases |dump|
  {
    if |dump| < HEADER_SIZE then []
    else
      var h := HeaderOf(dump[..HEADER_SIZE]);
      if |dump| < HEADER_SIZE + h.counter then []
      else
        var (seg, rest) := (Segment(h, dump[HEADER_SIZE..HEADER_SIZE + h.counter]), dump[HEADER_SIZE + h.counter..]);
        if h.end then [open + [seg]] + Parse(rest, []) else Parse(rest, open + [seg])
  }

  lemma SegmentParses(memory: Memory, at: nat, seg: Segment, rest: seq<byte>, open: seq<Segment>)
    requires HeaderAt(memory, at) == seg.h && seg.h.counter == |seg.data| && Slice(memory, at + HEADER_SIZE, |seg.data|) == seg.data
    ensures Parse(Slice(memory, at, HEADER_SIZE + |seg.data|) + rest, open) ==
            if seg.h.end then [open + [seg]] + Parse(rest, []) else Parse(rest, open + [seg])
  {
    var dump := Slice(memory, at, HEADER_SIZE + |seg.data|) + rest;
    assert dump[..HEADER_SIZE] == Slice(memory, at, HEADER_SIZE);
    assert dump[HEADER_SIZE..HEADER_SIZE + |seg.data|] == Slice(memory, at + HEADER_SIZE, |seg.data|);
    assert dump[HEADER_SIZE + |seg.data|..] == rest;
  }

  lemma FirstSegmentParses(memory: Memory, size: nat, at: nat, segs: seq<Segment>, rest: seq<byte>, open: seq<Segment>)
    requires Chain(memory, size, at, segs)
    ensures var more := ChainBytes(memory, segs[0].h.next, |segs| - 1, true);
            Parse(ChainBytes(memory, at, |segs|, true) + rest, open) ==
            if segs[0].h.end then [open + [segs[0]]] + Parse(more + rest, []) else Parse(more + rest, open + [segs[0]])
  {
    var more := ChainBytes(memory, segs[0].h.next, |segs| - 1, true);
    Regroup(Slice(memory, at, HEADER_SIZE + segs[0].h.counter), more, rest);
    SegmentParses(memory, at, segs[0], more + rest, open);
  }

  lemma {:induction false} ChainParses(memory: Memory, size: nat, at: nat, segs: seq<Segment>, rest: seq<byte>, open: seq<Segment>)
    requires Chain(memory, size, at, segs)
    ensures Parse(ChainBytes(memory, at, |segs|, true) + rest, open) == [open + segs] + Parse(rest, [])
    decreases |segs|
  {
    FirstSegmentParses(memory, size, at, segs, rest, open);
    Split(open, segs);
    if |segs| > 1 {
      ChainParses(memory, size, segs[0].h.next, segs[1..], rest, open + [segs[0]]);
    } else {
      assert ChainBytes(memory, segs[0].h.next, 0, true) + rest == rest;
    }
  }

  lemma Split<T>(a: seq<T>, b: seq<T>)
    requires b != []
    ensures a + b == a + [b[0]] + b[1..]
    ensures |b| == 1 ==> b == [b[0]]
  {
  }

  /** Whatever comes behind it, the dump is taken apart into these rings. */
  ghost predicate Decodes(dump: seq<byte>, rings: seq<seq<Segment>>) {
    forall rest :: Parse(dump + rest, []) == rings + Parse(rest, [])
  }

  lemma DecodesNothing()
    ensures Decodes([], [])
  {
    forall rest: seq<byte>
      ensures Parse([] + rest, []) == [] + Parse(rest, [])
    {
      assert [] + rest == rest;
    }
  }

  lemma DecodesInTurn(a: seq<byte>, rings: seq<seq<Segment>>, b: seq<byte>, more: seq<seq<Segment>>)
    requires Decodes(a, rings) && Decodes(b, more)
    ensures Decodes(a + b, rings + more)
  {
    forall rest
      ensures Parse(a + b + rest, []) == rings + more + Parse(rest, [])
    {
      Regroup(a, b, rest);
      Regroup(rings, more, Parse(rest, []));
    }
  }

  lemma ChainDecodes(memory: Memory, place: Place, segs: seq<Segment>)
    requires ClosedRing(memory, place, segs)
    ensures Decodes(ChainBytes(memory, place.entry, |segs|, true), [segs])
  {
    forall rest
      ensures Parse(ChainBytes(memory, place.entry, |segs|, true) + rest, []) == [segs] + Parse(rest, [])
    {
      ChainParses(memory, place.size, place.entry, segs, rest, []);
      assert [] + segs == segs;
    }
  }

  /** A dump with headers decodes to the segments of every ring, ring by ring. */
  lemma {:induction false} DumpDecodes(memory: Memory, places: seq<Place>, rings: seq<seq<Segment>>, k: nat)
    requires ClosedRings(memory, places, rings) && k <= |rings|
    ensures Decodes(RingsBytes(memory, places, rings, k, true), rings[..k])
  {
    if k == 0 {
      DecodesNothing();
    } else {
      DumpDecodes(memory, places, rings, k - 1);
      ChainDecodes(memory, places[k - 1], rings[k - 1]);
      DecodesInTurn(RingsBytes(memory, places, rings, k - 1, true), rings[..k - 1],
                    ChainBytes(memory, places[k - 1].entry, |rings[k - 1]|, true), [rings[k - 1]]);
      assert rings[..k] == rings[..k - 1] + [rings[k - 1]];
    }
  }

  lemma DecodesAll(dump: seq<byte>, rings: seq<seq<Segment>>)
    requires Decodes(dump, rings)
    ensures Parse(dump, []) == rings
  {
    assert dump + [] == dump;
    assert Parse(dump + [], []) == rings + Parse([], []);
  }

  /** What read returns with headers, taken apart, is every segment of the writers' rings: payload, counter, link and flags. */
  lemma DumpInvertsWriters(memory: Memory, ws: seq<Written>)
    requires AllClosedUnread(memory, ws)
    ensures ClosedRings(memory, Places(ws), AllSegments(memory, ws))
    ensures Parse(RingsBytes(memory, Places(ws), AllSegments(memory, ws), |ws|, true), []) == AllSegments(memory, ws)
  {
    ReaderInvertsWriters(memory, ws);
    DumpDecodes(memory, Places(ws), AllSegments(memory, ws), |ws|);
    assert AllSegments(memory, ws)[..|ws|] == AllSegments(memory, ws);
    DecodesAll(RingsBytes(memory, Places(ws), AllSegments(memory, ws), |ws|, true), AllSegments(memory, ws));
  }
}
