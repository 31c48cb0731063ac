/**
 The rings NodeServer writes are the rings the protocols start from: what lies in memory behind the offsets is, segment by
 segment, the initial state of BwProtocol and LatProtocol, with whatever payload the memory held.
 */
module RingStart {
  import opened Util
  import opened SegmentHeader
  import opened RingLayout
  import Bw = BwProtocol
  import Lat = LatProtocol

  /** Memory holds the segments at their offsets: the payload as it is, and in the header the byte offset of the segment it
      is linked to. */
  ghost predicate Holds(mem: Memory, entry: nat, size: nat, segments: seq<Segment>) {
    forall k :: 0 <= k < |segments| ==> HoldsSegment(mem, entry, size, k, segments[k])
  }

  ghost predicate HoldsSegment(mem: Memory, entry: nat, size: nat, k: nat, seg: Segment) {
    var (stride, at) := (size + HEADER_SIZE, SegmentOffset(entry, size + HEADER_SIZE, k));
    && HeaderAt(mem, at) == seg.h.(next := SegmentOffset(entry, stride, seg.h.next))
    && Slice(mem, at + HEADER_SIZE, size) == seg.data
  }

  /** The payload areas of a ring. */
  function Payload(mem: Memory, entry: nat, size: nat, n: nat): (payload: seq<seq<byte>>) {
    seq(n, k requires 0 <= k < n => Slice(mem, SegmentOffset(entry, size + HEADER_SIZE, k) + HEADER_SIZE, size))
  }

  lemma FreshSegment(mem: Memory, entry: nat, size: nat, n: nat, k: nat)
    requires k < n && IsRing(mem, entry, size + HEADER_SIZE, n)
    ensures HoldsSegment(mem, entry, size, k, Segment(FreeHeader(NextSlot(n, k)), Payload(mem, entry, size, n)[k]))
  {
    assert Linked(mem, entry, size + HEADER_SIZE, n, k);
  }

  /** A fresh ring, with any staging buffer on the writer's side, is an initial state of the bandwidth protocol. */
  lemma FreshRingIsBwInit(mem: Memory, entry: nat, size: nat, n: nat, scratch: seq<byte>)
    requires n > 0 && size > 0 && scratch != [] && IsRing(mem, entry, size + HEADER_SIZE, n)
    ensures var p := Bw.Params(n, size, |scratch|, Payload(mem, entry, size, n), scratch);
            p.Valid() && Holds(mem, entry, size, Bw.Init(p).r.mem)
  {
    forall k | 0 <= k < n
      ensures HoldsSegment(mem, entry, size, k, Segment(FreeHeader(NextSlot(n, k)), Payload(mem, entry, size, n)[k]))
    {
      FreshSegment(mem, entry, size, n, k);
    }
  }

  /** A fresh ring with its size in the counter word is an initial state of the latency protocol. */
  lemma FreshRingIsLatInit(mem: Memory, entry: nat, size: nat, n: nat)
    requires n > 0 && size > 0 && IsRing(mem, entry, size + HEADER_SIZE, n)
    requires entry >= COUNTER_SIZE && WordAt(mem, entry - COUNTER_SIZE) == n
    ensures var p := Lat.Params(n, size, Payload(mem, entry, size, n));
            && p.Valid() && Holds(mem, entry, size, Lat.Init(p).r.mem)
            && WordAt(mem, entry - COUNTER_SIZE) == Lat.Init(p).r.credit
  {
    forall k | 0 <= k < n
      ensures HoldsSegment(mem, entry, size, k, Segment(FreeHeader(NextSlot(n, k)), Payload(mem, entry, size, n)[k]))
    {
      FreshSegment(mem, entry, size, n, k);
    }
  }

  // ---------------------------------------------------------------- any ring can lie in memory

  /** A segment's bytes, the link as a byte offset. */
  function SegmentInBytes(entry: nat, size: nat, seg: Segment): (bytes: seq<byte>) {
    HeaderBytes(seg.h.(next := SegmentOffset(entry, size + HEADER_SIZE, seg.h.next))) + seg.data
  }

  function Store(mem: Memory, entry: nat, size: nat, segments: seq<Segment>, k: nat): (mem': Memory)
    requires k <= |segments|
  {
    if k == 0 then mem
    else Write(Store(mem, entry, size, segments, k - 1), SegmentOffset(entry, size + HEADER_SIZE, k - 1), SegmentInBytes(entry, size, segments[k - 1]))
  }

  lemma SliceAfterWrite(mem: Memory, at: nat, bytes: seq<byte>, from: nat, n: nat)
    ensures Slice(Write(mem, at, bytes), at, |bytes|) == bytes
    ensures from + n <= at || at + |bytes| <= from ==> Slice(Write(mem, at, bytes), from, n) == Slice(mem, from, n)
  {
    forall x: nat
      ensures At(Write(mem, at, bytes), x) == if at <= x < at + |bytes| then bytes[x - at] else At(mem, x)
    {
      WriteAt(mem, at, bytes, x);
    }
  }

  lemma {:induction false} SegmentStored(mem: Memory, entry: nat, size: nat, segments: seq<Segment>, k: nat, i: nat)
    requires i < k <= |segments| && forall l :: 0 <= l < |segments| ==> |segments[l].data| == size
    ensures Slice(Store(mem, entry, size, segments, k), SegmentOffset(entry, size + HEADER_SIZE, i), size + HEADER_SIZE) ==
            SegmentInBytes(entry, size, segments[i])
  {
    var (stride, before) := (size + HEADER_SIZE, Store(mem, entry, size, segments, k - 1));
    SliceAfterWrite(before, SegmentOffset(entry, stride, k - 1), SegmentInBytes(entry, size, segments[k - 1]), SegmentOffset(entry, stride, i), stride);
    if i < k - 1 {
      OffsetsIncrease(entry, stride, i, k - 1);
      SegmentStored(mem, entry, size, segments, k - 1, i);
    }
  }

  lemma SliceParts(mem: Memory, at: nat, n: nat, k: nat)
    requires k <= n
    ensures Slice(mem, at, n)[..k] == Slice(mem, at, k) && Slice(mem, at, n)[k..] == Slice(mem, at + k, n - k)
  {
  }

  lemma StoredSegment(mem: Memory, entry: nat, size: nat, segments: seq<Segment>, i: nat)
    requires i < |segments| && segments[i].h.counter < WORD && SegmentOffset(entry, size + HEADER_SIZE, segments[i].h.next) < WORD
    requires forall l :: 0 <= l < |segments| ==> |segments[l].data| == size
    ensures HoldsSegment(Store(mem, entry, size, segments, |segments|), entry, size, i, segments[i])
  {
    var (mem', at) := (Store(mem, entry, size, segments, |segments|), SegmentOffset(entry, size + HEADER_SIZE, i));
    SegmentStored(mem, entry, size, segments, |segments|, i);
    SliceParts(mem', at, size + HEADER_SIZE, HEADER_SIZE);
    HeaderRoundTrip(segments[i].h.(next := SegmentOffset(entry, size + HEADER_SIZE, segments[i].h.next)));
  }

  /** Every ring, at any entry, lies in some memory if its counters and offsets fit words, whatever the memory held. */
  lemma AnyRingLies(mem: Memory, entry: nat, size: nat, segments: seq<Segment>)
    requires forall l :: 0 <= l < |segments| ==>
               |segments[l].data| == size && segments[l].h.counter < WORD && SegmentOffset(entry, size + HEADER_SIZE, segments[l].h.next) < WORD
    ensures Holds(Store(mem, entry, size, segments, |segments|), entry, size, segments)
  {
    forall i | 0 <= i < |segments|
      ensures HoldsSegment(Store(mem, entry, size, segments, |segments|), entry, size, i, segments[i])
    {
      StoredSegment(mem, entry, size, segments, i);
    }
  }
}
