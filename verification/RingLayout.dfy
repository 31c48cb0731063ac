/**
 How NodeServer lays a ring out in the node's memory: the counter word of a LAT ring, and a header in front of every
 segment, each linked to the next and the last to the first. Memory is bytes at addresses; headers and counters are read from
 and written to their bytes, so that whatever overlaps is overwritten.
 */
module RingLayout {
  import opened Util
  import opened SegmentHeader
  import opened RdmaMemory

  datatype BufferType = BW | LAT

  const COUNTER_SIZE: nat := 8

  function CounterSize(t: BufferType): (size: nat) {
    if t == LAT then COUNTER_SIZE else 0
  }

  // ---------------------------------------------------------------- offsets

  /** The byte offset of segment i of a ring. */
  function SegmentOffset(entry: nat, stride: nat, i: nat): (k: nat) {
    if i == 0 then entry else SegmentOffset(entry, stride, i - 1) + stride
  }

  lemma {:induction false} OffsetIs(entry: nat, stride: nat, i: nat)
    ensures SegmentOffset(entry, stride, i) == entry + i * stride
  {
    if i > 0 {
      OffsetIs(entry, stride, i - 1);
      assert i * stride == (i - 1) * stride + stride;
    }
  }

  /** The i-th segment of the ring, header and payload, as a block of memory. */
  function SegmentBlock(entry: nat, stride: nat, i: nat): (b: Block) {
    Block(SegmentOffset(entry, stride, i), stride)
  }

  lemma {:induction false} OffsetsIncrease(entry: nat, stride: nat, i: nat, j: nat)
    requires i < j
    ensures SegmentOffset(entry, stride, i) + stride <= SegmentOffset(entry, stride, j)
    decreases j
  {
    if i < j - 1 {
      OffsetsIncrease(entry, stride, i, j - 1);
    }
  }

  lemma {:induction false} OffsetShift(base: nat, shift: nat, stride: nat, i: nat)
    ensures SegmentOffset(base + shift, stride, i) == base + SegmentOffset(shift, stride, i)
  {
    if i > 0 {
      OffsetShift(base, shift, stride, i - 1);
    }
  }

  /** The segments are disjoint, lie inside the allocated block, and leave out the counter word in front of the entry. */
  lemma SegmentsAreApart(b: Block, stride: nat, n: nat, t: BufferType)
    requires b.size == SegmentOffset(CounterSize(t), stride, n)
    ensures var entry := b.offset + CounterSize(t);
            && (forall i, j :: 0 <= i < j < n ==> SegmentBlock(entry, stride, i).End() <= SegmentBlock(entry, stride, j).offset)
            && (forall i :: 0 <= i < n ==> entry <= SegmentBlock(entry, stride, i).offset && SegmentBlock(entry, stride, i).End() <= b.End())
  {
    var entry := b.offset + CounterSize(t);
    OffsetShift(b.offset, CounterSize(t), stride, n);
    forall i, j | 0 <= i < j < n
      ensures SegmentBlock(entry, stride, i).End() <= SegmentBlock(entry, stride, j).offset
    {
      OffsetsIncrease(entry, stride, i, j);
    }
    forall i | 0 <= i < n
      ensures entry <= SegmentBlock(entry, stride, i).offset && SegmentBlock(entry, stride, i).End() <= b.End()
    {
      OffsetsIncrease(entry, stride, i, n);
      if i > 0 {
        OffsetsIncrease(entry, stride, 0, i);
      }
    }
  }

  lemma {:induction false} CountBelowOffset(entry: nat, stride: nat, n: nat)
    requires stride > 0
    ensures entry + n <= SegmentOffset(entry, stride, n)
  {
    if n > 0 {
      CountBelowOffset(entry, stride, n - 1);
    }
  }

  // ---------------------------------------------------------------- memory

  /** The node's memory by address, counted from the start of the RDMA buffer. What was never written reads as 0, and a write
      behind the end of the buffer is a write like any other. */
  type Memory = map<nat, byte>

  function At(mem: Memory, x: nat): (b: byte) {
    if x in mem then mem[x] else 0
  }

  function Slice(mem: Memory, at: nat, n: nat): (bytes: seq<byte>)
    ensures |bytes| == n
  {
    seq(n, i requires 0 <= i < n => At(mem, at + i))
  }

  /** memcpy. */
  function Write(mem: Memory, at: nat, bytes: seq<byte>): (mem': Memory) {
    if bytes == [] then mem else Write(mem, at, bytes[..|bytes| - 1])[at + |bytes| - 1 := bytes[|bytes| - 1]]
  }

  lemma {:induction false} WriteAt(mem: Memory, at: nat, bytes: seq<byte>, x: nat)
    ensures At(Write(mem, at, bytes), x) == if at <= x < at + |bytes| then bytes[x - at] else At(mem, x)
  {
    if bytes != [] {
      WriteAt(mem, at, bytes[..|bytes| - 1], x);
    }
  }

  function HeaderAt(mem: Memory, at: nat): (h: Header) {
    HeaderOf(Slice(mem, at, HEADER_SIZE))
  }

  function WordAt(mem: Memory, at: nat): (x: nat) {
    WordOf(Slice(mem, at, COUNTER_SIZE))
  }

  // ---------------------------------------------------------------- a ring in memory

  /** A fresh ring of n segments: every header free and linked to its successor. */
  ghost predicate IsRing(mem: Memory, entry: nat, stride: nat, n: nat) {
    forall i :: 0 <= i < n ==> Linked(mem, entry, stride, n, i)
  }

  ghost predicate Linked(mem: Memory, entry: nat, stride: nat, n: nat, i: nat) {
    HeaderAt(mem, SegmentOffset(entry, stride, i)) == FreeHeader(SegmentOffset(entry, stride, NextSlot(n, i)))
  }

  /** Following k links from an offset. */
  function Follow(mem: Memory, at: nat, k: nat): (o: nat) {
    if k == 0 then at else HeaderAt(mem, Follow(mem, at, k - 1)).next
  }

  /** k links from the entry lead to segment k modulo n. */
  lemma {:induction false} FollowReaches(mem: Memory, entry: nat, stride: nat, n: nat, k: nat)
    requires n > 0 && IsRing(mem, entry, stride, n)
    ensures Follow(mem, entry, k) == SegmentOffset(entry, stride, Slot(n, k))
  {
    if k > 0 {
      FollowReaches(mem, entry, stride, n, k - 1);
      SlotNext(n, k - 1);
      assert Linked(mem, entry, stride, n, Slot(n, k - 1));
    }
  }

  /** The links form one cycle: n links lead back to the entry, and fewer than n visit pairwise different segments,
      so that each of the n segments is visited exactly once. */
  lemma OneCycle(mem: Memory, entry: nat, stride: nat, n: nat)
    requires n > 0 && stride > 0 && IsRing(mem, entry, stride, n)
    ensures Follow(mem, entry, n) == entry
    ensures forall i :: 0 <= i < n ==> Follow(mem, entry, i) == SegmentOffset(entry, stride, i)
    ensures forall i, j :: 0 <= i < j < n ==> Follow(mem, entry, i) != Follow(mem, entry, j)
  {
    FollowReaches(mem, entry, stride, n, n);
    SlotPeriod(n, 0);
    assert SegmentOffset(entry, stride, 0) == entry;
    forall i | 0 <= i < n
      ensures Follow(mem, entry, i) == SegmentOffset(entry, stride, i)
    {
      FollowReaches(mem, entry, stride, n, i);
    }
    forall i, j | 0 <= i < j < n
      ensures Follow(mem, entry, i) != Follow(mem, entry, j)
    {
      OffsetsIncrease(entry, stride, i, j);
    }
  }

  /** The successor BufferWriterLat computes (the entry after the last index, else one stride on) is the linked one. */
  lemma ArithmeticSuccessorIsLinked(mem: Memory, entry: nat, stride: nat, n: nat, i: nat)
    requires i < n && IsRing(mem, entry, stride, n)
    ensures var current := SegmentOffset(entry, stride, i);
            HeaderAt(mem, current).next == if i == n - 1 then entry else current + stride
  {
    assert Linked(mem, entry, stride, n, i);
  }

  // ---------------------------------------------------------------- what a request writes

  /** The header written for segment i. */
  function InitialHeader(entry: nat, stride: nat, n: nat, i: nat): (h: Header) {
    FreeHeader(SegmentOffset(entry, stride, NextSlot(n, i)))
  }

  /** The loop, after k headers. */
  function WriteHeaders(mem: Memory, entry: nat, stride: nat, n: nat, k: nat): (mem': Memory) {
    if k == 0 then mem
    else Write(WriteHeaders(mem, entry, stride, n, k - 1), SegmentOffset(entry, stride, k - 1), HeaderBytes(InitialHeader(entry, stride, n, k - 1)))
  }

  function WriteCounter(mem: Memory, base: nat, t: BufferType, n: nat): (mem': Memory) {
    if t == LAT then Write(mem, base, WordBytes(n, COUNTER_SIZE)) else mem
  }

  /** Everything a request writes: the counter word of a LAT ring at the base, and then the headers. */
  function WriteRing(mem: Memory, base: nat, t: BufferType, stride: nat, n: nat): (mem': Memory) {
    WriteHeaders(WriteCounter(mem, base, t, n), base + CounterSize(t), stride, n, n)
  }

  /** The bytes of the i-th header, and of the first k. */
  predicate InHeader(entry: nat, stride: nat, i: nat, x: nat) {
    SegmentOffset(entry, stride, i) <= x < SegmentOffset(entry, stride, i) + HEADER_SIZE
  }

  predicate InHeaders(entry: nat, stride: nat, k: nat, x: nat) {
    exists i :: 0 <= i < k && InHeader(entry, stride, i, x)
  }

  /** The bytes a request writes to. */
  predicate Touched(base: nat, t: BufferType, stride: nat, n: nat, x: nat) {
    || (t == LAT && base <= x < base + COUNTER_SIZE)
    || InHeaders(base + CounterSize(t), stride, n, x)
  }

  /** What the first k headers leave in byte x, if they touch it. */
  function HeaderByte(entry: nat, stride: nat, n: nat, k: nat, x: nat): (b: Option<byte>) {
    if k == 0 then None
    else if InHeader(entry, stride, k - 1, x) then
      Some(HeaderBytes(InitialHeader(entry, stride, n, k - 1))[x - SegmentOffset(entry, stride, k - 1)])
    else HeaderByte(entry, stride, n, k - 1, x)
  }

  function CounterByte(base: nat, t: BufferType, n: nat, x: nat): (b: Option<byte>) {
    if t == LAT && base <= x < base + COUNTER_SIZE then Some(WordBytes(n, COUNTER_SIZE)[x - base]) else None
  }

  /** What a request leaves in byte x, if it touches it. */
  function RingByte(base: nat, t: BufferType, stride: nat, n: nat, x: nat): (b: Option<byte>) {
    var header := HeaderByte(base + CounterSize(t), stride, n, n, x);
    if header.Some? then header else CounterByte(base, t, n, x)
  }

  function Else(b: Option<byte>, otherwise: byte): (b': byte) {
    if b.Some? then b.value else otherwise
  }

  lemma {:induction false} HeaderByteIsWritten(mem: Memory, entry: nat, stride: nat, n: nat, k: nat, x: nat)
    ensures At(WriteHeaders(mem, entry, stride, n, k), x) == Else(HeaderByte(entry, stride, n, k, x), At(mem, x))
  {
    if k > 0 {
      HeaderByteIsWritten(mem, entry, stride, n, k - 1, x);
      var bytes := HeaderBytes(InitialHeader(entry, stride, n, k - 1));
      WriteAt(WriteHeaders(mem, entry, stride, n, k - 1), SegmentOffset(entry, stride, k - 1), bytes, x);
    }
  }

  lemma {:induction false} HeaderByteIsTouched(entry: nat, stride: nat, n: nat, k: nat, x: nat)
    ensures HeaderByte(entry, stride, n, k, x).Some? <==> InHeaders(entry, stride, k, x)
  {
    if k > 0 {
      HeaderByteIsTouched(entry, stride, n, k - 1, x);
      if InHeaders(entry, stride, k - 1, x) {
        var i :| 0 <= i < k - 1 && InHeader(entry, stride, i, x);
        assert 0 <= i < k && InHeader(entry, stride, i, x);
      }
      if InHeader(entry, stride, k - 1, x) {
        assert InHeaders(entry, stride, k, x);
      }
    }
  }

  lemma RingByteIsTouched(base: nat, t: BufferType, stride: nat, n: nat, x: nat)
    ensures RingByte(base, t, stride, n, x).Some? <==> Touched(base, t, stride, n, x)
  {
    HeaderByteIsTouched(base + CounterSize(t), stride, n, n, x);
  }

  /** A request changes exactly the bytes it touches, and what it leaves there does not depend on what was there. */
  lemma RingByteIsWritten(mem: Memory, base: nat, t: BufferType, stride: nat, n: nat, x: nat)
    ensures At(WriteRing(mem, base, t, stride, n), x) == Else(RingByte(base, t, stride, n, x), At(mem, x))
    ensures RingByte(base, t, stride, n, x).Some? <==> Touched(base, t, stride, n, x)
  {
    assert RingByte(base, t, stride, n, x).Some? <==> Touched(base, t, stride, n, x) by {
      RingByteIsTouched(base, t, stride, n, x);
    }
    HeaderByteIsWritten(WriteCounter(mem, base, t, n), base + CounterSize(t), stride, n, n, x);
    CounterByteIsWritten(mem, base, t, n, x);
  }

  lemma CounterByteIsWritten(mem: Memory, base: nat, t: BufferType, n: nat, x: nat)
    ensures At(WriteCounter(mem, base, t, n), x) == Else(CounterByte(base, t, n, x), At(mem, x))
  {
    if t == LAT {
      WriteAt(mem, base, WordBytes(n, COUNTER_SIZE), x);
    }
  }

  // ---------------------------------------------------------------- what is there afterwards

  /** Headers do not overlap. */
  lemma {:induction false} OneHeaderByte(entry: nat, stride: nat, n: nat, k: nat, i: nat, x: nat)
    requires stride >= HEADER_SIZE && i < k && InHeader(entry, stride, i, x)
    ensures HeaderByte(entry, stride, n, k, x) ==
            Some(HeaderBytes(InitialHeader(entry, stride, n, i))[x - SegmentOffset(entry, stride, i)])
  {
    if i < k - 1 {
      OneHeaderByte(entry, stride, n, k - 1, i, x);
      OffsetsIncrease(entry, stride, i, k - 1);
    }
  }

  lemma HeaderIsWritten(mem: Memory, base: nat, t: BufferType, stride: nat, n: nat, i: nat)
    requires stride >= HEADER_SIZE && i < n
    ensures var entry := base + CounterSize(t);
            Slice(WriteRing(mem, base, t, stride, n), SegmentOffset(entry, stride, i), HEADER_SIZE) ==
            HeaderBytes(InitialHeader(entry, stride, n, i))
  {
    var entry := base + CounterSize(t);
    var at := SegmentOffset(entry, stride, i);
    var (mem', bytes) := (WriteRing(mem, base, t, stride, n), HeaderBytes(InitialHeader(entry, stride, n, i)));
    forall j: nat | j < HEADER_SIZE
      ensures ByteIs(mem', at, bytes, j)
    {
      HeaderByteAt(mem, base, t, stride, n, i, j);
    }
    SliceIs(mem', at, bytes);
  }

  predicate ByteIs(mem: Memory, at: nat, bytes: seq<byte>, j: nat)
    requires j < |bytes|
  {
    At(mem, at + j) == bytes[j]
  }

  lemma SliceIs(mem: Memory, at: nat, bytes: seq<byte>)
    requires forall j: nat :: j < |bytes| ==> ByteIs(mem, at, bytes, j)
    ensures Slice(mem, at, |bytes|) == bytes
  {
    forall j: nat | j < |bytes|
      ensures Slice(mem, at, |bytes|)[j] == bytes[j]
    {
      assert ByteIs(mem, at, bytes, j);
    }
  }

  lemma HeaderByteAt(mem: Memory, base: nat, t: BufferType, stride: nat, n: nat, i: nat, j: nat)
    requires stride >= HEADER_SIZE && i < n && j < HEADER_SIZE
    ensures var entry := base + CounterSize(t);
            ByteIs(WriteRing(mem, base, t, stride, n), SegmentOffset(entry, stride, i), HeaderBytes(InitialHeader(entry, stride, n, i)), j)
  {
    var entry := base + CounterSize(t);
    var x := SegmentOffset(entry, stride, i) + j;
    RingByteIsWritten(mem, base, t, stride, n, x);
    OneHeaderByte(entry, stride, n, n, i, x);
  }

  lemma InitialHeaderFits(entry: nat, stride: nat, n: nat, i: nat)
    requires i < n && SegmentOffset(entry, stride, n) < WORD
    ensures InitialHeader(entry, stride, n, i).next < WORD
  {
    OffsetsIncrease(entry, stride, NextSlot(n, i), n);
  }

  /** The request leaves a fresh ring behind. */
  lemma RingIsWritten(mem: Memory, base: nat, t: BufferType, stride: nat, n: nat)
    requires stride >= HEADER_SIZE && SegmentOffset(base + CounterSize(t), stride, n) < WORD
    ensures IsRing(WriteRing(mem, base, t, stride, n), base + CounterSize(t), stride, n)
  {
    var entry := base + CounterSize(t);
    forall i | 0 <= i < n
      ensures Linked(WriteRing(mem, base, t, stride, n), entry, stride, n, i)
    {
      HeaderIsWritten(mem, base, t, stride, n, i);
      InitialHeaderFits(entry, stride, n, i);
      HeaderRoundTrip(InitialHeader(entry, stride, n, i));
    }
  }

  /** And its size in the counter word of a LAT ring. */
  lemma CounterIsWritten(mem: Memory, base: nat, stride: nat, n: nat)
    requires stride >= HEADER_SIZE && n < WORD
    ensures WordAt(WriteRing(mem, base, LAT, stride, n), base) == n
  {
    var (mem', bytes) := (WriteRing(mem, base, LAT, stride, n), WordBytes(n, COUNTER_SIZE));
    forall j: nat | j < COUNTER_SIZE
      ensures ByteIs(mem', base, bytes, j)
    {
      RingByteIsWritten(mem, base, LAT, stride, n, base + j);
      HeaderByteIsTouched(base + COUNTER_SIZE, stride, n, n, base + j);
      NotInFront(base + COUNTER_SIZE, stride, n, base + j);
    }
    SliceIs(mem', base, bytes);
    WordIsEightBytes();
    WordRoundTrip(n, COUNTER_SIZE);
  }

  lemma NotInFront(entry: nat, stride: nat, n: nat, x: nat)
    requires x < entry
    ensures !InHeaders(entry, stride, n, x)
  {
    forall i | 0 <= i < n
      ensures !InHeader(entry, stride, i, x)
    {
      if i > 0 {
        OffsetsIncrease(entry, stride, 0, i);
      }
    }
  }

  /** The bytes touched lie in the block that holds the ring. */
  lemma TouchedInBlock(b: Block, t: BufferType, stride: nat, n: nat, x: nat)
    requires stride >= HEADER_SIZE && b.size == SegmentOffset(CounterSize(t), stride, n)
    requires Touched(b.offset, t, stride, n, x)
    ensures b.Has(x)
  {
    SegmentsAreApart(b, stride, n, t);
    OffsetShift(b.offset, CounterSize(t), stride, n);
    if InHeaders(b.offset + CounterSize(t), stride, n, x) {
      var i :| 0 <= i < n && InHeader(b.offset + CounterSize(t), stride, i, x);
      assert SegmentBlock(b.offset + CounterSize(t), stride, i).End() <= b.End();
    } else if n > 0 {
      OffsetsIncrease(CounterSize(t), stride, 0, n);
    }
  }
}
