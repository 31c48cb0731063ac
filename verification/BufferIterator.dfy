/**
 BufferIterator and BufferIteratorLat, method by method, as an implementation of the system in RoundRobin.

 `rings` stands for the rings in local memory with the iter and prev of each, and for the writers and networks behind
 them; `future` says which steps those take between two accesses of the iterator to the memory, one entry an access.
 Valid() says that the object is in a state some schedule leads to. Where the source would spin on, has_next gives up
 when `future` is used up and it has gone round once more.
 */
module BufferIterator {
  import opened Util
  import opened SegmentHeader
  import Bw = BwProtocol
  import BwInv = BwInvariant
  import Lat = LatProtocol
  import LatInv = LatInvariant
  import opened RoundRobin
  import opened RoundRobinTheorems

  datatype Answer = Yes | No | Spinning

  // ---------------------------------------------------------------- what the iterator reads and writes of a ring

  /** Before the first take prev is the detached end iterator, whose mark the constructor has cleared. */
  predicate IsDetached(ring: Ring) {
    match ring
    case Bandwidth(_, b) => b.r.prev.None?
    case Latency(_, l) => l.r.prev.None?
  }

  function PrevHeader(ring: Ring): (h: Header)
    requires InBounds(ring) && !IsDetached(ring)
  {
    match ring
    case Bandwidth(_, b) => b.r.mem[b.r.prev.value].h
    case Latency(_, l) => l.r.mem[l.r.prev.value].h
  }

  function IterSegment(ring: Ring): (seg: Segment)
    requires InBounds(ring)
    ensures seg.h.counter <= |seg.data|
  {
    match ring
    case Bandwidth(_, b) => b.r.mem[b.r.iter]
    case Latency(_, l) => l.r.mem[l.r.iter]
  }

  /** The ring after h has been stored to prev's header. */
  function StorePrev(ring: Ring, h: Header): (ring': Ring)
    requires InBounds(ring) && !IsDetached(ring)
  {
    match ring
    case Bandwidth(p, b) =>
      Bandwidth(p, b.(r := Bw.SetHeader(b.r, b.r.prev.value, h)
                           .(cpc := if b.r.cpc == Bw.ZeroCounter then Bw.ClearConsumable
                                    else if b.r.cpc == Bw.ClearConsumable then Bw.SetWriteable else Bw.Taking)))
    case Latency(q, l) =>
      Latency(q, l.(r := Lat.SetHeader(l.r, l.r.prev.value, h)
                         .(cpc := if l.r.cpc == Lat.ZeroCounter then Lat.ClearConsumable
                                  else if l.r.cpc == Lat.ClearConsumable then Lat.SetWriteable else Lat.ReturnCredit)))
  }

  function ReturnCredit(ring: Ring): (ring': Ring)
    requires ring.Latency?
  {
    Latency(ring.q, ring.l.(r := ring.l.r.(credit := ring.l.r.credit + 1, cpc := Lat.Taking)))
  }

  /** mark_prev_segment has found nothing to give back. */
  function NothingToReturn(ring: Ring): (ring': Ring) {
    match ring
    case Bandwidth(p, b) => Bandwidth(p, b.(r := b.r.(cpc := Bw.Taking)))
    case Latency(q, l) => Latency(q, l.(r := l.r.(cpc := Lat.Taking)))
  }

  /** prev becomes iter, iter goes to the link; the payload goes to the caller. */
  function Advance(ring: Ring, data: seq<byte>, next: nat): (ring': Ring) {
    match ring
    case Bandwidth(p, b) =>
      Bandwidth(p, b.(r := b.r.(prev := Some(b.r.iter), iter := next, delivered := b.r.delivered + [data], cpc := Bw.Scanning)))
    case Latency(q, l) =>
      Latency(q, l.(r := l.r.(prev := Some(l.r.iter), iter := next, delivered := l.r.delivered + [data], cpc := Lat.Scanning)))
  }

  /** How has_next leaves a ring: erased, passed by, or about to be served. */
  function Scanned(ring: Ring): (ring': Ring)
    requires InBounds(ring)
  {
    var end := !IsDetached(ring) && PrevHeader(ring).end;
    match ring
    case Bandwidth(p, b) =>
      Bandwidth(p, b.(r := b.r.(cpc := if end then Bw.Retired else if IterSegment(ring).h.consumable then Bw.ZeroCounter else Bw.Scanning)))
    case Latency(q, l) =>
      Latency(q, l.(r := l.r.(cpc := if end then Lat.Retired else if IterSegment(ring).h.consumable then Lat.ZeroCounter else Lat.Scanning)))
  }

  /** Stages of next on a ring, by the consumer steps still to go. */
  const ANSWERED := 5
  const TAKING := 1

  /** Each of the accesses above is one step of the protocol. */
  lemma AccessesAreSteps(ring: Ring)
    requires InBounds(ring)
    ensures Stage(ring) == ANSWERED && (IsDetached(ring) || PrevHeader(ring).end || (ring.Latency? && !PrevHeader(ring).writeable)) ==>
              ConsumeOn(ring) == NothingToReturn(ring)
    ensures Stage(ring) == ANSWERED && !IsDetached(ring) && !PrevHeader(ring).end && (ring.Latency? ==> PrevHeader(ring).writeable) ==>
              ConsumeOn(ring) == StorePrev(ring, PrevHeader(ring).(counter := 0))
    ensures Stage(ring) == 4 ==> !IsDetached(ring) && ConsumeOn(ring) == StorePrev(ring, PrevHeader(ring).SetConsumable(false))
    ensures Stage(ring) == 3 ==> !IsDetached(ring) && ConsumeOn(ring) == StorePrev(ring, PrevHeader(ring).SetWriteable(true))
    ensures Stage(ring) == 2 ==> ring.Latency? && ConsumeOn(ring) == ReturnCredit(ring)
    ensures Stage(ring) == TAKING && !Retired(ring) ==>
              var seg := IterSegment(ring); ConsumeOn(ring) == Advance(ring, seg.data[..seg.h.counter], seg.h.next)
    ensures Scanning(ring) ==> ConsumeOn(ring) == Scanned(ring)
  {
  }

  // ---------------------------------------------------------------- what a release leaves behind

  function Iter(ring: Ring): (k: nat) {
    match ring
    case Bandwidth(_, b) => b.r.iter
    case Latency(_, l) => l.r.iter
  }

  function Prev(ring: Ring): (k: Option<nat>) {
    match ring
    case Bandwidth(_, b) => b.r.prev
    case Latency(_, l) => l.r.prev
  }

  /** The counter word of a latency ring. */
  function Credit(ring: Ring): (credit: nat) {
    match ring
    case Bandwidth(_, _) => 0
    case Latency(_, l) => l.r.credit
  }

  /** The fields of the iterator, and the counter word only it writes. */
  predicate SameFields(ring: Ring, ring': Ring) {
    ring'.Latency? == ring.Latency? && Iter(ring') == Iter(ring) && Prev(ring') == Prev(ring) && Credit(ring') == Credit(ring)
  }

  lemma ActionKeepsFields(ring: Ring, action: Action)
    requires InBounds(ring)
    ensures SameFields(ring, ActOn(ring, action))
  {
  }

  /** prev's segment is the writer's again. */
  ghost predicate GivenBack(ring: Ring) {
    InBounds(ring) && !IsDetached(ring) && PrevHeader(ring) == FreeHeader(PrevHeader(ring).next)
  }

  /** What mark_prev_segment does: the segment next() returned last is given back, with its credit on a latency ring; the
      detached end iterator has nothing to give back. */
  ghost predicate ReleasedPrev(ring: Ring, ring': Ring) {
    && ring'.Latency? == ring.Latency? && Iter(ring') == Iter(ring) && Prev(ring') == Prev(ring)
    && if IsDetached(ring) then Credit(ring') == Credit(ring)
       else GivenBack(ring') && Credit(ring') == Credit(ring) + if ring.Latency? then 1 else 0
  }

  /** What the release has stored so far: nobody else writes to prev's header. */
  lemma BwPrevAtStage(p: Bw.Params, b: Bw.State)
    requires BwInv.Inv(p, b) && b.r.prev.Some?
    ensures var h := b.r.mem[b.r.prev.value].h;
            && (b.r.cpc == Bw.ZeroCounter ==> !h.end)
            && (b.r.cpc == Bw.SetWriteable ==> h.SetWriteable(true) == FreeHeader(h.next))
  {
    if b.r.cpc in {Bw.ZeroCounter, Bw.SetWriteable} {
      assert BwInv.Held(p, b, |b.r.delivered| - 1);
    }
  }

  lemma LatPrevAtStage(q: Lat.Params, l: Lat.State)
    requires LatInv.Inv(q, l) && l.r.prev.Some?
    ensures var h := l.r.mem[l.r.prev.value].h;
            && (l.r.cpc == Lat.ZeroCounter ==> !h.end && h.writeable)
            && (l.r.cpc == Lat.SetWriteable ==> h.SetWriteable(true) == FreeHeader(h.next))
            && (l.r.cpc == Lat.ReturnCredit ==> h == FreeHeader(h.next))
  {
    if l.r.cpc in {Lat.ZeroCounter, Lat.SetWriteable, Lat.ReturnCredit} {
      assert LatInv.Held(q, l, |l.r.delivered| - 1);
    }
  }

  lemma PrevAtStage(ring: Ring)
    requires Reachable(ring) && InBounds(ring) && !IsDetached(ring)
    ensures Stage(ring) == ANSWERED ==> !PrevHeader(ring).end && (ring.Latency? ==> PrevHeader(ring).writeable)
    ensures Stage(ring) == 3 ==> PrevHeader(ring).SetWriteable(true) == FreeHeader(PrevHeader(ring).next)
    ensures Stage(ring) == 2 ==> GivenBack(ring)
  {
    ReachableInv(ring);
    match ring {
      case Bandwidth(p, b) => BwPrevAtStage(p, b);
      case Latency(q, l) => LatPrevAtStage(q, l);
    }
  }

  /** The payload is handed over, prev becomes iter, and iter follows its link. */
  ghost predicate MovedOn(ring: Ring, ring': Ring, data: seq<byte>) {
    InBounds(ring) &&
    var seg := IterSegment(ring);
    data == seg.data[..seg.h.counter] && Prev(ring') == Some(Iter(ring)) && Iter(ring') == seg.h.next
  }

  /** What the steps of the others leave alone on a ring. */
  predicate SameForConsumer(ring: Ring, ring': Ring) {
    && SameFields(ring, ring')
    && Stage(ring') == Stage(ring) && Scanning(ring') == Scanning(ring) && Retired(ring') == Retired(ring)
    && Delivered(ring') == Delivered(ring)
    && (Waiting(ring) ==> Waiting(ring'))
  }

  predicate AllSameForConsumer(rings: seq<Ring>, rings': seq<Ring>) {
    |rings| == |rings'| && forall r :: 0 <= r < |rings| ==> SameForConsumer(rings[r], rings'[r])
  }

  lemma SameInTurn(a: seq<Ring>, b: seq<Ring>, c: seq<Ring>)
    requires AllSameForConsumer(a, b) && AllSameForConsumer(b, c)
    ensures AllSameForConsumer(a, c)
  {
    forall r | 0 <= r < |a|
      ensures SameForConsumer(a[r], c[r])
    {
      assert SameForConsumer(a[r], b[r]) && SameForConsumer(b[r], c[r]);
    }
  }

  lemma ActionLeaves(rings: seq<Ring>, r: nat, action: Action)
    requires r < |rings| && InBounds(rings[r])
    ensures AllSameForConsumer(rings, rings[r := ActOn(rings[r], action)])
  {
    ActionEffect(rings[r], action);
    ActionKeepsFields(rings[r], action);
  }

  /** What every ring has delivered. */
  function Deliveries(rings: seq<Ring>): (all: seq<seq<seq<byte>>>) {
    seq(|rings|, r requires 0 <= r < |rings| => Delivered(rings[r]))
  }

  predicate AllSameDeliveries(rings: seq<Ring>, rings': seq<Ring>) {
    Deliveries(rings) == Deliveries(rings')
  }

  lemma DeliveriesAgree(rings: seq<Ring>, rings': seq<Ring>)
    ensures AllSameDeliveries(rings, rings') <==>
              |rings| == |rings'| && forall r :: 0 <= r < |rings| ==> Delivered(rings[r]) == Delivered(rings'[r])
  {
    if AllSameDeliveries(rings, rings') {
      assert |Deliveries(rings)| == |Deliveries(rings')|;
      forall r | 0 <= r < |rings|
        ensures Delivered(rings[r]) == Delivered(rings'[r])
      {
        assert Deliveries(rings)[r] == Deliveries(rings')[r];
      }
    }
  }

  /** The data has been delivered from ring r, and nothing else from any ring. */
  predicate Taken(rings: seq<Ring>, rings': seq<Ring>, r: nat, data: seq<byte>) {
    var before := Deliveries(rings);
    r < |before| && Deliveries(rings') == before[r := before[r] + [data]]
  }

  lemma TakenAt(rings: seq<Ring>, r: nat, ring': Ring, data: seq<byte>)
    requires r < |rings| && Delivered(ring') == Delivered(rings[r]) + [data]
    ensures Taken(rings, rings[r := ring'], r, data)
  {
    var (all, all') := (Deliveries(rings), Deliveries(rings[r := ring']));
    assert all'[r] == all[r] + [data];
    assert forall q :: 0 <= q < |rings| && q != r ==> all'[q] == all[q];
    assert all' == all[r := all[r] + [data]];
  }

  /** Everything put into every ring has been delivered. */
  predicate AllDelivered(rings: seq<Ring>) {
    forall r :: 0 <= r < |rings| ==> DeliveredAll(rings[r])
  }

  /** It is the next piece of the ring's stream. */
  predicate TakenInOrder(rings: seq<Ring>, rings': seq<Ring>, r: nat, data: seq<byte>) {
    Taken(rings, rings', r, data) && r < |rings'| && DeliveredInOrder(rings'[r])
  }

  lemma TakenSince(rings: seq<Ring>, found: seq<Ring>, rings': seq<Ring>, r: nat, data: seq<byte>)
    requires AllSameDeliveries(rings, found) && TakenInOrder(found, rings', r, data)
    ensures TakenInOrder(rings, rings', r, data)
  {
  }

  /** How many places place j of a list of n lies behind the pointer. */
  function Behind(n: nat, pointer: nat, j: nat): (k: int) {
    if j < pointer then pointer - 1 - j else n + pointer - 1 - j
  }

  /** The last `idle` rings the pointer has passed are not due. */
  ghost predicate Passed(s: System, idle: nat) {
    forall j: nat :: j < |s.live| && Behind(|s.live|, s.pointer, j) < idle ==> s.live[j] < |s.rings| && !Due(s.rings[s.live[j]])
  }

  lemma PassedAnother(s: System, idle: nat)
    requires Passed(s, idle) && s.live != [] && s.pointer <= |s.live|
    requires s.live[Position(s)] < |s.rings| && !Due(CurrentRing(s))
    ensures Passed(s.(pointer := Position(s) + 1), idle + 1)
  {
    var s' := s.(pointer := Position(s) + 1);
    forall j: nat | j < |s.live| && Behind(|s.live|, s'.pointer, j) < idle + 1
      ensures s.live[j] < |s.rings| && !Due(s.rings[s.live[j]])
    {
      assert j == Position(s) || Behind(|s.live|, s.pointer, j) < idle;
    }
  }

  ghost predicate NothingDue(s: System) {
    forall j :: 0 <= j < |s.live| ==> s.live[j] < |s.rings| && !Due(s.rings[s.live[j]])
  }

  lemma PassedNone(s: System)
    ensures s.pointer <= |s.live| ==> Passed(s, 0)
  {
  }

  lemma PassedAll(s: System)
    requires Passed(s, |s.live|) && s.pointer <= |s.live|
    ensures NothingDue(s)
  {
    forall j: nat | j < |s.live|
      ensures s.live[j] < |s.rings| && !Due(s.rings[s.live[j]])
    {
      assert Behind(|s.live|, s.pointer, j) < |s.live|;
    }
  }

  /** The flags has_next tests say exactly whether there is something to deliver, or the ring is over. */
  lemma FlagsAreExact(ring: Ring)
    requires Reachable(ring) && InBounds(ring) && (Scanning(ring) || Stage(ring) == ANSWERED)
    ensures var end := !IsDetached(ring) && PrevHeader(ring).end;
            && (Due(ring) <==> end || IterSegment(ring).h.consumable)
            && (Waiting(ring) <==> !end && IterSegment(ring).h.consumable)
  {
    ReachableInv(ring);
    match ring {
      case Bandwidth(p, b) => BwInv.ConsumableMeansPublished(p, b);
      case Latency(q, l) => LatInv.ConsumableMeansLanded(q, l);
    }
  }

  /** No call to next is under way, though has_next may have answered yes. */
  predicate NotInNext(s: System) {
    s.pointer < |s.live| && s.live[s.pointer] < |s.rings| ==>
      var ring := s.rings[s.live[s.pointer]]; Scanning(ring) || Stage(ring) == ANSWERED
  }

  predicate AtEnd(ring: Ring)
    requires InBounds(ring)
  {
    !IsDetached(ring) && PrevHeader(ring).end
  }

  lemma AllScanning(s: System)
    requires Inv(s)
    ensures forall j :: 0 <= j < |s.live| && j != s.pointer ==> Scanning(s.rings[s.live[j]])
  {
    forall j | 0 <= j < |s.live| && j != s.pointer
      ensures Scanning(s.rings[s.live[j]])
    {
      assert RingInv(s, s.live[j]);
    }
  }

  /** One turn of has_next's loop, as a step of the system. */
  lemma ScanStep(s: System)
    requires Inv(s) && NotInNext(s) && s.live != [] && Scanning(CurrentRing(s))
    ensures var (ring, i) := (CurrentRing(s), Position(s));
            Step(s, Consumer) == System(s.rings[s.live[i] := Scanned(ring)],
                                        if AtEnd(ring) then s.live[..i] + s.live[i + 1..] else s.live,
                                        if AtEnd(ring) || IterSegment(ring).h.consumable then i else i + 1,
                                        s.served)
    ensures !AtEnd(CurrentRing(s)) && !IterSegment(CurrentRing(s)).h.consumable ==> Step(s, Consumer).rings == s.rings
    ensures AllSameDeliveries(s.rings, Step(s, Consumer).rings)
  {
    AccessesAreSteps(CurrentRing(s));
    DeliveriesAgree(s.rings, Step(s, Consumer).rings);
  }

  lemma OnlyAtPointer(s: System)
    requires Inv(s) && s.live != [] && !Scanning(CurrentRing(s))
    ensures s.pointer == Position(s) && !Retired(CurrentRing(s))
  {
    assert RingInv(s, s.live[Position(s)]);
  }

  lemma EraseStep(s: System) returns (s': System)
    requires Inv(s) && NotInNext(s) && s.live != [] && Scanning(CurrentRing(s)) && AtEnd(CurrentRing(s))
    ensures s' == Step(s, Consumer) && Inv(s') && NotInNext(s') && AllSameDeliveries(s.rings, s'.rings)
    ensures var i := Position(s);
            s' == System(s.rings[s.live[i] := Scanned(CurrentRing(s))], s.live[..i] + s.live[i + 1..], i, s.served)
  {
    s' := Step(s, Consumer);
    ScanStep(s);
    ScanStepKeeps(s);
  }

  lemma ScanStepKeeps(s: System)
    requires Inv(s) && NotInNext(s) && s.live != [] && Scanning(CurrentRing(s))
    ensures Inv(Step(s, Consumer)) && NotInNext(Step(s, Consumer))
  {
    ConsumerInv(s);
    ScanStep(s);
    var s' := Step(s, Consumer);
    AllScanning(s);
    ErasedRing(s.live, Position(s));
  }

  /** What has_next's tests find at the pointer. */
  lemma CurrentIsOpen(s: System)
    requires Inv(s) && NotInNext(s) && s.live != []
    ensures var ring := CurrentRing(s);
            && (Scanning(ring) || Stage(ring) == ANSWERED)
            && (Due(ring) <==> AtEnd(ring) || IterSegment(ring).h.consumable)
            && (Waiting(ring) <==> !AtEnd(ring) && IterSegment(ring).h.consumable)
            && (!Scanning(ring) ==> Waiting(ring))
            && (AtEnd(ring) || !IterSegment(ring).h.consumable ==> Scanning(ring))
  {
    assert RingInv(s, s.live[Position(s)]);
    FlagsAreExact(CurrentRing(s));
  }

  ghost predicate AllFresh(rings: seq<Ring>) {
    forall r :: 0 <= r < |rings| ==> Fresh(rings[r])
  }

  /** Where a schedule leads from fresh rings. */
  ghost function RunFrom(rings: seq<Ring>, events: seq<Event>): (s: System)
    requires AllFresh(rings)
  {
    StartInv(rings);
    Run(Start(rings), events)
  }

  /** Steps of the others, as events of the system. */
  function Events(others: seq<(nat, Action)>): (events: seq<Event>) {
    seq(|others|, i requires 0 <= i < |others| => Other(others[i].0, others[i].1))
  }

  lemma OneMoreEvent(others: seq<(nat, Action)>, i: nat)
    requires i < |others|
    ensures Events(others[..i + 1]) == Events(others[..i]) + [Other(others[i].0, others[i].1)]
  {
  }

  class BufferIterator {
    const start: seq<Ring>         // the rings as NodeServer laid them out

    var rings: seq<Ring>
    var segmentIterators: seq<nat> // the list, as positions in rings
    var pointer: nat               // pointer_to_iter, |segmentIterators| for the list's end

    var future: seq<seq<(nat, Action)>>

    ghost var served: seq<nat>
    ghost var log: seq<Event>

    ghost function Abs(): (s: System)
      reads this
    {
      System(rings, segmentIterators, pointer, served)
    }

    ghost predicate Valid()
      reads this
    {
      && AllFresh(start)
      && Abs() == RunFrom(start, log)
    }

    constructor (rings: seq<Ring>, future: seq<seq<(nat, Action)>>)
      requires forall r :: 0 <= r < |rings| ==> Fresh(rings[r])
      ensures Valid() && start == rings && log == [] && this.future == future
      ensures Abs() == Start(rings)
      ensures pointer == 0 && |segmentIterators| == |rings| && forall r :: 0 <= r < |rings| ==> segmentIterators[r] == r
    {
      StartInv(rings);
      start := rings;
      this.rings := rings;
      segmentIterators := seq(|rings|, r requires 0 <= r < |rings| => r);
      pointer := 0;
      this.future := future;
      served, log := [], [];
    }

    /** What the object knows about its state. */
    lemma Knows()
      requires Valid()
      ensures Inv(Abs())
    {
      StartInv(start);
      RunInv(Start(start), log);
    }

    ghost method Record(before: System, e: Event)
      requires AllFresh(start) && before == RunFrom(start, log) && WellFormed(before) && Abs() == Step(before, e)
      modifies this`log
      ensures Valid() && log == old(log) + [e]
    {
      StartInv(start);
      RunSnoc(Start(start), log, e);
      log := log + [e];
    }

    /** Writers and networks take the steps the future holds for this moment. */
    method Interfere()
      requires Valid()
      modifies this`rings, this`future, this`log
      ensures Valid() && AllSameForConsumer(old(rings), rings)
      ensures if old(future) == [] then future == [] && log == old(log) && rings == old(rings)
              else future == old(future)[1..] && log == old(log) + Events(old(future)[0])
    {
      if future == [] {
        return;
      }
      var others := future[0];
      future := future[1..];
      MoveAll(others);
    }

    method MoveAll(others: seq<(nat, Action)>)
      requires Valid()
      modifies this`rings, this`log
      ensures Valid() && log == old(log) + Events(others)
      ensures AllSameForConsumer(old(rings), rings)
    {
      for i := 0 to |others|
        invariant Valid() && log == old(log) + Events(others[..i])
        invariant AllSameForConsumer(old(rings), rings)
      {
        OneMoreEvent(others, i);
        ghost var before := rings;
        Move(others[i].0, others[i].1);
        SameInTurn(old(rings), before, rings);
      }
      assert others[..|others|] == others;
    }

    /** A step of ring r's writer or network. */
    method Move(r: nat, action: Action)
      requires Valid()
      modifies this`rings, this`log
      ensures Valid() && log == old(log) + [Other(r, action)]
      ensures AllSameForConsumer(old(rings), rings)
    {
      ghost var before := Abs();
      if r < |rings| {
        ActionLeaves(rings, r, action);
        rings := rings[r := ActOn(rings[r], action)];
      }
      Record(before, Other(r, action));
    }

    /** next() is under way on the ring pointed at. */
    ghost predicate InNext(stage: nat)
      reads this
    {
      && Valid()
      && pointer < |segmentIterators| && segmentIterators[pointer] < |rings|
      && var ring := rings[segmentIterators[pointer]];
         !Scanning(ring) && !Retired(ring) && Stage(ring) == stage
    }

    /** The ring pointed at. */
    function Current(): (ring: Ring)
      requires pointer < |segmentIterators| && segmentIterators[pointer] < |rings|
      reads this
    {
      rings[segmentIterators[pointer]]
    }

    /** One access of next to the ring pointed at. */
    method Put(ring': Ring)
      requires pointer < |segmentIterators| && segmentIterators[pointer] < |rings|
      requires InNext(Stage(Current())) && Inv(Abs())
      requires InBounds(Current()) && ring' == ConsumeOn(Current()) && !Scanning(ring')
      modifies this`rings, this`log
      ensures old(log) <= log && rings == old(rings)[segmentIterators[pointer] := ring']
      ensures InNext(Stage(ring')) && AllSameDeliveries(old(rings), rings)
    {
      ghost var before := Abs();
      ConsumerEffect(before);
      DeliveriesAgree(rings, rings[segmentIterators[pointer] := ring']);
      rings := rings[segmentIterators[pointer] := ring'];
      Record(before, Consumer);
    }

    /** What the ring pointed at is known to be. */
    lemma KnowsCurrent()
      requires Valid() && pointer < |segmentIterators| && segmentIterators[pointer] < |rings|
      ensures Inv(Abs()) && Reachable(Current()) && InBounds(Current())
    {
      Knows();
      assert RingInv(Abs(), segmentIterators[pointer]);
    }

    /** The others move between two accesses of next. */
    method Others(ghost stage: nat)
      requires InNext(stage)
      modifies this`rings, this`future, this`log
      ensures InNext(stage) && old(log) <= log
      ensures Inv(Abs()) && Reachable(Current()) && InBounds(Current())
      ensures AllSameDeliveries(old(rings), rings) && SameFields(old(Current()), Current())
    {
      Interfere();
      KnowsCurrent();
      DeliveriesAgree(old(rings), rings);
    }

    /** The stores of mark_prev_segment, one by one. */
    method ClearCounter()
      requires InNext(ANSWERED) && Inv(Abs())
      requires !IsDetached(Current()) && !PrevHeader(Current()).end && (Current().Latency? ==> PrevHeader(Current()).writeable)
      modifies this`rings, this`log
      ensures InNext(4) && old(log) <= log && AllSameDeliveries(old(rings), rings) && SameFields(old(Current()), Current())
    {
      var ring := Current();
      AccessesAreSteps(ring);
      Put(StorePrev(ring, PrevHeader(ring).(counter := 0)));
    }

    method ClearConsumable()
      requires InNext(4) && Inv(Abs())
      modifies this`rings, this`log
      ensures InNext(3) && old(log) <= log && AllSameDeliveries(old(rings), rings) && SameFields(old(Current()), Current())
    {
      var ring := Current();
      AccessesAreSteps(ring);
      Put(StorePrev(ring, PrevHeader(ring).SetConsumable(false)));
    }

    method SetWriteable()
      requires InNext(3) && Inv(Abs()) && Reachable(Current())
      modifies this`rings, this`log
      ensures pointer < |segmentIterators| && segmentIterators[pointer] < |rings|
      ensures InNext(if Current().Latency? then 2 else TAKING)
      ensures old(log) <= log && AllSameDeliveries(old(rings), rings)
      ensures SameFields(old(Current()), Current()) && GivenBack(Current())
    {
      var ring := Current();
      AccessesAreSteps(ring);
      PrevAtStage(ring);
      Put(StorePrev(ring, PrevHeader(ring).SetWriteable(true)));
    }

    method IncrementCounter()
      requires InNext(2) && Inv(Abs()) && Reachable(Current())
      modifies this`rings, this`log
      ensures InNext(TAKING) && old(log) <= log && AllSameDeliveries(old(rings), rings)
      ensures Current().Latency? && old(Current()).Latency? && Credit(Current()) == old(Credit(Current())) + 1
      ensures Iter(Current()) == old(Iter(Current())) && Prev(Current()) == old(Prev(Current())) && GivenBack(Current())
    {
      var ring := Current();
      AccessesAreSteps(ring);
      PrevAtStage(ring);
      Put(ReturnCredit(ring));
    }

    /** The last store, and the credit. */
    method HandBack()
      requires InNext(3)
      modifies this`rings, this`future, this`log
      ensures InNext(TAKING) && old(log) <= log && AllSameDeliveries(old(rings), rings)
      ensures var (ring, ring') := (old(Current()), Current());
              && ring'.Latency? == ring.Latency? && Iter(ring') == Iter(ring) && Prev(ring') == Prev(ring)
              && GivenBack(ring') && Credit(ring') == Credit(ring) + if ring.Latency? then 1 else 0
    {
      Others(3);
      SetWriteable();
      if Current().Latency? {
        CountReturn();
      }
    }

    /** The credit, others moving first. */
    method CountReturn()
      requires InNext(2)
      modifies this`rings, this`future, this`log
      ensures InNext(TAKING) && old(log) <= log && AllSameDeliveries(old(rings), rings)
      ensures var (ring, ring') := (old(Current()), Current());
              && ring'.Latency? && ring.Latency? && Iter(ring') == Iter(ring) && Prev(ring') == Prev(ring)
              && GivenBack(ring') && Credit(ring') == Credit(ring) + 1
    {
      Others(2);
      IncrementCounter();
    }

    method ReturnNothing()
      requires InNext(ANSWERED) && Inv(Abs()) && IsDetached(Current())
      modifies this`rings, this`log
      ensures InNext(TAKING) && old(log) <= log && AllSameDeliveries(old(rings), rings)
      ensures ReleasedPrev(old(Current()), Current())
    {
      var ring := Current();
      AccessesAreSteps(ring);
      Put(NothingToReturn(ring));
    }

    method ReturnSegment()
      requires InNext(ANSWERED) && Inv(Abs())
      requires !IsDetached(Current()) && !PrevHeader(Current()).end && (Current().Latency? ==> PrevHeader(Current()).writeable)
      modifies this`rings, this`future, this`log
      ensures InNext(TAKING) && old(log) <= log && AllSameDeliveries(old(rings), rings)
      ensures ReleasedPrev(old(Current()), Current())
    {
      ClearCounter();
      Others(4);
      ClearConsumable();
      HandBack();
    }

    /** Gives the segment next() returned last on this ring back to its writer: counter, consumable, writeable, and for a
        latency ring the credit, each its own store. The detached end iterator has nothing to give back; any other prev
        has, so the source's guards are never false. */
    method MarkPrevSegment()
      requires InNext(ANSWERED)
      modifies this`rings, this`future, this`log
      ensures InNext(TAKING) && old(log) <= log && AllSameDeliveries(old(rings), rings)
      ensures ReleasedPrev(old(Current()), Current())
    {
      KnowsCurrent();
      var ring := Current();
      if IsDetached(ring) {
        ReturnNothing();
      } else {
        PrevAtStage(ring);
        if !PrevHeader(ring).end && (ring.Latency? ==> PrevHeader(ring).writeable) {
          ReturnSegment();
        }
      }
    }

    /** The take: payload and counter of iter, prev to iter, iter to its link, the pointer to the next ring. */
    method Take() returns (data: seq<byte>)
      requires InNext(TAKING) && Inv(Abs())
      modifies this`rings, this`log, this`pointer, this`served
      ensures Valid() && NotInNext(Abs()) && old(log) <= log && pointer == old(pointer) + 1
      ensures served == old(served) + [segmentIterators[old(pointer)]]
      ensures Taken(old(rings), rings, segmentIterators[old(pointer)], data)
      ensures segmentIterators[old(pointer)] < |rings| && MovedOn(old(Current()), rings[segmentIterators[old(pointer)]], data)
    {
      ghost var before := Abs();
      ConsumerEffect(before);
      AllScanning(before);
      var r := segmentIterators[pointer];
      AccessesAreSteps(rings[r]);
      var segment := IterSegment(rings[r]);
      data := segment.data[..segment.h.counter];
      TakenAt(rings, r, Advance(rings[r], data, segment.h.next), data);
      rings := rings[r := Advance(rings[r], data, segment.h.next)];
      pointer := pointer + 1;
      served := served + [r];
      Record(before, Consumer);
    }

    /** Returns the payload of the segment has_next has found, after giving the one before it back, and goes to the next ring.
        On that ring it is the next piece of the stream; nothing is delivered from any other. */
    method Next() returns (data: seq<byte>)
      requires InNext(ANSWERED)
      modifies this`rings, this`future, this`log, this`pointer, this`served
      ensures Valid() && NotInNext(Abs()) && old(log) <= log && pointer == old(pointer) + 1
      ensures served == old(served) + [segmentIterators[old(pointer)]]
      ensures TakenInOrder(old(rings), rings, segmentIterators[old(pointer)], data)
    {
      MarkPrevSegment();
      Others(TAKING);
      data := Take();
      Knows();
      InvDelivers(Abs());
    }

    // has_next, one turn of its loop

    /** The fields after a step of has_next. */
    method Commit(rings': seq<Ring>, segmentIterators': seq<nat>, pointer': nat)
      requires Valid() && WellFormed(Abs())
      requires Step(Abs(), Consumer) == System(rings', segmentIterators', pointer', served)
      modifies this`rings, this`segmentIterators, this`pointer, this`log
      ensures Valid() && old(log) <= log
      ensures rings == rings' && segmentIterators == segmentIterators' && pointer == pointer'
    {
      ghost var before := Abs();
      rings, segmentIterators, pointer := rings', segmentIterators', pointer';
      Record(before, Consumer);
    }

    method Erase(i: nat)
      requires Valid() && Inv(Abs()) && NotInNext(Abs()) && segmentIterators != [] && i == Position(Abs())
      requires Scanning(CurrentRing(Abs())) && AtEnd(CurrentRing(Abs()))
      modifies this`rings, this`segmentIterators, this`pointer, this`log
      ensures Valid() && NotInNext(Abs()) && old(log) <= log
      ensures AllSameDeliveries(old(rings), rings)
      ensures segmentIterators == old(segmentIterators[..i] + segmentIterators[i + 1..])
    {
      ghost var after := EraseStep(Abs());
      var r := segmentIterators[i];
      Commit(rings[r := Scanned(rings[r])], segmentIterators[..i] + segmentIterators[i + 1..], i);
    }

    method PassBy(i: nat, ghost idle: nat)
      requires Valid() && Inv(Abs()) && NotInNext(Abs()) && segmentIterators != [] && i == Position(Abs())
      requires Scanning(CurrentRing(Abs())) && !AtEnd(CurrentRing(Abs())) && !IterSegment(CurrentRing(Abs())).h.consumable
      requires Passed(Abs(), idle)
      modifies this`rings, this`segmentIterators, this`pointer, this`log
      ensures Valid() && NotInNext(Abs()) && old(log) <= log
      ensures rings == old(rings) && segmentIterators == old(segmentIterators)
      ensures pointer == i + 1 && Passed(Abs(), idle + 1)
    {
      CurrentIsOpen(Abs());
      PassedAnother(Abs(), idle);
      ScanStep(Abs());
      ScanStepKeeps(Abs());
      Commit(rings, segmentIterators, i + 1);
    }

    /** Stays at the ring; a second has_next before the call to next finds the same. */
    method StayAt(i: nat)
      requires Valid() && Inv(Abs()) && NotInNext(Abs()) && segmentIterators != [] && i == Position(Abs())
      requires !AtEnd(CurrentRing(Abs())) && IterSegment(CurrentRing(Abs())).h.consumable
      requires Scanning(CurrentRing(Abs())) || Stage(CurrentRing(Abs())) == ANSWERED
      modifies this`rings, this`segmentIterators, this`pointer, this`log
      ensures Valid() && NotInNext(Abs()) && old(log) <= log && AllSameDeliveries(old(rings), rings)
      ensures segmentIterators == old(segmentIterators) && pointer == i
      ensures InNext(ANSWERED) && Waiting(rings[segmentIterators[i]])
    {
      var r := segmentIterators[i];
      CurrentIsOpen(Abs());
      if Scanning(rings[r]) {
        ScanStep(Abs());
        Commit(rings[r := Scanned(rings[r])], segmentIterators, i);
      } else {
        OnlyAtPointer(Abs());
      }
    }

    /** The tests on the ring at the pointer. */
    method Turn(idle: nat) returns (found: bool, idle': nat)
      requires Valid() && Inv(Abs()) && NotInNext(Abs()) && segmentIterators != [] && Passed(Abs(), idle)
      modifies this`rings, this`log, this`pointer, this`segmentIterators
      ensures Valid() && NotInNext(Abs()) && old(log) <= log && AllSameDeliveries(old(rings), rings)
      ensures found ==> segmentIterators != [] && InNext(ANSWERED) && Waiting(rings[segmentIterators[pointer]])
      ensures !found && |segmentIterators| == old(|segmentIterators|) ==> idle' == idle + 1 && Passed(Abs(), idle')
      ensures !found && |segmentIterators| != old(|segmentIterators|) ==> idle' == 0 && |segmentIterators| < old(|segmentIterators|)
    {
      var i := if pointer == |segmentIterators| then 0 else pointer;
      var ring := rings[segmentIterators[i]];
      CurrentIsOpen(Abs());
      found, idle' := false, 0;
      if !AtEnd(ring) {
        if !IterSegment(ring).h.consumable {
          PassBy(i, idle);
          idle' := idle + 1;
        } else {
          StayAt(i);
          found := true;
        }
      } else {
        Erase(i);
      }
    }

    /** The others move between two looks at a ring. */
    method Look()
      requires Valid() && NotInNext(Abs()) && future != []
      modifies this`rings, this`future, this`log
      ensures Valid() && NotInNext(Abs()) && Inv(Abs()) && old(log) <= log && AllSameDeliveries(old(rings), rings)
      ensures future == old(future)[1..]
    {
      Interfere();
      Knows();
      DeliveriesAgree(old(rings), rings);
    }

    /** Moves to the next ring with a consumable segment, erasing rings that are over. It answers no exactly when every ring has
        been erased, and then everything put into every ring has been delivered; while it spins, nothing is due anywhere. */
    method HasNext() returns (answer: Answer)
      requires Valid() && NotInNext(Abs())
      modifies this`rings, this`future, this`log, this`pointer, this`segmentIterators
      ensures Valid() && NotInNext(Abs()) && old(log) <= log && AllSameDeliveries(old(rings), rings)
      ensures answer == Yes ==> InNext(ANSWERED) && Waiting(rings[segmentIterators[pointer]])
      ensures answer == No <==> segmentIterators == []
      ensures answer == No ==> AllDelivered(rings)
      ensures answer == Spinning ==> future == [] && NothingDue(Abs())
    {
      var idle: nat := 0;
      PassedNone(Abs());
      while segmentIterators != []
        invariant Valid() && NotInNext(Abs()) && old(log) <= log && AllSameDeliveries(old(rings), rings)
        invariant idle <= |segmentIterators| && (future == [] ==> Passed(Abs(), idle))
        decreases |segmentIterators|, |future|, |segmentIterators| - idle
      {
        Knows();
        if future == [] && idle == |segmentIterators| {
          PassedAll(Abs());
          return Spinning;
        }
        if future != [] {
          idle := 0;
          Look();
          PassedNone(Abs());
        }
        var found;
        found, idle := Turn(idle);
        if found {
          return Yes;
        }
        PassedNone(Abs());
      }
      Knows();
      InvDelivers(Abs());
      answer := No;
    }

    /** One call to next has been served, by the ring before the pointer: the data is the next piece of its stream. */
    ghost predicate ServedNext(ringsBefore: seq<Ring>, servedBefore: seq<nat>, data: seq<byte>)
      reads this
    {
      && 0 < pointer <= |segmentIterators|
      && served == servedBefore + [segmentIterators[pointer - 1]]
      && TakenInOrder(ringsBefore, rings, segmentIterators[pointer - 1], data)
    }

    /** next, after has_next has found a segment. */
    method NextSince(ghost before: seq<Ring>) returns (data: seq<byte>)
      requires InNext(ANSWERED) && AllSameDeliveries(before, rings)
      modifies this`rings, this`future, this`log, this`pointer, this`served
      ensures Valid() && NotInNext(Abs()) && old(log) <= log
      ensures ServedNext(before, old(served), data)
    {
      ghost var found := rings;
      data := Next();
      TakenSince(before, found, rings, segmentIterators[pointer - 1], data);
    }

    /** has_next and next in one call. It answers yes with one delivery from the ring before the pointer, no exactly when every ring has
        been erased, and spins only while nothing is due anywhere; so a ring with something to deliver forces a delivery. */
    method WaitForNext() returns (answer: Answer, data: seq<byte>)
      requires Valid() && NotInNext(Abs())
      modifies this`rings, this`future, this`log, this`pointer, this`segmentIterators, this`served
      ensures Valid() && NotInNext(Abs()) && old(log) <= log
      ensures answer == Yes ==> ServedNext(old(rings), old(served), data)
      ensures answer != Yes ==> data == [] && served == old(served) && AllSameDeliveries(old(rings), rings)
      ensures answer == No <==> segmentIterators == []
      ensures answer == No ==> AllDelivered(rings)
      ensures answer == Spinning ==> future == [] && NothingDue(Abs())
    {
      answer := HasNext();
      if answer == Yes {
        data := NextSince(old(rings));
      } else {
        data := [];
      }
    }
  }
}
