/**
 One consumer over the rings of a buffer: BufferIterator's list of segment iterators and the pointer that goes around it.

 Every ring runs its own protocol with its own writer and network; the consumer takes the protocol's consumer steps on
 the ring it points at. A schedule interleaves the consumer with steps of all writers and networks in any way.
 */
module RoundRobin {
  import opened Util
  import Bw = BwProtocol
  import BwInv = BwInvariant
  import BwTh = BwTheorems
  import Lat = LatProtocol
  import LatInv = LatInvariant
  import LatPr = LatProgress

  datatype Ring = Bandwidth(p: Bw.Params, b: Bw.State) | Latency(q: Lat.Params, l: Lat.State)

  datatype Action = BwAction(bw: Bw.Step) | LatAction(lat: Lat.Step)

  // ---------------------------------------------------------------- one ring

  ghost predicate InBounds(ring: Ring) {
    match ring
    case Bandwidth(p, b) => Bw.InBounds(p, b)
    case Latency(q, l) => Lat.InBounds(q, l)
  }

  /** A fresh ring of at least two segments. */
  ghost predicate Fresh(ring: Ring) {
    match ring
    case Bandwidth(p, b) => p.Valid() && p.n > 1 && b == Bw.Init(p)
    case Latency(q, l) => q.Valid() && q.n > 1 && l == Lat.Init(q)
  }

  /** Some schedule of its protocol has led the ring here. */
  ghost predicate Reachable(ring: Ring) {
    match ring
    case Bandwidth(p, b) => p.Valid() && p.n > 1 && exists schedule :: b == BwTh.After(p, schedule)
    case Latency(q, l) => q.Valid() && q.n > 1 && exists schedule :: l == LatPr.After(q, schedule)
  }

  function ConsumeOn(ring: Ring): (ring': Ring)
    requires InBounds(ring)
    ensures InBounds(ring')
  {
    match ring
    case Bandwidth(p, b) => Bandwidth(p, Bw.Apply(p, b, Bw.Consume))
    case Latency(q, l) => Latency(q, Lat.Apply(q, l, Lat.Consume))
  }

  /** A step of the ring's writer or network; the consumer's steps are not theirs to take. */
  function ActOn(ring: Ring, action: Action): (ring': Ring)
    requires InBounds(ring)
    ensures InBounds(ring')
  {
    match (ring, action)
    case (Bandwidth(p, b), BwAction(step)) => if step == Bw.Consume then ring else Bandwidth(p, Bw.Apply(p, b, step))
    case (Latency(q, l), LatAction(step)) => if step == Lat.Consume then ring else Latency(q, Lat.Apply(q, l, step))
    case _ => ring
  }

  /** Whether the consumer is between calls to next on this ring, and where the ring's run is over for it. */
  predicate Scanning(ring: Ring) {
    match ring
    case Bandwidth(_, b) => b.r.cpc == Bw.Scanning
    case Latency(_, l) => l.r.cpc == Lat.Scanning
  }

  predicate Retired(ring: Ring) {
    match ring
    case Bandwidth(_, b) => b.r.cpc == Bw.Retired
    case Latency(_, l) => l.r.cpc == Lat.Retired
  }

  function Delivered(ring: Ring): (pieces: seq<seq<byte>>) {
    match ring
    case Bandwidth(_, b) => b.r.delivered
    case Latency(_, l) => l.r.delivered
  }

  /** There is something to deliver. */
  predicate Waiting(ring: Ring) {
    match ring
    case Bandwidth(_, b) => |b.r.delivered| < |b.r.published|
    case Latency(_, l) => |l.r.delivered| < l.r.landed
  }

  /** There is something to deliver, or the end mark has landed: has_next will not pass this ring by. */
  predicate Due(ring: Ring) {
    match ring
    case Bandwidth(_, b) => Waiting(ring) || BwInv.Ended(b)
    case Latency(_, l) => Waiting(ring) || LatInv.Stamped(l)
  }

  /** At most how many consumer steps the ring takes until it has been served, counting from Scanning. */
  function Stage(ring: Ring): (k: nat)
    ensures 0 < k <= 6
  {
    match ring
    case Bandwidth(_, b) =>
      (match b.r.cpc
       case Scanning => 6
       case ZeroCounter => 5
       case ClearConsumable => 4
       case SetWriteable => 3
       case Taking => 1
       case Retired => 1)
    case Latency(_, l) =>
      (match l.r.cpc
       case Scanning => 6
       case ZeroCounter => 5
       case ClearConsumable => 4
       case SetWriteable => 3
       case ReturnCredit => 2
       case Taking => 1
       case Retired => 1)
  }

  lemma ReachableInv(ring: Ring)
    requires Reachable(ring)
    ensures InBounds(ring)
    ensures ring.Bandwidth? ==> BwInv.Inv(ring.p, ring.b) && BwInv.Fits(ring.p, ring.b)
    ensures ring.Latency? ==> LatInv.Inv(ring.q, ring.l)
  {
    match ring {
      case Bandwidth(p, b) =>
        var schedule :| b == BwTh.After(p, schedule);
        BwTh.AfterInv(p, schedule);
      case Latency(q, l) =>
        var schedule :| l == LatPr.After(q, schedule);
        LatPr.AfterInv(q, schedule);
    }
  }

  lemma FreshIsReachable(ring: Ring)
    requires Fresh(ring)
    ensures Reachable(ring) && Scanning(ring) && Delivered(ring) == []
  {
    match ring {
      case Bandwidth(p, b) => assert b == BwTh.After(p, []);
      case Latency(q, l) => assert l == LatPr.After(q, []);
    }
  }

  lemma ConsumeReaches(ring: Ring)
    requires Reachable(ring) && InBounds(ring)
    ensures Reachable(ConsumeOn(ring))
  {
    match ring {
      case Bandwidth(p, b) =>
        var schedule :| b == BwTh.After(p, schedule);
        Bw.RunSnoc(p, Bw.Init(p), schedule, Bw.Consume);
        assert ConsumeOn(ring).b == BwTh.After(p, schedule + [Bw.Consume]);
      case Latency(q, l) =>
        var schedule :| l == LatPr.After(q, schedule);
        Lat.RunSnoc(q, Lat.Init(q), schedule, Lat.Consume);
        assert ConsumeOn(ring).l == LatPr.After(q, schedule + [Lat.Consume]);
    }
  }

  lemma ActionReaches(ring: Ring, action: Action)
    requires Reachable(ring) && InBounds(ring)
    ensures Reachable(ActOn(ring, action))
  {
    match (ring, action) {
      case (Bandwidth(p, b), BwAction(step)) =>
        var schedule :| b == BwTh.After(p, schedule);
        if step != Bw.Consume {
          Bw.RunSnoc(p, Bw.Init(p), schedule, step);
          assert ActOn(ring, action).b == BwTh.After(p, schedule + [step]);
        }
      case (Latency(q, l), LatAction(step)) =>
        var schedule :| l == LatPr.After(q, schedule);
        if step != Lat.Consume {
          Lat.RunSnoc(q, Lat.Init(q), schedule, step);
          assert ActOn(ring, action).l == LatPr.After(q, schedule + [step]);
        }
      case _ =>
    }
  }

  /** A writer or network moves nothing on the consumer's side, and a ring that is due stays due. */
  lemma ActionEffect(ring: Ring, action: Action)
    requires InBounds(ring)
    ensures var ring' := ActOn(ring, action);
            && Stage(ring') == Stage(ring) && Scanning(ring') == Scanning(ring) && Retired(ring') == Retired(ring)
            && Delivered(ring') == Delivered(ring)
            && (Due(ring) ==> Due(ring')) && (Waiting(ring) ==> Waiting(ring'))
  {
  }

  /** What the consumer's step does to a ring: a scan passes the ring by only if it is not due, and retires it only if
      nothing waits in it; a call to next, once begun, ends with one delivery. */
  predicate ConsumesProperly(ring: Ring, ring': Ring) {
    if Scanning(ring) then
      && Delivered(ring') == Delivered(ring)
      && (Waiting(ring) <==> Due(ring) && !Retired(ring'))
      && (if Due(ring) then !Scanning(ring') && Stage(ring') < 6 && (!Retired(ring') ==> Waiting(ring')) else ring' == ring)
    else if Scanning(ring') then |Delivered(ring')| == |Delivered(ring)| + 1
    else !Retired(ring') && Stage(ring') < Stage(ring) && Delivered(ring') == Delivered(ring) && Waiting(ring')
  }

  lemma BwConsumeEffect(p: Bw.Params, b: Bw.State)
    requires BwInv.Inv(p, b) && b.r.cpc != Bw.Retired
    ensures ConsumesProperly(Bandwidth(p, b), ConsumeOn(Bandwidth(p, b)))
  {
    if b.r.cpc == Bw.Scanning {
      BwInv.ConsumableMeansPublished(p, b);
    }
  }

  lemma LatConsumeEffect(q: Lat.Params, l: Lat.State)
    requires LatInv.Inv(q, l) && l.r.cpc != Lat.Retired
    ensures ConsumesProperly(Latency(q, l), ConsumeOn(Latency(q, l)))
  {
    if l.r.cpc == Lat.Scanning {
      LatInv.ConsumableMeansLanded(q, l);
    }
  }

  lemma ConsumeEffect(ring: Ring)
    requires Reachable(ring) && InBounds(ring) && !Retired(ring)
    ensures ConsumesProperly(ring, ConsumeOn(ring))
  {
    ReachableInv(ring);
    match ring {
      case Bandwidth(p, b) => BwConsumeEffect(p, b);
      case Latency(q, l) => LatConsumeEffect(q, l);
    }
  }

  // ---------------------------------------------------------------- the iterator over all rings

  /** `live` is segment_iterators, `pointer` is pointer_to_iter with |live| for its end; `served` is history: the ring
      each call to next was served from. */
  datatype System = System(rings: seq<Ring>, live: seq<nat>, pointer: nat, served: seq<nat>)

  datatype Event = Other(ring: nat, action: Action) | Consumer

  ghost predicate WellFormed(s: System) {
    && (forall r :: 0 <= r < |s.rings| ==> InBounds(s.rings[r]))
    && (forall i :: 0 <= i < |s.live| ==> s.live[i] < |s.rings|)
    && s.pointer <= |s.live|
  }

  function Start(rings: seq<Ring>): (s: System) {
    System(rings, seq(|rings|, r requires 0 <= r < |rings| => r), 0, [])
  }

  /** pointer_to_iter, wrapped around. */
  function Position(s: System): (k: nat) {
    if s.pointer == |s.live| then 0 else s.pointer
  }

  /** The consumer's next step: in has_next, erase the ring if its end mark has been reached, go to the next ring if there is nothing
      to consume, or stay and begin next(); in next(), one store, or the take, after which it goes to the next ring. */
  function ConsumerStep(s: System): (s': System)
    requires WellFormed(s)
    ensures WellFormed(s')
  {
    if s.live == [] then s
    else
      var i := Position(s);
      var r := s.live[i];
      var ring' := ConsumeOn(s.rings[r]);
      var s' := s.(rings := s.rings[r := ring'], pointer := i);
      if !Scanning(s.rings[r]) then
        if Scanning(ring') then s'.(pointer := i + 1, served := s.served + [r]) else s'
      else if Retired(ring') then s'.(live := s.live[..i] + s.live[i + 1..])
      else if Scanning(ring') then s'.(pointer := i + 1)
      else s'
  }

  function Step(s: System, e: Event): (s': System)
    requires WellFormed(s)
    ensures WellFormed(s')
  {
    match e
    case Other(r, action) => if r < |s.rings| then s.(rings := s.rings[r := ActOn(s.rings[r], action)]) else s
    case Consumer => ConsumerStep(s)
  }

  function Run(s: System, events: seq<Event>): (s': System)
    requires WellFormed(s)
    ensures WellFormed(s')
  {
    if events == [] then s else Step(Run(s, events[..|events| - 1]), events[|events| - 1])
  }

  lemma RunSnoc(s: System, events: seq<Event>, e: Event)
    requires WellFormed(s)
    ensures Run(s, events + [e]) == Step(Run(s, events), e)
  {
    assert (events + [e])[..|events|] == events;
  }

  lemma {:induction false} RunAppend(s: System, first: seq<Event>, second: seq<Event>)
    requires WellFormed(s)
    ensures Run(s, first + second) == Run(Run(s, first), second)
  {
    if second == [] {
      assert first + second == first;
    } else {
      var k := |second| - 1;
      assert first + second == (first + second[..k]) + [second[k]];
      RunSnoc(s, first + second[..k], second[k]);
      RunAppend(s, first, second[..k]);
    }
  }

  // ---------------------------------------------------------------- what every run keeps

  ghost predicate Ordered(live: seq<nat>) {
    forall i, j :: 0 <= i < j < |live| ==> live[i] < live[j]
  }

  /** The list holds exactly the rings not retired, in order; next() is under way on none but the ring pointed at; and
      every delivery of a ring is one call of next. */
  ghost predicate RingInv(s: System, r: nat)
    requires WellFormed(s) && r < |s.rings|
  {
    var ring := s.rings[r];
    && Reachable(ring)
    && (Retired(ring) <==> r !in s.live)
    && (Scanning(ring) || Retired(ring) || (s.pointer < |s.live| && s.live[s.pointer] == r && Waiting(ring)))
    && multiset(s.served)[r] == |Delivered(ring)|
  }

  ghost predicate Inv(s: System) {
    && WellFormed(s)
    && Ordered(s.live)
    && forall r :: 0 <= r < |s.rings| ==> RingInv(s, r)
  }

  lemma StartInv(rings: seq<Ring>)
    requires forall r :: 0 <= r < |rings| ==> Fresh(rings[r])
    ensures Inv(Start(rings))
  {
    var s := Start(rings);
    forall r | 0 <= r < |rings|
      ensures InBounds(rings[r]) && Reachable(rings[r]) && Scanning(rings[r]) && Delivered(rings[r]) == [] && r in s.live
    {
      FreshIsReachable(rings[r]);
      ReachableInv(rings[r]);
      assert s.live[r] == r;
    }
  }

  lemma ActedRingInv(s: System, r: nat, action: Action)
    requires WellFormed(s) && r < |s.rings| && RingInv(s, r)
    ensures RingInv(Step(s, Other(r, action)), r)
  {
    ActionReaches(s.rings[r], action);
    ActionEffect(s.rings[r], action);
  }

  lemma RingUntouched(s: System, s': System, q: nat)
    requires WellFormed(s) && WellFormed(s') && q < |s.rings| == |s'.rings| && RingInv(s, q)
    requires s' == s.(rings := s'.rings) && s'.rings[q] == s.rings[q]
    ensures RingInv(s', q)
  {
  }

  lemma OtherInv(s: System, r: nat, action: Action)
    requires Inv(s)
    ensures Inv(Step(s, Other(r, action)))
  {
    var s' := Step(s, Other(r, action));
    if r < |s.rings| {
      forall q | 0 <= q < |s'.rings|
        ensures RingInv(s', q)
      {
        assert RingInv(s, q);
        if q == r {
          ActedRingInv(s, r, action);
        } else {
          RingUntouched(s, s', q);
        }
      }
    }
  }

  lemma ErasedRing(live: seq<nat>, i: nat)
    requires Ordered(live) && i < |live|
    ensures var live' := live[..i] + live[i + 1..];
            && Ordered(live') && live[i] !in live'
            && (forall r :: r != live[i] ==> (r in live <==> r in live'))
  {
    var live' := live[..i] + live[i + 1..];
    forall r | r != live[i] && r in live
      ensures r in live'
    {
      var j :| 0 <= j < |live| && live[j] == r;
      assert r == live'[if j < i then j else j - 1];
    }
  }

  lemma ConsumedRingInv(s: System)
    requires Inv(s) && s.live != []
    ensures RingInv(Step(s, Consumer), s.live[Position(s)])
  {
    var r := s.live[Position(s)];
    assert RingInv(s, r);
    ConsumeReaches(s.rings[r]);
    ConsumeEffect(s.rings[r]);
    ErasedRing(s.live, Position(s));
  }

  /** A ring next() is not under way on, and which nobody has touched. */
  lemma RingInvFrame(s: System, s': System, q: nat)
    requires WellFormed(s) && WellFormed(s') && q < |s.rings| == |s'.rings| && RingInv(s, q)
    requires s'.rings[q] == s.rings[q] && (q in s.live <==> q in s'.live)
    requires multiset(s'.served)[q] == multiset(s.served)[q]
    requires s.pointer < |s.live| ==> s.live[s.pointer] != q
    ensures RingInv(s', q)
  {
  }

  /** What the consumer's step leaves alone. */
  lemma OthersUntouched(s: System, q: nat)
    requires WellFormed(s) && Ordered(s.live) && s.live != [] && q < |s.rings| && q != s.live[Position(s)]
    ensures var s' := Step(s, Consumer);
            && |s'.rings| == |s.rings| && s'.rings[q] == s.rings[q] && (q in s.live <==> q in s'.live)
            && multiset(s'.served)[q] == multiset(s.served)[q]
  {
    ErasedRing(s.live, Position(s));
  }

  lemma OtherRingInv(s: System, q: nat)
    requires Inv(s) && s.live != [] && q < |s.rings| && q != s.live[Position(s)]
    ensures RingInv(Step(s, Consumer), q)
  {
    assert RingInv(s, q);
    OthersUntouched(s, q);
    RingInvFrame(s, Step(s, Consumer), q);
  }

  lemma ConsumerInv(s: System)
    requires Inv(s)
    ensures Inv(Step(s, Consumer))
  {
    var s' := Step(s, Consumer);
    if s.live != [] {
      ErasedRing(s.live, Position(s));
      forall q | 0 <= q < |s'.rings|
        ensures RingInv(s', q)
      {
        if q == s.live[Position(s)] {
          ConsumedRingInv(s);
        } else {
          OtherRingInv(s, q);
        }
      }
    }
  }

  lemma {:induction false} RunInv(s: System, events: seq<Event>)
    requires Inv(s)
    ensures Inv(Run(s, events))
  {
    if events != [] {
      var k := |events| - 1;
      RunInv(s, events[..k]);
      var before := Run(s, events[..k]);
      match events[k] {
        case Other(r, action) => OtherInv(before, r, action);
        case Consumer => ConsumerInv(before);
      }
    }
  }
}
