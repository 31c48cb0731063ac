/**
 Draining a whole buffer is inevitable: once all writers have called close and every writer, every network and the one consumer have
 had their turn often enough, has_next answers false and everything has been delivered.
 */
module RoundRobinInevitable {
  import opened Util
  import Bw = BwProtocol
  import BwInv = BwInvariant
  import BwPr = BwProgress
  import BwIn = BwInevitable
  import Lat = LatProtocol
  import LatInv = LatInvariant
  import LatPr = LatProgress
  import opened RoundRobin
  import opened RoundRobinTheorems

  // ---------------------------------------------------------------- one ring

  /** The ring but for the header copy a failed poll has read. */
  predicate SameRing(ring: Ring, ring': Ring) {
    match (ring, ring')
    case (Bandwidth(p, b), Bandwidth(p', b')) => p == p' && BwIn.SameButHeader(b, b')
    case (Latency(q, l), Latency(q', l')) => q == q' && l == l'
    case _ => false
  }

  predicate UsefulAction(ring: Ring, action: Action)
    requires InBounds(ring)
  {
    match (ring, action)
    case (Bandwidth(p, b), BwAction(step)) => step in {Bw.Write, Bw.Land} && BwPr.Useful(p, b, step)
    case (Latency(q, l), LatAction(step)) => step in {Lat.Write, Lat.Land} && LatPr.Useful(q, l, step)
    case _ => false
  }

  predicate UsefulConsume(ring: Ring)
    requires InBounds(ring)
  {
    match ring
    case Bandwidth(p, b) => BwPr.Useful(p, b, Bw.Consume)
    case Latency(q, l) => LatPr.Useful(q, l, Lat.Consume)
  }

  function WriteOf(ring: Ring): (action: Action) {
    if ring.Bandwidth? then BwAction(Bw.Write) else LatAction(Lat.Write)
  }

  function LandOf(ring: Ring): (action: Action) {
    if ring.Bandwidth? then BwAction(Bw.Land) else LatAction(Lat.Land)
  }

  /** What a step does to a ring: less work if the step is useful, nothing if it is not. */
  ghost predicate StepDone(ring: Ring, ring': Ring, useful: bool) {
    && Reachable(ring') && SameCalls(ring, ring') && (Closing(ring) ==> Closing(ring'))
    && Cost(ring') <= Cost(ring) - (if useful then 1 else 0)
    && (!useful ==> SameRing(ring, ring'))
  }

  lemma BwStepDone(p: Bw.Params, b: Bw.State, step: Bw.Step)
    requires BwInv.Inv(p, b) && step in {Bw.Write, Bw.Land, Bw.Consume} && Reachable(Bandwidth(p, Bw.Apply(p, b, step)))
    ensures StepDone(Bandwidth(p, b), Bandwidth(p, Bw.Apply(p, b, step)), BwPr.Useful(p, b, step))
  {
    BwPr.StepMeasure(p, b, step);
    if !BwPr.Useful(p, b, step) {
      BwPr.UselessChangesNothing(p, b, step);
    }
  }

  lemma LatStepDone(q: Lat.Params, l: Lat.State, step: Lat.Step)
    requires LatInv.Inv(q, l) && step in {Lat.Write, Lat.Land, Lat.Consume} && Reachable(Latency(q, Lat.Apply(q, l, step)))
    ensures StepDone(Latency(q, l), Latency(q, Lat.Apply(q, l, step)), LatPr.Useful(q, l, step))
  {
    LatPr.StepMeasure(q, l, step);
    if !LatPr.Useful(q, l, step) {
      LatPr.UselessChangesNothing(q, l, step);
    }
  }

  lemma ActionDone(ring: Ring, action: Action)
    requires Reachable(ring) && InBounds(ring) && IsWork(action)
    ensures StepDone(ring, ActOn(ring, action), UsefulAction(ring, action))
  {
    ReachableInv(ring);
    ActionReaches(ring, action);
    match (ring, action) {
      case (Bandwidth(p, b), BwAction(step)) => BwStepDone(p, b, step);
      case (Latency(q, l), LatAction(step)) => LatStepDone(q, l, step);
      case _ =>
    }
  }

  lemma ConsumeDone(ring: Ring)
    requires Reachable(ring) && InBounds(ring)
    ensures StepDone(ring, ConsumeOn(ring), UsefulConsume(ring))
  {
    ReachableInv(ring);
    ConsumeReaches(ring);
    match ring {
      case Bandwidth(p, b) => BwStepDone(p, b, Bw.Consume);
      case Latency(q, l) => LatStepDone(q, l, Lat.Consume);
    }
  }

  /** A ring that is the same has the same useful steps. */
  lemma SameRingSameUse(ring: Ring, ring': Ring)
    requires InBounds(ring) && InBounds(ring') && SameRing(ring, ring')
    ensures forall action :: UsefulAction(ring', action) == UsefulAction(ring, action)
    ensures UsefulConsume(ring') == UsefulConsume(ring) && Cost(ring') == Cost(ring)
  {
    if ring.Bandwidth? {
      BwIn.SameUse(ring.p, ring.b, ring'.b);
    }
  }

  /** A closed ring whose writer and network have nothing to do is the consumer's turn, until it is retired. */
  lemma ConsumersTurn(ring: Ring)
    requires Reachable(ring) && InBounds(ring) && Closing(ring) && !Retired(ring)
    requires !UsefulAction(ring, WriteOf(ring)) && !UsefulAction(ring, LandOf(ring))
    ensures UsefulConsume(ring)
  {
    ReachableInv(ring);
    match ring {
      case Bandwidth(p, b) => BwPr.NoDeadlock(p, b);
      case Latency(q, l) => LatPr.NoDeadlock(q, l);
    }
  }

  // ---------------------------------------------------------------- the system

  predicate Works(events: seq<Event>) {
    forall i :: 0 <= i < |events| ==> events[i].Consumer? || IsWork(events[i].action)
  }

  /** A round gives the consumer, and the writer and the network of every ring, at least one turn, in any order. */
  predicate IsRound(rings: seq<Ring>, events: seq<Event>) {
    && Works(events) && Consumer in events
    && forall r :: 0 <= r < |rings| ==> Other(r, WriteOf(rings[r])) in events && Other(r, LandOf(rings[r])) in events
  }

  predicate SameRings(s: System, t: System) {
    |s.rings| == |t.rings| && t.live == s.live && forall r :: 0 <= r < |s.rings| ==> SameRing(s.rings[r], t.rings[r])
  }

  /** The event finds nothing to do in s, wherever the pointer is. */
  ghost predicate Idle(s: System, e: Event)
    requires WellFormed(s)
  {
    match e
    case Other(r, action) => r < |s.rings| ==> !UsefulAction(s.rings[r], action)
    case Consumer => s.live == [] || exists i :: 0 <= i < |s.live| && !UsefulConsume(s.rings[s.live[i]])
  }

  ghost predicate Progress(s: System, events: seq<Event>, t: System)
    requires WellFormed(s)
  {
    && Inv(t) && AllClosing(t) && AllSameCalls(s, t) && TotalCost(t.rings) <= TotalCost(s.rings)
    && (|| TotalCost(t.rings) < TotalCost(s.rings)
        || (SameRings(s, t) && forall i :: 0 <= i < |events| ==> Idle(s, events[i])))
  }

  /** One event, on the ring it concerns. */
  ghost predicate EventDone(t: System, t': System, useful: bool) {
    && Inv(t') && AllClosing(t') && AllSameCalls(t, t')
    && TotalCost(t'.rings) <= TotalCost(t.rings) - (if useful then 1 else 0)
    && (!useful ==> SameRings(t, t'))
  }

  lemma OneRingDone(t: System, t': System, r: nat, useful: bool)
    requires Inv(t) && AllClosing(t) && Inv(t') && r < |t.rings| == |t'.rings|
    requires t'.rings == t.rings[r := t'.rings[r]] && StepDone(t.rings[r], t'.rings[r], useful)
    requires !useful ==> t'.live == t.live
    ensures EventDone(t, t', useful)
  {
    TotalCostUpdate(t.rings, r, t'.rings[r]);
    forall i | 0 <= i < |t.rings|
      ensures Closing(t'.rings[i]) && SameCalls(t.rings[i], t'.rings[i]) && (!useful ==> SameRing(t.rings[i], t'.rings[i]))
    {
      assert Closing(t.rings[i]);
    }
  }

  lemma OtherDone(t: System, r: nat, action: Action)
    requires Inv(t) && AllClosing(t) && r < |t.rings| && IsWork(action)
    ensures EventDone(t, Step(t, Other(r, action)), UsefulAction(t.rings[r], action))
  {
    assert RingInv(t, r);
    OtherInv(t, r, action);
    ActionDone(t.rings[r], action);
    OneRingDone(t, Step(t, Other(r, action)), r, UsefulAction(t.rings[r], action));
  }

  /** A useless step of the consumer erases no ring. */
  lemma UselessKeepsLive(t: System)
    requires Inv(t) && t.live != [] && !UsefulConsume(CurrentRing(t))
    ensures Step(t, Consumer).live == t.live
  {
    assert RingInv(t, t.live[Position(t)]);
    UselessPassesBy(CurrentRing(t));
  }

  lemma UselessPassesBy(ring: Ring)
    requires Reachable(ring) && InBounds(ring) && !Retired(ring) && !UsefulConsume(ring)
    ensures Scanning(ring) && ConsumeOn(ring) == ring
  {
    match ring {
      case Bandwidth(p, b) => BwPr.UselessChangesNothing(p, b, Bw.Consume);
      case Latency(q, l) => LatPr.UselessChangesNothing(q, l, Lat.Consume);
    }
  }

  lemma ConsumerDone(t: System)
    requires Inv(t) && AllClosing(t) && t.live != []
    ensures EventDone(t, Step(t, Consumer), UsefulConsume(CurrentRing(t)))
  {
    var r := t.live[Position(t)];
    assert RingInv(t, r);
    ConsumerInv(t);
    ConsumerEffect(t);
    ConsumeDone(t.rings[r]);
    if !UsefulConsume(t.rings[r]) {
      UselessKeepsLive(t);
    }
    OneRingDone(t, Step(t, Consumer), r, UsefulConsume(t.rings[r]));
  }

  lemma SameRingsTwice(s: System, t: System, t': System)
    requires SameRings(s, t) && SameRings(t, t')
    ensures SameRings(s, t')
  {
    forall r | 0 <= r < |s.rings|
      ensures SameRing(s.rings[r], t'.rings[r])
    {
      assert SameRing(s.rings[r], t.rings[r]) && SameRing(t.rings[r], t'.rings[r]);
    }
  }

  /** An event that is idle in t is idle in s. */
  lemma IdleBefore(s: System, t: System, e: Event)
    requires WellFormed(s) && WellFormed(t) && SameRings(s, t)
    requires match e
             case Other(r, action) => r < |t.rings| ==> !UsefulAction(t.rings[r], action)
             case Consumer => t.live == [] || !UsefulConsume(CurrentRing(t))
    ensures Idle(s, e)
  {
    match e {
      case Other(r, action) =>
        if r < |s.rings| {
          SameRingSameUse(s.rings[r], t.rings[r]);
        }
      case Consumer =>
        if t.live != [] {
          var r := t.live[Position(t)];
          SameRingSameUse(s.rings[r], t.rings[r]);
          assert !UsefulConsume(s.rings[s.live[Position(t)]]);
        }
    }
  }

  /** The event's share of the work. */
  lemma EventProgress(t: System, e: Event) returns (useful: bool)
    requires Inv(t) && AllClosing(t) && (e.Consumer? || IsWork(e.action))
    ensures EventDone(t, Step(t, e), useful)
    ensures !useful ==> match e
                        case Other(r, action) => r < |t.rings| ==> !UsefulAction(t.rings[r], action)
                        case Consumer => t.live == [] || !UsefulConsume(CurrentRing(t))
  {
    useful := false;
    match e {
      case Other(r, action) =>
        if r < |t.rings| {
          useful := UsefulAction(t.rings[r], action);
          OtherDone(t, r, action);
        } else {
          NothingDone(t);
        }
      case Consumer =>
        if t.live != [] {
          useful := UsefulConsume(CurrentRing(t));
          ConsumerDone(t);
        } else {
          NothingDone(t);
        }
    }
  }

  lemma NothingDone(t: System)
    requires Inv(t) && AllClosing(t)
    ensures EventDone(t, t, false)
  {
  }

  lemma OneMoreEvent(s: System, events: seq<Event>, t: System, e: Event)
    requires WellFormed(s) && Progress(s, events, t) && (e.Consumer? || IsWork(e.action))
    ensures Progress(s, events + [e], Step(t, e))
  {
    var useful := EventProgress(t, e);
    SameCallsThroughout(s, t, Step(t, e));
    if TotalCost(Step(t, e).rings) == TotalCost(s.rings) {
      SameRingsTwice(s, t, Step(t, e));
      IdleBefore(s, t, e);
    }
  }

  lemma {:induction false} EventsProgress(s: System, events: seq<Event>)
    requires Inv(s) && AllClosing(s) && Works(events)
    ensures Progress(s, events, Run(s, events))
  {
    if events == [] {
      SameCallsAtRest(s);
    } else {
      var k := |events| - 1;
      EventsProgress(s, events[..k]);
      OneMoreEvent(s, events[..k], Run(s, events[..k]), events[k]);
      assert events[..k] + [events[k]] == events;
    }
  }

  /** If every event of a round is idle, the list is empty. */
  lemma IdleRound(s: System, rings: seq<Ring>, round: seq<Event>)
    requires Inv(s) && AllClosing(s) && SameKinds(rings, s.rings) && IsRound(rings, round)
    requires forall i :: 0 <= i < |round| ==> Idle(s, round[i])
    ensures s.live == []
  {
    assert Idle(s, Consumer);
    if s.live != [] {
      var i :| 0 <= i < |s.live| && !UsefulConsume(s.rings[s.live[i]]);
      var r := s.live[i];
      assert RingInv(s, r);
      assert Idle(s, Other(r, WriteOf(s.rings[r]))) && Idle(s, Other(r, LandOf(s.rings[r])));
      ConsumersTurn(s.rings[r]);
    }
  }

  ghost predicate SameKinds(rings: seq<Ring>, rings': seq<Ring>) {
    |rings| == |rings'| && forall r :: 0 <= r < |rings| ==> rings[r].Bandwidth? == rings'[r].Bandwidth?
  }

  /** A round leaves less to do, unless the list is empty. */
  lemma RoundProgress(s: System, rings: seq<Ring>, round: seq<Event>)
    requires Inv(s) && AllClosing(s) && SameKinds(rings, s.rings) && IsRound(rings, round)
    ensures var t := Run(s, round);
            && Inv(t) && AllClosing(t) && AllSameCalls(s, t) && SameKinds(rings, t.rings)
            && (TotalCost(t.rings) < TotalCost(s.rings) || t.live == [])
  {
    EventsProgress(s, round);
    var t := Run(s, round);
    KindsStay(rings, s, t);
    if TotalCost(t.rings) == TotalCost(s.rings) {
      IdleRound(s, rings, round);
    }
  }

  lemma KindsStay(rings: seq<Ring>, s: System, t: System)
    requires SameKinds(rings, s.rings) && AllSameCalls(s, t)
    ensures SameKinds(rings, t.rings)
  {
    forall r | 0 <= r < |rings|
      ensures rings[r].Bandwidth? == t.rings[r].Bandwidth?
    {
      assert SameCalls(s.rings[r], t.rings[r]);
    }
  }

  /** No step of anybody makes a ring one of the other kind. */
  lemma {:induction false} RunKeepsKinds(s: System, events: seq<Event>)
    requires WellFormed(s)
    ensures SameKinds(s.rings, Run(s, events).rings)
  {
    if events != [] {
      var k := |events| - 1;
      RunKeepsKinds(s, events[..k]);
      StepKeepsKinds(Run(s, events[..k]), events[k]);
    }
  }

  lemma StepKeepsKinds(s: System, e: Event)
    requires WellFormed(s)
    ensures SameKinds(s.rings, Step(s, e).rings)
  {
  }

  lemma {:induction false} EmptyStays(s: System, events: seq<Event>)
    requires WellFormed(s) && s.live == []
    ensures Run(s, events).live == []
  {
    if events != [] {
      EmptyStays(s, events[..|events| - 1]);
    }
  }

  lemma {:induction false} RoundsWork(rings: seq<Ring>, rounds: seq<seq<Event>>)
    requires forall i :: 0 <= i < |rounds| ==> IsRound(rings, rounds[i])
    ensures Works(Flatten(rounds))
  {
    if rounds != [] {
      RoundsWork(rings, rounds[..|rounds| - 1]);
    }
  }

  lemma FirstRound(s: System, rounds: seq<seq<Event>>)
    requires WellFormed(s) && rounds != []
    ensures Run(s, Flatten(rounds)) == Run(Run(s, rounds[0]), Flatten(rounds[1..]))
  {
    assert rounds == [rounds[0]] + rounds[1..];
    FlattenCons(rounds[0], rounds[1..]);
    RunAppend(s, rounds[0], Flatten(rounds[1..]));
  }

  lemma {:induction false} RoundsFinish(s: System, rings: seq<Ring>, rounds: seq<seq<Event>>)
    requires Inv(s) && AllClosing(s) && SameKinds(rings, s.rings)
    requires (forall i :: 0 <= i < |rounds| ==> IsRound(rings, rounds[i])) && |rounds| >= TotalCost(s.rings)
    ensures Run(s, Flatten(rounds)).live == []
    decreases |rounds|
  {
    if rounds == [] {
      if s.live != [] {
        var e := SystemStep(s);
      }
    } else {
      var t := Run(s, rounds[0]);
      RoundProgress(s, rings, rounds[0]);
      FirstRound(s, rounds);
      if t.live == [] {
        EmptyStays(t, Flatten(rounds[1..]));
      } else {
        RoundsFinish(t, rings, rounds[1..]);
      }
    }
  }

  /** Inevitable delivery of a whole buffer: once every writer has called close, any sequence of rounds as long as the work left
      ends where has_next answers false, with every stream delivered and no further call made. */
  lemma BufferAlwaysDrains(rings: seq<Ring>, events: seq<Event>, rounds: seq<seq<Event>>)
    requires forall r :: 0 <= r < |rings| ==> Fresh(rings[r])
    requires Inv(Start(rings)) && AllClosing(Run(Start(rings), events))
    requires forall i :: 0 <= i < |rounds| ==> IsRound(rings, rounds[i])
    requires |rounds| >= TotalCost(Run(Start(rings), events).rings)
    ensures var (s, s') := (Run(Start(rings), events), Run(Start(rings), events + Flatten(rounds)));
            && s'.live == [] && AllSameCalls(s, s')
            && forall r :: 0 <= r < |s'.rings| ==> DeliveredAll(s'.rings[r])
  {
    var s := Run(Start(rings), events);
    RunInv(Start(rings), events);
    RunKeepsKinds(Start(rings), events);
    RoundsFinish(s, rings, rounds);
    RunAppend(Start(rings), events, Flatten(rounds));
    RoundsWork(rings, rounds);
    EventsProgress(s, Flatten(rounds));
    InvDelivers(Run(s, Flatten(rounds)));
  }
}
