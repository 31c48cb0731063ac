/** What one consumer over all rings of a buffer promises, over every interleaving with every writer and network. */
module RoundRobinTheorems {
  import opened Util
  import Bw = BwProtocol
  import BwInv = BwInvariant
  import BwTh = BwTheorems
  import BwPr = BwProgress
  import Lat = LatProtocol
  import LatInv = LatInvariant
  import LatPr = LatProgress
  import LatTh = LatTheorems
  import opened RoundRobin

  // ---------------------------------------------------------------- delivery

  /** What the ring has delivered so far is right. */
  predicate DeliveredInOrder(ring: Ring) {
    match ring
    case Bandwidth(_, b) => Flatten(b.r.delivered) <= b.appended
    case Latency(q, l) =>
      && |l.r.delivered| <= |l.messages|
      && ((l.w.pc in {Lat.Closing, Lat.Closed} ==> LatTh.LastIsFull(q, l)) ==> l.r.delivered <= l.messages)
  }

  /** The writer has closed the ring and everything has been delivered. */
  predicate DeliveredAll(ring: Ring) {
    match ring
    case Bandwidth(_, b) => b.w.pc in {Bw.Closing, Bw.Closed} && Flatten(b.r.delivered) == b.appended
    case Latency(q, l) =>
      && l.w.pc in {Lat.Closing, Lat.Closed}
      && |l.r.delivered| == |l.messages|
      && (LatTh.LastIsFull(q, l) ==> l.r.delivered == l.messages)
  }

  lemma RingDelivers(ring: Ring)
    requires Reachable(ring)
    ensures DeliveredInOrder(ring)
    ensures Retired(ring) ==> DeliveredAll(ring)
  {
    ReachableInv(ring);
    match ring {
      case Bandwidth(p, b) =>
        var schedule :| b == BwTh.After(p, schedule);
        BwTh.DeliversTheStream(p, schedule);
      case Latency(q, l) =>
        var schedule :| l == LatPr.After(q, schedule);
        LatTh.DeliversTheMessages(q, schedule);
    }
  }

  lemma InvDelivers(s: System)
    requires Inv(s)
    ensures forall r :: 0 <= r < |s.rings| ==>
              && DeliveredInOrder(s.rings[r])
              && (r !in s.live ==> DeliveredAll(s.rings[r]))
              && multiset(s.served)[r] == |Delivered(s.rings[r])|
  {
    forall r | 0 <= r < |s.rings|
      ensures DeliveredInOrder(s.rings[r]) && (r !in s.live ==> DeliveredAll(s.rings[r]))
      ensures multiset(s.served)[r] == |Delivered(s.rings[r])|
    {
      assert RingInv(s, r);
      RingDelivers(s.rings[r]);
    }
  }

  /** However the rings' writers, networks and the one consumer are interleaved: every ring's deliveries are in order, each is
      one call to next, a ring leaves the list only when everything in it is delivered, and has_next
      answers that there is nothing more only when everything in every ring is. */
  lemma EveryRingDelivers(rings: seq<Ring>, events: seq<Event>, r: nat)
    requires (forall i :: 0 <= i < |rings| ==> Fresh(rings[i])) && r < |rings|
    ensures Inv(Start(rings))
    ensures var s := Run(Start(rings), events);
            && |s.rings| == |rings|
            && DeliveredInOrder(s.rings[r])
            && multiset(s.served)[r] == |Delivered(s.rings[r])|
            && (r !in s.live ==> DeliveredAll(s.rings[r]))
            && (s.live == [] ==> forall i :: 0 <= i < |rings| ==> DeliveredAll(s.rings[i]))
  {
    StartInv(rings);
    RunInv(Start(rings), events);
    RunKeepsRings(Start(rings), events);
    InvDelivers(Run(Start(rings), events));
  }

  lemma {:induction false} RunKeepsRings(s: System, events: seq<Event>)
    requires WellFormed(s)
    ensures |Run(s, events).rings| == |s.rings|
  {
    if events != [] {
      RunKeepsRings(s, events[..|events| - 1]);
    }
  }

  // ---------------------------------------------------------------- fairness

  /** How many rings the pointer passes before it reaches place j of the list. */
  function Distance(s: System, j: nat): (d: nat)
    requires j < |s.live| && s.pointer <= |s.live|
    ensures d < |s.live|
  {
    if s.pointer <= j then j - s.pointer else |s.live| - s.pointer + j
  }

  /** An upper bound on the consumer steps until the ring in place j is served. */
  function Steps(s: System, j: nat): (k: nat)
    requires s.pointer <= |s.live| && j < |s.live| && s.live[Position(s)] < |s.rings|
  {
    6 * Distance(s, j) + Stage(s.rings[s.live[Position(s)]])
  }

  /** Ring r, due, is in place j' of the list of s', with `deliveries` calls to next and `steps` consumer steps since s,
      where it was in place j: each of them has brought it nearer. */
  ghost predicate Nearer(s: System, j: nat, s': System, j': nat, deliveries: nat, steps: nat)
    requires WellFormed(s) && WellFormed(s') && j < |s.live|
  {
    && j' < |s'.live| && s'.live[j'] == s.live[j] && Due(s'.rings[s'.live[j']])
    && (Waiting(s.rings[s.live[j]]) ==> Waiting(s'.rings[s'.live[j']]))
    && deliveries + Distance(s', j') <= Distance(s, j)
    && steps + Steps(s', j') <= Steps(s, j)
  }

  lemma OtherIsFair(s: System, r: nat, action: Action, j: nat)
    requires Inv(s) && j < |s.live| && Due(s.rings[s.live[j]])
    ensures Nearer(s, j, Step(s, Other(r, action)), j, 0, 0)
  {
    if r < |s.rings| {
      ActionEffect(s.rings[r], action);
    }
  }

  /** The consumer's next step on the ring it points at. */
  lemma ConsumerEffect(s: System)
    requires Inv(s) && s.live != []
    ensures var (i, s') := (Position(s), Step(s, Consumer));
            var (ring, ring') := (s.rings[s.live[i]], ConsumeOn(s.rings[s.live[i]]));
            ConsumesProperly(ring, ring') && s'.rings == s.rings[s.live[i] := ring']
  {
    assert RingInv(s, s.live[Position(s)]);
    ConsumeEffect(s.rings[s.live[Position(s)]]);
  }

  lemma ConsumerIsFair(s: System, j: nat) returns (j': nat)
    requires Inv(s) && j < |s.live| && Due(s.rings[s.live[j]])
    ensures var s' := Step(s, Consumer);
            || s'.served == s.served + [s.live[j]]
            || (s.live[j] !in s'.live && !Waiting(s.rings[s.live[j]]))
            || (s.served <= s'.served && Nearer(s, j, s', j', |s'.served| - |s.served|, 1))
  {
    j' := if |Step(s, Consumer).live| < |s.live| && Position(s) < j then j - 1 else j;
    if j == Position(s) {
      FairHere(s);
    } else {
      FairElsewhere(s, j, j');
    }
  }

  /** The consumer's step on the ring itself. */
  lemma FairHere(s: System)
    requires Inv(s) && s.live != [] && Due(CurrentRing(s))
    ensures var (j, s') := (Position(s), Step(s, Consumer));
            || s'.served == s.served + [s.live[j]]
            || (s.live[j] !in s'.live && !Waiting(s.rings[s.live[j]]))
            || (s'.served == s.served && Nearer(s, j, s', j, 0, 1))
  {
    ConsumerEffect(s);
    ErasedRing(s.live, Position(s));
  }

  /** The consumer's step on another ring. */
  lemma FairElsewhere(s: System, j: nat, j': nat)
    requires Inv(s) && j < |s.live| && Due(s.rings[s.live[j]]) && j != Position(s)
    requires j' == if |Step(s, Consumer).live| < |s.live| && Position(s) < j then j - 1 else j
    ensures var s' := Step(s, Consumer);
            s.served <= s'.served && Nearer(s, j, s', j', |s'.served| - |s.served|, 1)
  {
    ConsumerEffect(s);
    assert s.live[j] != s.live[Position(s)];
  }

  /** The ring the pointer is at, once wrapped around. */
  function CurrentRing(s: System): (ring: Ring)
    requires s.live != [] && s.pointer <= |s.live| && s.live[Position(s)] < |s.rings|
  {
    s.rings[s.live[Position(s)]]
  }

  /** How many steps of a run are the consumer's. */
  function Consumers(events: seq<Event>): (k: nat) {
    if events == [] then 0
    else Consumers(events[..|events| - 1]) + (if events[|events| - 1].Consumer? then 1 else 0)
  }

  /** Ring r is among the first k rings served since s. */
  predicate ServedSoon(s: System, s': System, r: nat, k: nat)
  {
    |s.served| <= |s'.served| && r in s'.served[|s.served|..][..if |s'.served| - |s.served| < k then |s'.served| - |s.served| else k]
  }

  lemma ServedSoonStays(s: System, s': System, s'': System, r: nat, k: nat)
    requires ServedSoon(s, s', r, k) && s'.served <= s''.served
    ensures ServedSoon(s, s'', r, k)
  {
    var n := |s.served|;
    var i :| 0 <= i < |s'.served| - n && i < k && s'.served[n..][i] == r;
    assert s''.served[n..][i] == r;
  }

  lemma StepShrinks(s: System, e: Event)
    requires WellFormed(s)
    ensures var s' := Step(s, e); s.served <= s'.served && (forall r :: r !in s.live ==> r !in s'.live)
  {
  }

  /** Since s, the ring in place j has been served soon enough, or has been retired, or has come nearer. */
  ghost predicate Fair(s: System, j: nat, s': System, j': nat, steps: nat)
    requires WellFormed(s) && WellFormed(s') && j < |s.live|
  {
    && s.served <= s'.served
    && (|| ServedSoon(s, s', s.live[j], |s.live|)
        || (s.live[j] !in s'.live && !Waiting(s.rings[s.live[j]]))
        || Nearer(s, j, s', j', |s'.served| - |s.served|, steps))
  }

  lemma FairStep(s: System, j: nat, mid: System, e: Event, j0: nat, steps: nat) returns (j': nat)
    requires WellFormed(s) && j < |s.live| && Inv(mid) && s.served <= mid.served
    requires Nearer(s, j, mid, j0, |mid.served| - |s.served|, steps)
    ensures Fair(s, j, Step(mid, e), j', steps + if e.Consumer? then 1 else 0)
  {
    match e {
      case Other(r, action) =>
        OtherIsFair(mid, r, action, j0);
        j' := j0;
      case Consumer => j' := FairConsumerStep(s, j, mid, j0, steps);
    }
  }

  lemma FairConsumerStep(s: System, j: nat, mid: System, j0: nat, steps: nat) returns (j': nat)
    requires WellFormed(s) && j < |s.live| && Inv(mid) && s.served <= mid.served
    requires Nearer(s, j, mid, j0, |mid.served| - |s.served|, steps)
    ensures Fair(s, j, Step(mid, Consumer), j', steps + 1)
  {
    j' := ConsumerIsFair(mid, j0);
    ServedNow(s, mid, Step(mid, Consumer), s.live[j], |s.live|);
  }

  /** A delivery among the first k since s. */
  lemma ServedNow(s: System, mid: System, s': System, r: nat, k: nat)
    requires s.served <= mid.served && |mid.served| - |s.served| < k
    ensures s'.served == mid.served + [r] ==> ServedSoon(s, s', r, k)
  {
    if s'.served == mid.served + [r] {
      assert s'.served[|s.served|..][|mid.served| - |s.served|] == r;
    }
  }

  lemma FairExtends(s: System, j: nat, mid: System, e: Event, j0: nat, steps: nat) returns (j': nat)
    requires WellFormed(s) && j < |s.live| && Inv(mid) && Fair(s, j, mid, j0, steps)
    ensures Fair(s, j, Step(mid, e), j', steps + if e.Consumer? then 1 else 0)
  {
    j' := j0;
    StepShrinks(mid, e);
    if ServedSoon(s, mid, s.live[j], |s.live|) {
      ServedSoonStays(s, mid, Step(mid, e), s.live[j], |s.live|);
    } else if s.live[j] in mid.live {
      j' := FairStep(s, j, mid, e, j0, steps);
    }
  }

  lemma {:induction false} FairRun(s: System, events: seq<Event>, j: nat) returns (j': nat)
    requires Inv(s) && j < |s.live| && Due(s.rings[s.live[j]])
    ensures Fair(s, j, Run(s, events), j', Consumers(events))
  {
    if events == [] {
      j' := j;
    } else {
      var k := |events| - 1;
      var j0 := FairRun(s, events[..k], j);
      RunInv(s, events[..k]);
      j' := FairExtends(s, j, Run(s, events[..k]), events[k], j0, Consumers(events[..k]));
    }
  }

  lemma FairBound(s: System, j: nat, s': System, j': nat, steps: nat)
    requires WellFormed(s) && WellFormed(s') && j < |s.live| && Fair(s, j, s', j', steps)
    requires |s'.served| >= |s.served| + |s.live| || steps >= 6 * |s.live|
    ensures ServedSoon(s, s', s.live[j], |s.live|) || (s.live[j] !in s'.live && !Waiting(s.rings[s.live[j]]))
  {
  }

  /** Round-robin fairness: once a ring has something to deliver, whatever anybody does, it is served by one of the next
      k calls to next (k rings in the list), and 6 k steps of the consumer suffice for that. Once it is merely over, it
      is erased as soon. */
  lemma RoundRobinIsFair(s: System, events: seq<Event>, r: nat)
    requires Inv(s) && r in s.live && Due(s.rings[r])
    ensures var (s', k) := (Run(s, events), |s.live|);
            (|s'.served| >= |s.served| + k || Consumers(events) >= 6 * k) ==>
              ServedSoon(s, s', r, k) || (r !in s'.live && !Waiting(s.rings[r]))
  {
    var j :| 0 <= j < |s.live| && s.live[j] == r;
    var j' := FairRun(s, events, j);
    var s' := Run(s, events);
    if |s'.served| >= |s.served| + |s.live| || Consumers(events) >= 6 * |s.live| {
      FairBound(s, j, s', j', Consumers(events));
    }
  }

  // ---------------------------------------------------------------- draining

  /** The writer's last call has been close. */
  predicate Closing(ring: Ring) {
    match ring
    case Bandwidth(_, b) => b.w.pc in {Bw.Closing, Bw.Closed}
    case Latency(_, l) => l.w.pc in {Lat.Closing, Lat.Closed}
  }

  /** No call has been made in between. */
  predicate SameCalls(ring: Ring, ring': Ring) {
    match (ring, ring')
    case (Bandwidth(p, b), Bandwidth(p', b')) => p == p' && b.appended == b'.appended
    case (Latency(q, l), Latency(q', l')) => q == q' && l.messages == l'.messages
    case _ => false
  }

  function Cost(ring: Ring): (k: int) {
    match ring
    case Bandwidth(p, b) => BwPr.Measure(p, b)
    case Latency(_, l) => LatPr.Measure(l)
  }

  /** The actions that are not calls. */
  predicate IsWork(action: Action) {
    action in {BwAction(Bw.Write), BwAction(Bw.Land), LatAction(Lat.Write), LatAction(Lat.Land)}
  }

  /** One ring's share of the work left has become less. */
  ghost predicate LessWork(ring: Ring, ring': Ring) {
    && Reachable(ring) && Reachable(ring')
    && SameCalls(ring, ring') && Closing(ring')
    && 0 <= Cost(ring') < Cost(ring)
  }

  lemma BwWork(p: Bw.Params, b: Bw.State, step: Bw.Step)
    requires Reachable(Bandwidth(p, b)) && Closing(Bandwidth(p, b)) && Bw.InBounds(p, b)
    requires step in {Bw.Write, Bw.Land, Bw.Consume} && BwPr.Useful(p, b, step)
    ensures Reachable(Bandwidth(p, Bw.Apply(p, b, step))) ==> LessWork(Bandwidth(p, b), Bandwidth(p, Bw.Apply(p, b, step)))
  {
    ReachableInv(Bandwidth(p, b));
    BwPr.StepMeasure(p, b, step);
    if Reachable(Bandwidth(p, Bw.Apply(p, b, step))) {
      ReachableInv(Bandwidth(p, Bw.Apply(p, b, step)));
      BwPr.MeasureNonNegative(p, Bw.Apply(p, b, step));
    }
  }

  lemma LatWork(q: Lat.Params, l: Lat.State, step: Lat.Step)
    requires Reachable(Latency(q, l)) && Closing(Latency(q, l)) && Lat.InBounds(q, l)
    requires step in {Lat.Write, Lat.Land, Lat.Consume} && LatPr.Useful(q, l, step)
    ensures Reachable(Latency(q, Lat.Apply(q, l, step))) ==> LessWork(Latency(q, l), Latency(q, Lat.Apply(q, l, step)))
  {
    ReachableInv(Latency(q, l));
    LatPr.StepMeasure(q, l, step);
    if Reachable(Latency(q, Lat.Apply(q, l, step))) {
      ReachableInv(Latency(q, Lat.Apply(q, l, step)));
      LatPr.MeasureNonNegative(q, Lat.Apply(q, l, step));
    }
  }

  lemma BwHasWork(p: Bw.Params, b: Bw.State) returns (step: Bw.Step)
    requires BwInv.Inv(p, b) && b.w.pc in {Bw.Closing, Bw.Closed} && b.r.cpc != Bw.Retired
    ensures step in {Bw.Write, Bw.Land, Bw.Consume} && BwPr.Useful(p, b, step)
  {
    BwPr.NoDeadlock(p, b);
    step := if BwPr.Useful(p, b, Bw.Write) then Bw.Write else if BwPr.Useful(p, b, Bw.Land) then Bw.Land else Bw.Consume;
  }

  lemma LatHasWork(q: Lat.Params, l: Lat.State) returns (step: Lat.Step)
    requires LatInv.Inv(q, l) && l.w.pc in {Lat.Closing, Lat.Closed} && l.r.cpc != Lat.Retired
    ensures step in {Lat.Write, Lat.Land, Lat.Consume} && LatPr.Useful(q, l, step)
  {
    LatPr.NoDeadlock(q, l);
    step := if LatPr.Useful(q, l, Lat.Write) then Lat.Write else if LatPr.Useful(q, l, Lat.Land) then Lat.Land else Lat.Consume;
  }

  /** A closed ring that is not retired always has work: for its writer or network, or else for the consumer. */
  ghost predicate WorkFound(ring: Ring, action: Option<Action>)
    requires InBounds(ring)
  {
    match action
    case None => LessWork(ring, ConsumeOn(ring))
    case Some(a) => IsWork(a) && LessWork(ring, ActOn(ring, a))
  }

  lemma BwRingHasWork(p: Bw.Params, b: Bw.State) returns (action: Option<Action>)
    requires var ring := Bandwidth(p, b); Reachable(ring) && InBounds(ring) && Closing(ring) && !Retired(ring)
    ensures WorkFound(Bandwidth(p, b), action)
  {
    ReachableInv(Bandwidth(p, b));
    var step := BwHasWork(p, b);
    BwWork(p, b, step);
    if step == Bw.Consume {
      action := None;
      ConsumeReaches(Bandwidth(p, b));
    } else {
      action := Some(BwAction(step));
      ActionReaches(Bandwidth(p, b), BwAction(step));
    }
  }

  lemma LatRingHasWork(q: Lat.Params, l: Lat.State) returns (action: Option<Action>)
    requires var ring := Latency(q, l); Reachable(ring) && InBounds(ring) && Closing(ring) && !Retired(ring)
    ensures WorkFound(Latency(q, l), action)
  {
    ReachableInv(Latency(q, l));
    var step := LatHasWork(q, l);
    LatWork(q, l, step);
    if step == Lat.Consume {
      action := None;
      ConsumeReaches(Latency(q, l));
    } else {
      action := Some(LatAction(step));
      ActionReaches(Latency(q, l), LatAction(step));
    }
  }

  lemma RingHasWork(ring: Ring) returns (action: Option<Action>)
    requires Reachable(ring) && InBounds(ring) && Closing(ring) && !Retired(ring)
    ensures WorkFound(ring, action)
  {
    match ring {
      case Bandwidth(p, b) => action := BwRingHasWork(p, b);
      case Latency(q, l) => action := LatRingHasWork(q, l);
    }
  }

  ghost predicate AllClosing(s: System) {
    forall r :: 0 <= r < |s.rings| ==> Closing(s.rings[r])
  }

  ghost predicate AllSameCalls(s: System, s': System) {
    |s.rings| == |s'.rings| && forall r :: 0 <= r < |s.rings| ==> SameCalls(s.rings[r], s'.rings[r])
  }

  function TotalCost(rings: seq<Ring>): (k: int) {
    if rings == [] then 0 else TotalCost(rings[..|rings| - 1]) + Cost(rings[|rings| - 1])
  }

  lemma {:induction false} TotalCostNonNegative(rings: seq<Ring>)
    requires forall r :: 0 <= r < |rings| ==> Reachable(rings[r])
    ensures TotalCost(rings) >= 0
  {
    if rings != [] {
      TotalCostNonNegative(rings[..|rings| - 1]);
      var last := rings[|rings| - 1];
      ReachableInv(last);
      match last {
        case Bandwidth(p, b) => BwPr.MeasureNonNegative(p, b);
        case Latency(q, l) => LatPr.MeasureNonNegative(q, l);
      }
    }
  }

  lemma {:induction false} TotalCostUpdate(rings: seq<Ring>, r: nat, ring': Ring)
    requires r < |rings|
    ensures TotalCost(rings[r := ring']) == TotalCost(rings) - Cost(rings[r]) + Cost(ring')
  {
    var k := |rings| - 1;
    if r == k {
      assert rings[r := ring'][..k] == rings[..k];
    } else {
      assert rings[r := ring'][..k] == rings[..k][r := ring'];
      TotalCostUpdate(rings[..k], r, ring');
    }
  }

  /** One ring with less work means less work in all. */
  lemma WorkCounts(s: System, r: nat, s': System)
    requires Inv(s) && AllClosing(s) && Inv(s') && r < |s.rings| == |s'.rings|
    requires s'.rings == s.rings[r := s'.rings[r]] && LessWork(s.rings[r], s'.rings[r])
    ensures AllClosing(s') && AllSameCalls(s, s') && 0 <= TotalCost(s'.rings) < TotalCost(s.rings)
  {
    TotalCostUpdate(s.rings, r, s'.rings[r]);
    forall i | 0 <= i < |s.rings|
      ensures Reachable(s'.rings[i]) && SameCalls(s.rings[i], s'.rings[i])
    {
      assert RingInv(s', i);
    }
    TotalCostNonNegative(s'.rings);
  }

  /** While the list is not empty, some party has work. */
  lemma SystemStep(s: System) returns (e: Event)
    requires Inv(s) && AllClosing(s) && s.live != []
    ensures e.Consumer? || IsWork(e.action)
    ensures var s' := Step(s, e);
            Inv(s') && AllClosing(s') && AllSameCalls(s, s') && 0 <= TotalCost(s'.rings) < TotalCost(s.rings)
  {
    var r := s.live[Position(s)];
    assert RingInv(s, r);
    var action := RingHasWork(s.rings[r]);
    if action == None {
      e := Consumer;
      ConsumerEffect(s);
      ConsumerInv(s);
    } else {
      e := Other(r, action.value);
      OtherInv(s, r, action.value);
    }
    WorkCounts(s, r, Step(s, e));
  }

  lemma RunCons(s: System, e: Event, rest: seq<Event>)
    requires WellFormed(s)
    ensures Run(s, [e] + rest) == Run(Step(s, e), rest)
  {
    RunAppend(s, [e], rest);
    RunSnoc(s, [], e);
    assert [] + [e] == [e];
  }

  lemma SameCallsThroughout(s: System, s1: System, s2: System)
    requires AllSameCalls(s, s1) && AllSameCalls(s1, s2)
    ensures AllSameCalls(s, s2)
  {
    forall r | 0 <= r < |s.rings|
      ensures SameCalls(s.rings[r], s2.rings[r])
    {
      assert SameCalls(s.rings[r], s1.rings[r]);
    }
  }

  lemma SameCallsAtRest(s: System)
    requires Inv(s)
    ensures AllSameCalls(s, s)
  {
  }

  lemma {:induction false} Drain(s: System) returns (more: seq<Event>)
    requires Inv(s) && AllClosing(s)
    ensures forall i :: 0 <= i < |more| ==> more[i].Consumer? || IsWork(more[i].action)
    ensures var s' := Run(s, more); s'.live == [] && AllSameCalls(s, s')
    decreases TotalCost(s.rings)
  {
    if s.live == [] {
      more := [];
      SameCallsAtRest(s);
    } else {
      var e := SystemStep(s);
      var rest := Drain(Step(s, e));
      more := [e] + rest;
      RunCons(s, e, rest);
      SameCallsThroughout(s, Step(s, e), Run(s, more));
    }
  }

  /** Total delivery over all rings: once every writer of the buffer has called close, the parties can, without further
      calls to a writer, always come to where has_next answers false, and then every ring's
      whole stream has been delivered. */
  lemma BufferDrains(rings: seq<Ring>, events: seq<Event>) returns (more: seq<Event>)
    requires forall r :: 0 <= r < |rings| ==> Fresh(rings[r])
    requires Inv(Start(rings)) && AllClosing(Run(Start(rings), events))
    ensures forall i :: 0 <= i < |more| ==> more[i].Consumer? || IsWork(more[i].action)
    ensures var (s, s') := (Run(Start(rings), events), Run(Start(rings), events + more));
            && s'.live == [] && AllSameCalls(s, s')
            && forall r :: 0 <= r < |s'.rings| ==> DeliveredAll(s'.rings[r])
  {
    var s := Run(Start(rings), events);
    RunInv(Start(rings), events);
    more := Drain(s);
    RunAppend(Start(rings), events, more);
    RunInv(Start(rings), events + more);
    InvDelivers(Run(Start(rings), events + more));
  }
}
