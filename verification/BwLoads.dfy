/**
 The consumer's step in BwProtocol makes several loads at once: prev's end mark and iter's consumable flag in a scan,
 prev's end mark before the first store, counter and link in the take. Here they are made one after the other, with any steps
 of the writer and the network in between, and nothing new can happen.
 */
module BwLoads {
  import opened Util
  import opened BwProtocol
  import opened BwInvariant
  import opened BwTheorems

  predicate NoConsume(steps: seq<Step>) {
    forall i :: 0 <= i < |steps| ==> steps[i] != Consume
  }

  /** The consumer's step with its first load made in r1 and everything else in r2. */
  function SplitStep(p: Params, r1: Remote, r2: Remote): (r': Remote)
    requires p.Valid() && RemoteInBounds(p, r1) && RemoteInBounds(p, r2)
  {
    match r2.cpc
    case Scanning =>
      if PrevIsEnd(r1) then r2.(cpc := Retired)
      else if r2.mem[r2.iter].h.consumable then r2.(cpc := ZeroCounter)
      else r2
    case ZeroCounter =>
      if r2.prev.None? || PrevIsEnd(r1) then r2.(cpc := Taking)
      else SetHeader(r2, r2.prev.value, r2.mem[r2.prev.value].h.(counter := 0)).(cpc := ClearConsumable)
    case Taking =>
      r2.(delivered := r2.delivered + [r2.mem[r2.iter].data[..r1.mem[r2.iter].h.counter]], prev := Some(r2.iter),
          iter := r2.mem[r2.iter].h.next, cpc := Scanning)
    case _ => ConsumeStep(p, r2)
  }

  /** The ring of r with the consumer of c. */
  function WithConsumer(r: Remote, c: Remote): (r': Remote) {
    r.(iter := c.iter, prev := c.prev, cpc := c.cpc, delivered := c.delivered)
  }

  /** The writer and the network do not look at the consumer, and do not move it. */
  ghost predicate IgnoresConsumer(p: Params, s: State, c: Remote, step: Step)
    requires InBounds(p, s) && InBounds(p, s.(r := WithConsumer(s.r, c)))
  {
    var s' := Apply(p, s, step);
    && Apply(p, s.(r := WithConsumer(s.r, c)), step) == s'.(r := WithConsumer(s'.r, c))
    && s'.r == WithConsumer(s'.r, s.r)
  }

  lemma ConsumerInBounds(p: Params, s: State, c: Remote)
    requires InBounds(p, s) && RemoteInBounds(p, c)
    ensures InBounds(p, s.(r := WithConsumer(s.r, c)))
  {
  }

  lemma LandIgnoresConsumer(p: Params, s: State, c: Remote)
    requires InBounds(p, s) && InBounds(p, s.(r := WithConsumer(s.r, c)))
    ensures IgnoresConsumer(p, s, c, Land)
  {
  }

  lemma WorkIgnoresConsumer(p: Params, s: State, c: Remote)
    requires InBounds(p, s) && InBounds(p, s.(r := WithConsumer(s.r, c))) && s.w.pc == Work
    ensures IgnoresConsumer(p, s, c, Write)
  {
  }

  lemma WriteIgnoresConsumer(p: Params, s: State, c: Remote)
    requires InBounds(p, s) && InBounds(p, s.(r := WithConsumer(s.r, c)))
    ensures IgnoresConsumer(p, s, c, Write)
  {
    if s.w.pc == Work {
      WorkIgnoresConsumer(p, s, c);
    }
  }

  lemma OthersIgnoreConsumer(p: Params, s: State, c: Remote, step: Step)
    requires InBounds(p, s) && RemoteInBounds(p, c) && step != Consume
    ensures InBounds(p, s.(r := WithConsumer(s.r, c))) && IgnoresConsumer(p, s, c, step)
  {
    ConsumerInBounds(p, s, c);
    match step {
      case Land => LandIgnoresConsumer(p, s, c);
      case Write => WriteIgnoresConsumer(p, s, c);
      case _ =>
    }
  }

  /** Everything the writer and the network do to what has been published is to add to it. */
  lemma OthersPublish(p: Params, s: State, step: Step)
    requires InBounds(p, s) && step != Consume
    ensures s.r.published <= Apply(p, s, step).r.published
  {
  }

  lemma {:induction false} OthersRun(p: Params, s: State, c: Remote, steps: seq<Step>)
    requires InBounds(p, s) && RemoteInBounds(p, c) && NoConsume(steps)
    ensures InBounds(p, s.(r := WithConsumer(s.r, c)))
    ensures var s' := Run(p, s, steps);
            && Run(p, s.(r := WithConsumer(s.r, c)), steps) == s'.(r := WithConsumer(s'.r, c))
            && s'.r == WithConsumer(s'.r, s.r)
            && s.r.published <= s'.r.published
  {
    ConsumerInBounds(p, s, c);
    if steps != [] {
      var k := |steps| - 1;
      var before := Run(p, s, steps[..k]);
      OthersRun(p, s, c, steps[..k]);
      OthersIgnoreConsumer(p, before, c, steps[k]);
      OthersPublish(p, before, steps[k]);
    }
  }

  /** Wherever the loads fall, the outcome is that of the whole step made at the first load or at the last. */
  lemma SplitOutcome(p: Params, s1: State, s2: State)
    requires p.n > 1 && Inv(p, s1) && Inv(p, s2)
    requires s2.r == WithConsumer(s2.r, s1.r) && s1.r.published <= s2.r.published
    ensures var split := SplitStep(p, s1.r, s2.r);
            || split == ConsumeStep(p, s2.r)
            || (s1.r.cpc == Scanning && split == WithConsumer(s2.r, ConsumeStep(p, s1.r)))
  {
    if s1.r.cpc == Taking {
      assert Held(p, s1, |s1.r.delivered|);
      assert Held(p, s2, |s1.r.delivered|);
    } else {
      ConsumableMeansPublished(p, s1);
      ConsumableMeansPublished(p, s2);
    }
  }

  /** The whole state after the split step. */
  function SplitState(p: Params, s1: State, s2: State): (s': State)
    requires p.Valid() && RemoteInBounds(p, s1.r) && RemoteInBounds(p, s2.r)
  {
    s2.(r := SplitStep(p, s1.r, s2.r))
  }

  /** The consumer's step made before what the others did. */
  lemma ConsumedFirst(p: Params, s: State, between: seq<Step>)
    requires InBounds(p, s) && NoConsume(between) && s.r.cpc == Scanning
    ensures var s' := Run(p, s, between);
            Run(p, Apply(p, s, Consume), between) == s'.(r := WithConsumer(s'.r, ConsumeStep(p, s.r)))
  {
    var c := ConsumeStep(p, s.r);
    assert c == WithConsumer(s.r, c);
    OthersRun(p, s, c, between);
  }

  /** Splitting the loads adds no behaviour: the state afterwards, the writer's part included, is that of a run of the protocol,
      with the consumer's step either after what the others did between the loads or before it. So any number of
      split steps in a run can be taken back one by one. */
  lemma LoadsMayBeMerged(p: Params, schedule: seq<Step>, between: seq<Step>)
    requires p.Valid() && p.n > 1 && NoConsume(between)
    ensures var split := SplitState(p, After(p, schedule), After(p, schedule + between));
            || split == After(p, schedule + between + [Consume])
            || split == After(p, schedule + [Consume] + between)
  {
    var s1 := After(p, schedule);
    var s2 := After(p, schedule + between);
    RunAppend(p, Init(p), schedule, between);
    RunSnoc(p, Init(p), schedule + between, Consume);
    RunAppend(p, Init(p), schedule + [Consume], between);
    RunSnoc(p, Init(p), schedule, Consume);
    MergedOutcome(p, schedule, between, s1, s2);
  }

  lemma MergedOutcome(p: Params, schedule: seq<Step>, between: seq<Step>, s1: State, s2: State)
    requires p.Valid() && p.n > 1 && NoConsume(between) && s1 == After(p, schedule) && s2 == Run(p, s1, between)
    requires s2 == After(p, schedule + between)
    ensures var split := SplitState(p, s1, s2);
            split == Apply(p, s2, Consume) || split == Run(p, Apply(p, s1, Consume), between)
  {
    AfterInv(p, schedule);
    AfterInv(p, schedule + between);
    SplitRun(p, s1, s2, between);
  }

  lemma SplitRun(p: Params, s1: State, s2: State, between: seq<Step>)
    requires p.n > 1 && Inv(p, s1) && Inv(p, s2) && NoConsume(between) && s2 == Run(p, s1, between)
    ensures var split := SplitState(p, s1, s2);
            split == Apply(p, s2, Consume) || split == Run(p, Apply(p, s1, Consume), between)
  {
    OthersRun(p, s1, s1.r, between);
    SplitOutcome(p, s1, s2);
    if s1.r.cpc == Scanning {
      ConsumedFirst(p, s1, between);
    }
  }
}
