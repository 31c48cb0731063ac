/**
 The consumer's step in LatProtocol makes several loads at once: prev's end mark and iter's consumable flag in a scan,
 prev's flags before the first store, counter and link in the take. Here the first comes alone, with any steps of the writer and
 the network before the others, landing the end stamp too, and nothing new can happen.
 */
module LatLoads {
  import opened Util
  import opened LatProtocol
  import opened LatInvariant
  import opened LatProgress

  predicate NoConsume(steps: seq<Step>) {
    forall i :: 0 <= i < |steps| ==> steps[i] != Consume
  }

  /** The consumer's step with its first load made in r1 and everything else in r2. */
  function SplitStep(p: Params, r1: Remote, r2: Remote): (r': Remote)
    requires p.Valid() && RemoteInBounds(p, r1) && RemoteInBounds(p, r2) && r1.prev == r2.prev
  {
    match r2.cpc
    case Scanning =>
      if PrevIsEnd(r1) then r2.(cpc := Retired)
      else if r2.mem[r2.iter].h.consumable then r2.(cpc := ZeroCounter)
      else r2
    case ZeroCounter =>
      if r2.prev.None? || PrevIsEnd(r1) || !r2.mem[r2.prev.value].h.writeable then r2.(cpc := Taking)
      else SetHeader(r2, r2.prev.value, r2.mem[r2.prev.value].h.(counter := 0)).(cpc := ClearConsumable)
    case Taking =>
      r2.(delivered := r2.delivered + [r2.mem[r2.iter].data[..r1.mem[r2.iter].h.counter]], prev := Some(r2.iter),
          iter := r2.mem[r2.iter].h.next, cpc := Scanning)
    case _ => ConsumeStep(p, r2)
  }

  /** The ring of r with the consumer of c. */
  function WithConsumer(r: Remote, c: Remote): (r': Remote) {
    r.(iter := c.iter, prev := c.prev, cpc := c.cpc, delivered := c.delivered)
  }

  ghost predicate IgnoresConsumer(p: Params, s: State, c: Remote, step: Step)
    requires InBounds(p, s) && InBounds(p, s.(r := WithConsumer(s.r, c)))
  {
    var s' := Apply(p, s, step);
    && Apply(p, s.(r := WithConsumer(s.r, c)), step) == s'.(r := WithConsumer(s'.r, c))
    && s'.r == WithConsumer(s'.r, s.r)
  }

  /** The writer and the network do not look at the consumer, and do not move it. */
  lemma OthersIgnoreConsumer(p: Params, s: State, c: Remote, step: Step)
    requires InBounds(p, s) && RemoteInBounds(p, c) && step != Consume
    ensures InBounds(p, s.(r := WithConsumer(s.r, c))) && IgnoresConsumer(p, s, c, step)
  {
  }

  /** What the writer and the network add to. */
  predicate Onward(s: State, s': State) {
    s.messages <= s'.messages && s.r.landed <= s'.r.landed && (Stamped(s) ==> Stamped(s') && s'.messages == s.messages)
  }

  lemma OthersGoOn(p: Params, s: State, step: Step)
    requires InBounds(p, s) && step != Consume
    ensures Onward(s, Apply(p, s, step))
  {
  }

  lemma {:induction false} OthersRun(p: Params, s: State, c: Remote, steps: seq<Step>)
    requires InBounds(p, s) && RemoteInBounds(p, c) && NoConsume(steps)
    ensures InBounds(p, s.(r := WithConsumer(s.r, c)))
    ensures var s' := Run(p, s, steps);
            && Run(p, s.(r := WithConsumer(s.r, c)), steps) == s'.(r := WithConsumer(s'.r, c))
            && s'.r == WithConsumer(s'.r, s.r)
            && Onward(s, s')
  {
    OthersIgnoreConsumer(p, s, c, Write);
    if steps != [] {
      var k := |steps| - 1;
      var before := Run(p, s, steps[..k]);
      OthersRun(p, s, c, steps[..k]);
      OthersIgnoreConsumer(p, before, c, steps[k]);
      OthersGoOn(p, before, steps[k]);
    }
  }

  /** Wherever the loads fall, the outcome is that of the whole step made at the first load or at the last. */
  lemma SplitOutcome(p: Params, s1: State, s2: State)
    requires p.n > 1 && Inv(p, s1) && Inv(p, s2) && s2.r == WithConsumer(s2.r, s1.r) && Onward(s1, s2)
    ensures var split := SplitStep(p, s1.r, s2.r);
            || split == ConsumeStep(p, s2.r)
            || (s1.r.cpc in {Scanning, Taking} && split == WithConsumer(s2.r, ConsumeStep(p, s1.r)))
  {
    if s1.r.cpc == Taking {
      SplitTake(p, s1, s2);
    } else {
      ConsumableMeansLanded(p, s1);
      ConsumableMeansLanded(p, s2);
      if s1.r.prev.Some? {
        PrevFlags(p, s1);
        PrevFlags(p, s2);
      }
    }
  }

  lemma PrevFlags(p: Params, s: State)
    requires Inv(p, s) && s.r.prev.Some?
    ensures s.r.cpc == ZeroCounter ==> s.r.mem[s.r.prev.value].h.writeable
  {
    if s.r.cpc == ZeroCounter {
      assert Held(p, s, |s.r.delivered| - 1);
    }
  }

  /** The stamp may land between the load of the counter and the load of the link. */
  lemma SplitTake(p: Params, s1: State, s2: State)
    requires p.n > 1 && Inv(p, s1) && Inv(p, s2) && s2.r == WithConsumer(s2.r, s1.r) && Onward(s1, s2) && s1.r.cpc == Taking
    ensures var split := SplitStep(p, s1.r, s2.r);
            split == ConsumeStep(p, s2.r) || split == WithConsumer(s2.r, ConsumeStep(p, s1.r))
  {
    var T := |s1.r.delivered|;
    assert Held(p, s1, T) && Held(p, s2, T);
    var (seg1, seg2) := (s1.r.mem[s1.r.iter], s2.r.mem[s1.r.iter]);
    assert seg1.h.next == seg2.h.next;
    if seg1.h.counter != seg2.h.counter {
      assert seg1.data[..seg1.h.counter] == s1.messages[T] == seg2.data[..seg1.h.counter];
    }
  }

  /** The whole state after the split step. */
  function SplitState(p: Params, s1: State, s2: State): (s': State)
    requires p.Valid() && RemoteInBounds(p, s1.r) && RemoteInBounds(p, s2.r) && s1.r.prev == s2.r.prev
  {
    s2.(r := SplitStep(p, s1.r, s2.r))
  }

  /** The consumer's step made before what the others did. */
  lemma ConsumedFirst(p: Params, s: State, between: seq<Step>)
    requires InBounds(p, s) && NoConsume(between) && s.r.cpc in {Scanning, Taking}
    ensures var s' := Run(p, s, between);
            Run(p, Apply(p, s, Consume), between) == s'.(r := WithConsumer(s'.r, ConsumeStep(p, s.r)))
  {
    var c := ConsumeStep(p, s.r);
    assert c == WithConsumer(s.r, c);
    OthersRun(p, s, c, between);
  }

  /** Splitting the loads adds no behaviour: the state afterwards, the writer's part included, is that of a run of the protocol,
      with the consumer's step either after what the others did between the loads or before it. So any number of
      split steps in a run can be taken back one by one. */
  lemma LoadsMayBeMerged(p: Params, schedule: seq<Step>, between: seq<Step>)
    requires p.Valid() && p.n > 1 && NoConsume(between)
    ensures var (s1, s2) := (After(p, schedule), After(p, schedule + between));
            s1.r.prev == s2.r.prev &&
            var split := SplitState(p, s1, s2);
            || split == After(p, schedule + between + [Consume])
            || split == After(p, schedule + [Consume] + between)
  {
    var s1 := After(p, schedule);
    var s2 := After(p, schedule + between);
    RunAppend(p, Init(p), schedule, between);
    RunSnoc(p, Init(p), schedule + between, Consume);
    RunAppend(p, Init(p), schedule + [Consume], between);
    RunSnoc(p, Init(p), schedule, Consume);
    MergedOutcome(p, schedule, between, s1, s2);
  }

  lemma MergedOutcome(p: Params, schedule: seq<Step>, between: seq<Step>, s1: State, s2: State)
    requires p.Valid() && p.n > 1 && NoConsume(between) && s1 == After(p, schedule) && s2 == Run(p, s1, between)
    requires s2 == After(p, schedule + between)
    ensures s1.r.prev == s2.r.prev
    ensures var split := SplitState(p, s1, s2);
            split == Apply(p, s2, Consume) || split == Run(p, Apply(p, s1, Consume), between)
  {
    AfterInv(p, schedule);
    AfterInv(p, schedule + between);
    SplitRun(p, s1, s2, between);
  }

  lemma SplitRun(p: Params, s1: State, s2: State, between: seq<Step>)
    requires p.n > 1 && Inv(p, s1) && Inv(p, s2) && NoConsume(between) && s2 == Run(p, s1, between)
    ensures s1.r.prev == s2.r.prev
    ensures var split := SplitState(p, s1, s2);
            split == Apply(p, s2, Consume) || split == Run(p, Apply(p, s1, Consume), between)
  {
    OthersRun(p, s1, s1.r, between);
    SplitOutcome(p, s1, s2);
    if s1.r.cpc in {Scanning, Taking} {
      ConsumedFirst(p, s1, between);
    }
  }

  /** The release's two loads of prev's flags, end in s1 and writeable in s2, and its first store in s3: the outcome is that of the
      whole step made at the store, however much the others do in between. */
  lemma ReleaseLoadsMayBeMerged(p: Params, schedule: seq<Step>, between: seq<Step>, more: seq<Step>)
    requires p.Valid() && p.n > 1 && NoConsume(between) && NoConsume(more)
    requires After(p, schedule).r.cpc == ZeroCounter && After(p, schedule).r.prev.Some?
    ensures var (s1, s2, s3) := (After(p, schedule), After(p, schedule + between), After(p, schedule + between + more));
            && s1.r.prev == s2.r.prev == s3.r.prev && s3.r.cpc == ZeroCounter
            && After(p, schedule + between + more + [Consume]) ==
               if PrevIsEnd(s1.r) || !s2.r.mem[s2.r.prev.value].h.writeable then s3.(r := s3.r.(cpc := Taking))
               else var h := s3.r.mem[s3.r.prev.value].h;
                    s3.(r := SetHeader(s3.r, s3.r.prev.value, h.(counter := 0)).(cpc := ClearConsumable))
  {
    var (s1, s2, s3) := (After(p, schedule), After(p, schedule + between), After(p, schedule + between + more));
    RunAppend(p, Init(p), schedule, between);
    RunAppend(p, Init(p), schedule + between, more);
    RunSnoc(p, Init(p), schedule + between + more, Consume);
    OthersRun(p, s1, s1.r, between);
    OthersRun(p, s2, s2.r, more);
    ReleaseGuard(p, schedule);
    ReleaseGuard(p, schedule + between);
    ReleaseGuard(p, schedule + between + more);
  }

  /** Once next() is about to release prev, the guards hold and stay so. */
  lemma ReleaseGuard(p: Params, schedule: seq<Step>)
    requires p.Valid() && p.n > 1
    ensures var r := After(p, schedule).r;
            r.cpc == ZeroCounter && r.prev.Some? ==> !PrevIsEnd(r) && r.mem[r.prev.value].h.writeable
  {
    AfterInv(p, schedule);
    var s := After(p, schedule);
    if s.r.cpc == ZeroCounter && s.r.prev.Some? {
      ConsumableMeansLanded(p, s);
      PrevFlags(p, s);
    }
  }
}
