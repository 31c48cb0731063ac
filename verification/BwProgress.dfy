/**
 The bandwidth-optimised ring never deadlocks, and only finitely many of its steps are useful.

 A step is useful unless it finds nothing to do: a poll of a segment that is not writeable, a wait for writes still
 in flight, a scan of a segment that is not consumable, a network with nothing to land.
 */
module BwProgress {
  import opened Util
  import opened BwProtocol
  import opened BwInvariant
  import opened BwTheorems

  predicate Useful(p: Params, s: State, step: Step)
    requires InBounds(p, s)
  {
    match step
    case Append(_) => false
    case Close => false
    case Write =>
      (match s.w.pc
       case Work => true
       case Poll(next) => s.r.mem[next].h.writeable
       case Idle => false
       case Closed => false
       case _ => s.r.queue == [])
    case Land => s.r.queue != []
    case Consume => s.r.cpc != Retired && (s.r.cpc == Scanning ==> PrevIsEnd(s.r) || s.r.mem[s.r.iter].h.consumable)
  }

  /** A step that is not useful changes nothing but the header copy a failed poll has read. */
  lemma UselessChangesNothing(p: Params, s: State, step: Step)
    requires InBounds(p, s) && step in {Write, Land, Consume} && !Useful(p, s, step)
    ensures Apply(p, s, step) == s.(w := s.w.(hdr := Apply(p, s, step).w.hdr))
    ensures Apply(p, s, step) != s ==> step == Write && s.w.pc.Poll?
  {
  }

  // ---------------------------------------------------------------- measure

  function PostCost(post: Post): (k: nat) {
    if post.Head? then 8 else post.len + 1
  }

  function QueueCost(queue: seq<Post>): (k: nat) {
    if queue == [] then 0 else PostCost(queue[0]) + QueueCost(queue[1..])
  }

  lemma {:induction false} QueueCostSnoc(queue: seq<Post>, post: Post)
    ensures QueueCost(queue + [post]) == QueueCost(queue) + PostCost(post)
  {
    if queue == [] {
      assert queue + [post] == [post];
    } else {
      assert (queue + [post])[1..] == queue[1..] + [post];
      QueueCostSnoc(queue[1..], post);
    }
  }

  function WriterCost(p: Params, w: Writer): (k: int) {
    60 * (|w.chunk| + |w.rest|) +
    match w.pc
    case Idle => 0
    case Work => if w.used == p.size then 25 else 5
    case Flush(_) => -5
    case Publish(_) => 10
    case Poll(_) => 8
    case Closing => 1
    case Closed => 0
  }

  function ConsumerCost(r: Remote): (k: int) {
    6 * (|r.published| - |r.delivered|) +
    match r.cpc
    case Scanning => 1
    case ZeroCounter => 0
    case ClearConsumable => -1
    case SetWriteable => -2
    case Taking => -3
    case Retired => 0
  }

  /** An upper bound on the useful steps left before the writer needs a new call. */
  function Measure(p: Params, s: State): (k: int) {
    WriterCost(p, s.w) + QueueCost(s.r.queue) + ConsumerCost(s.r)
  }

  /** What a call may add to the measure. */
  function CallCost(step: Step): (k: nat) {
    match step
    case Append(data) => 60 * |data| + 25
    case Close => 9
    case _ => 0
  }

  lemma MeasureNonNegative(p: Params, s: State)
    requires Inv(p, s)
    ensures Measure(p, s) >= 0
  {
  }

  lemma StageMeasure(p: Params, s: State, at: nat, k: nat)
    requires InBounds(p, s) && k <= |s.w.chunk| && at + k <= p.staging && s.w.used + k <= p.size
    requires k > 0 || (s.w.chunk == [] && s.w.rest == [])
    ensures var s' := StageAndPost(p, s, at, k);
            WriterCost(p, s'.w) + QueueCost(s'.r.queue) <=
              60 * (|s.w.chunk| + |s.w.rest|) + QueueCost(s.r.queue) + (if k > 0 then 26 - 59 * k else 1)
  {
    QueueCostSnoc(s.r.queue, Data(s.w.cur, s.w.used, at, k));
  }

  lemma SuperAppendMeasure(p: Params, s: State)
    requires Inv(p, s) && s.w.pc == Work
    ensures Measure(p, SuperAppend(p, s)) < Measure(p, s)
  {
    var k := FirstPart(p, s.w);
    if !(p.size < s.w.used + |s.w.chunk| && s.w.used == p.size) && k + s.w.offset <= p.staging {
      StageMeasure(p, s, s.w.offset, k);
    } else {
      QueueCostSnoc(s.r.queue, Head(s.w.cur));
    }
  }

  lemma WriteMeasure(p: Params, s: State)
    requires Inv(p, s)
    ensures Measure(p, Apply(p, s, Write)) <= Measure(p, s) - (if Useful(p, s, Write) then 1 else 0)
  {
    match s.w.pc {
      case Work => SuperAppendMeasure(p, s);
      case Flush(k) => if s.r.queue == [] { StageMeasure(p, s, 0, k); }
      case _ =>
    }
  }

  lemma LandMeasure(p: Params, s: State)
    requires InBounds(p, s)
    ensures Measure(p, Apply(p, s, Land)) <= Measure(p, s) - (if Useful(p, s, Land) then 1 else 0)
  {
    if s.r.queue != [] {
      var r' := Apply(p, s, Land).r;
      if r'.queue != s.r.queue[1..] {
        assert r'.queue[1..] == s.r.queue[1..];
      }
    }
  }

  lemma CallMeasure(p: Params, s: State, step: Step)
    requires Inv(p, s) && (step.Append? || step.Close?)
    ensures Measure(p, Apply(p, s, step)) <= Measure(p, s) + CallCost(step)
  {
    if step.Close? {
      QueueCostSnoc(s.r.queue, Head(s.w.cur));
    }
  }

  /** Every useful step decreases the measure, no other step of the three parties increases it. */
  lemma StepMeasure(p: Params, s: State, step: Step)
    requires Inv(p, s)
    ensures Measure(p, Apply(p, s, step)) + (if Useful(p, s, step) then 1 else 0) <= Measure(p, s) + CallCost(step)
  {
    match step {
      case Write => WriteMeasure(p, s);
      case Land => LandMeasure(p, s);
      case Consume => ConsumableMeansPublishedWhenScanning(p, s);
      case _ => CallMeasure(p, s, step);
    }
  }

  lemma ConsumableMeansPublishedWhenScanning(p: Params, s: State)
    requires Inv(p, s)
    ensures s.r.cpc == Scanning && !PrevIsEnd(s.r) ==> (s.r.mem[s.r.iter].h.consumable <==> |s.r.delivered| < |s.r.published|)
    ensures s.r.cpc == Scanning ==> (PrevIsEnd(s.r) <==> Ended(s) && |s.r.delivered| == |s.r.published|)
  {
    if s.r.cpc == Scanning {
      ConsumableMeansPublished(p, s);
    }
  }

  /** How many steps of a schedule are useful. */
  function UsefulSteps(p: Params, s: State, schedule: seq<Step>): (k: nat)
    requires InBounds(p, s)
  {
    if schedule == [] then 0
    else
      var k := |schedule| - 1;
      UsefulSteps(p, s, schedule[..k]) + (if Useful(p, Run(p, s, schedule[..k]), schedule[k]) then 1 else 0)
  }

  function CallCosts(schedule: seq<Step>): (k: nat) {
    if schedule == [] then 0 else CallCosts(schedule[..|schedule| - 1]) + CallCost(schedule[|schedule| - 1])
  }

  lemma {:induction false} UsefulStepsBounded(p: Params, s: State, schedule: seq<Step>)
    requires Inv(p, s) && Sound(p, Run(p, s, schedule))
    ensures UsefulSteps(p, s, schedule) + Measure(p, Run(p, s, schedule)) <= Measure(p, s) + CallCosts(schedule)
  {
    if schedule != [] {
      var k := |schedule| - 1;
      var before := Run(p, s, schedule[..k]);
      SoundBefore(p, before, schedule[k]);
      UsefulStepsBounded(p, s, schedule[..k]);
      RunInv(p, s, schedule[..k]);
      StepMeasure(p, before, schedule[k]);
    }
  }

  /** However a finite sequence of calls is interleaved, the number of useful steps is bounded by the calls alone. */
  lemma FiniteWork(p: Params, schedule: seq<Step>)
    requires p.Valid() && Sound(p, After(p, schedule))
    ensures UsefulSteps(p, Init(p), schedule) <= 1 + CallCosts(schedule)
  {
    InitInv(p);
    UsefulStepsBounded(p, Init(p), schedule);
    AfterInv(p, schedule);
    MeasureNonNegative(p, After(p, schedule));
  }

  // ---------------------------------------------------------------- no deadlock

  /** Nothing left to do: the writer waits for a call and everything published is delivered, or the ring is retired. */
  predicate Quiet(s: State) {
    && s.r.queue == []
    && s.r.delivered == s.r.published
    && ((s.w.pc == Idle && s.r.cpc == Scanning) || (s.w.pc == Closed && s.r.cpc == Retired))
  }

  /** No deadlock: unless everything is delivered and the writer waits for a call, or the ring is retired, some party
      has a useful step. In particular, whenever the writer spins on its next segment, the consumer can move. */
  lemma NoDeadlock(p: Params, s: State)
    requires Inv(p, s)
    ensures Useful(p, s, Write) || Useful(p, s, Land) || Useful(p, s, Consume) || Quiet(s)
    ensures s.w.pc.Poll? && !Useful(p, s, Write) ==> Useful(p, s, Consume)
  {
    ConsumableMeansPublishedWhenScanning(p, s);
    if s.w.pc.Poll? {
      WriteableMeansFree(p, s);
    }
    if !Useful(p, s, Consume) {
      assert s.r.published[..|s.r.published|] == s.r.published;
    }
  }

  lemma UsefulStep(p: Params, s: State) returns (step: Step)
    requires Inv(p, s) && Fits(p, s) && !Quiet(s)
    ensures step in {Write, Land, Consume}
    ensures var s' := Apply(p, s, step); Inv(p, s') && 0 <= Measure(p, s') < Measure(p, s) && s'.appended == s.appended
  {
    NoDeadlock(p, s);
    step := if Useful(p, s, Write) then Write else if Useful(p, s, Land) then Land else Consume;
    StepInv(p, s, step);
    StepMeasure(p, s, step);
    MeasureNonNegative(p, Apply(p, s, step));
  }

  /** From every state the parties can, by themselves, reach a quiet one. */
  lemma {:induction false} CanFinish(p: Params, s: State) returns (more: seq<Step>)
    requires Inv(p, s) && Fits(p, s)
    ensures forall i :: 0 <= i < |more| ==> more[i] in {Write, Land, Consume}
    ensures Quiet(Run(p, s, more)) && Run(p, s, more).appended == s.appended
    decreases Measure(p, s)
  {
    if Quiet(s) {
      more := [];
    } else {
      var step := UsefulStep(p, s);
      var rest := CanFinish(p, Apply(p, s, step));
      more := [step] + rest;
      RunCons(p, s, step, rest);
    }
  }

  /** Total delivery: any schedule that has closed the writer can be continued, without further calls, until the ring
      is retired, and then the delivered segments are the appended stream cut at the segment size. */
  lemma ClosedRingsDrain(p: Params, schedule: seq<Step>) returns (more: seq<Step>)
    requires p.Valid() && Fits(p, After(p, schedule)) && After(p, schedule).w.pc in {Closing, Closed}
    ensures forall i :: 0 <= i < |more| ==> more[i] in {Write, Land, Consume}
    ensures var s := After(p, schedule + more);
            && s.r.cpc == Retired
            && s.appended == After(p, schedule).appended
            && s.r.delivered == Cut(p.size, s.appended)
  {
    AfterInv(p, schedule);
    more := CanFinish(p, After(p, schedule));
    RunAppend(p, Init(p), schedule, more);
    StaysClosed(p, After(p, schedule), more);
    PublishedIsCut(p, schedule + more);
  }

  lemma {:induction false} StaysClosed(p: Params, s: State, schedule: seq<Step>)
    requires InBounds(p, s) && s.w.pc in {Closing, Closed}
    ensures Run(p, s, schedule).w.pc in {Closing, Closed}
  {
    if schedule != [] {
      StaysClosed(p, s, schedule[..|schedule| - 1]);
    }
  }
}
