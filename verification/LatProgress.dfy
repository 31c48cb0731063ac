/** The latency-optimised ring never deadlocks, and only finitely many of its steps are useful. */
module LatProgress {
  import opened LatProtocol
  import opened LatInvariant

  /** The state a schedule leads to from a fresh ring. */
  function After(p: Params, schedule: seq<Step>): (s: State)
    requires p.Valid()
    ensures InBounds(p, s)
  {
    Run(p, Init(p), schedule)
  }

  lemma AfterInv(p: Params, schedule: seq<Step>)
    requires p.Valid() && Sound(p, After(p, schedule))
    ensures Inv(p, After(p, schedule))
  {
    InitInv(p);
    RunInv(p, Init(p), schedule);
  }

  predicate Useful(p: Params, s: State, step: Step)
    requires InBounds(p, s)
  {
    match step
    case Append(_) => false
    case Close => false
    case Write =>
      (match s.w.pc
       case Idle => false
       case Closed => false
       case Sending(_) => s.w.free > 0 || (s.r.queue == [] && s.r.credit > s.w.known)
       case _ => s.r.queue == [])
    case Land => s.r.queue != []
    case Consume => s.r.cpc != Retired && (s.r.cpc == Scanning ==> PrevIsEnd(s.r) || s.r.mem[s.r.iter].h.consumable)
  }

  /** A step that is not useful changes nothing at all. */
  lemma UselessChangesNothing(p: Params, s: State, step: Step)
    requires InBounds(p, s) && step in {Write, Land, Consume} && !Useful(p, s, step)
    ensures Apply(p, s, step) == s
  {
  }

  // ---------------------------------------------------------------- measure

  function PostCost(post: Post): (k: nat) {
    if post.Message? then 9 else 1
  }

  function QueueCost(queue: seq<Post>): (k: nat) {
    if queue == [] then 0 else PostCost(queue[0]) + QueueCost(queue[1..])
  }

  lemma {:induction false} QueueCostSnoc(queue: seq<Post>, post: Post)
    ensures QueueCost(queue + [post]) == QueueCost(queue) + PostCost(post)
  {
    if queue == [] {
      assert queue + [post] == [post];
    } else {
      assert (queue + [post])[1..] == queue[1..] + [post];
      QueueCostSnoc(queue[1..], post);
    }
  }

  function WriterCost(w: Writer): (k: nat) {
    match w.pc
    case Sending(_) => if w.free == 0 then 12 else 11
    case Wait => 1
    case Closing => 1
    case _ => 0
  }

  function ConsumerCost(r: Remote): (k: int) {
    7 * (r.landed - |r.delivered|) +
    match r.cpc
    case Scanning => 1
    case ZeroCounter => 0
    case ClearConsumable => -1
    case SetWriteable => -2
    case ReturnCredit => -3
    case Taking => -4
    case Retired => 0
  }

  function Measure(s: State): (k: int) {
    WriterCost(s.w) + QueueCost(s.r.queue) + ConsumerCost(s.r)
  }

  function CallCost(step: Step): (k: nat) {
    match step
    case Append(_) => 12
    case Close => 2
    case _ => 0
  }

  lemma MeasureNonNegative(p: Params, s: State)
    requires Inv(p, s)
    ensures Measure(s) >= 0
  {
  }

  lemma WriteMeasure(p: Params, s: State)
    requires InBounds(p, s)
    ensures Measure(Apply(p, s, Write)) + (if Useful(p, s, Write) then 1 else 0) <= Measure(s)
  {
    if s.w.pc.Sending? && s.w.free > 0 {
      var queue := Send(p, s, s.w.pc.data).r.queue;
      QueueCostSnoc(s.r.queue, queue[|s.r.queue|]);
    }
  }

  lemma CloseMeasure(p: Params, s: State)
    requires InBounds(p, s)
    ensures Measure(Apply(p, s, Close)) <= Measure(s) + CallCost(Close)
  {
    if s.w.pc == Idle && s.w.last.Some? {
      var queue := StartClose(p, s).r.queue;
      QueueCostSnoc(s.r.queue, queue[|s.r.queue|]);
    }
  }

  lemma ConsumeMeasure(p: Params, s: State)
    requires InBounds(p, s)
    ensures Measure(Apply(p, s, Consume)) + (if Useful(p, s, Consume) then 1 else 0) <= Measure(s)
  {
  }

  /** Every useful step decreases the measure, no other step of the three parties increases it. */
  lemma StepMeasure(p: Params, s: State, step: Step)
    requires Inv(p, s)
    ensures Measure(Apply(p, s, step)) + (if Useful(p, s, step) then 1 else 0) <= Measure(s) + CallCost(step)
  {
    match step {
      case Write => WriteMeasure(p, s);
      case Consume => ConsumeMeasure(p, s);
      case Close => CloseMeasure(p, s);
      case _ =>
    }
  }

  function UsefulSteps(p: Params, s: State, schedule: seq<Step>): (k: nat)
    requires InBounds(p, s)
  {
    if schedule == [] then 0
    else
      var k := |schedule| - 1;
      UsefulSteps(p, s, schedule[..k]) + (if Useful(p, Run(p, s, schedule[..k]), schedule[k]) then 1 else 0)
  }

  function CallCosts(schedule: seq<Step>): (k: nat) {
    if schedule == [] then 0 else CallCosts(schedule[..|schedule| - 1]) + CallCost(schedule[|schedule| - 1])
  }

  lemma {:induction false} UsefulStepsBounded(p: Params, s: State, schedule: seq<Step>)
    requires Inv(p, s) && Sound(p, Run(p, s, schedule))
    ensures UsefulSteps(p, s, schedule) + Measure(Run(p, s, schedule)) <= Measure(s) + CallCosts(schedule)
  {
    if schedule != [] {
      var k := |schedule| - 1;
      var before := Run(p, s, schedule[..k]);
      SoundBefore(p, before, schedule[k]);
      UsefulStepsBounded(p, s, schedule[..k]);
      RunInv(p, s, schedule[..k]);
      StepMeasure(p, before, schedule[k]);
    }
  }

  /** However a finite sequence of calls is interleaved, the number of useful steps is bounded by the calls alone. */
  lemma FiniteWork(p: Params, schedule: seq<Step>)
    requires p.Valid() && p.n > 1
    ensures UsefulSteps(p, Init(p), schedule) <= 1 + CallCosts(schedule)
  {
    InitInv(p);
    UsefulStepsBounded(p, Init(p), schedule);
    AfterInv(p, schedule);
    MeasureNonNegative(p, After(p, schedule));
  }

  // ---------------------------------------------------------------- no deadlock

  /** Nothing left to do: the writer waits for a call and every message is delivered, or the ring is retired. */
  predicate Quiet(s: State) {
    && s.r.queue == []
    && |s.r.delivered| == s.r.landed == |s.messages|
    && ((s.w.pc == Idle && s.r.cpc == Scanning) || (s.w.pc == Closed && s.r.cpc == Retired))
  }

  /** No deadlock: in particular, whenever the writer spins for credit, a posted message can land, the counter already
      holds new credit, or the consumer can move. */
  lemma NoDeadlock(p: Params, s: State)
    requires Inv(p, s)
    ensures Useful(p, s, Write) || Useful(p, s, Land) || Useful(p, s, Consume) || Quiet(s)
    ensures s.w.pc.Sending? && !Useful(p, s, Write) ==> Useful(p, s, Land) || Useful(p, s, Consume)
  {
    if s.r.cpc == Scanning {
      ConsumableMeansLanded(p, s);
    }
  }

  lemma UsefulStep(p: Params, s: State) returns (step: Step)
    requires Inv(p, s) && p.n > 1 && !Quiet(s)
    ensures step in {Write, Land, Consume}
    ensures var s' := Apply(p, s, step); Inv(p, s') && 0 <= Measure(s') < Measure(s) && s'.messages == s.messages
  {
    NoDeadlock(p, s);
    step := if Useful(p, s, Write) then Write else if Useful(p, s, Land) then Land else Consume;
    StepInv(p, s, step);
    StepMeasure(p, s, step);
    MeasureNonNegative(p, Apply(p, s, step));
  }

  /** From every state the parties can, by themselves, reach a quiet one. */
  lemma {:induction false} CanFinish(p: Params, s: State) returns (more: seq<Step>)
    requires Inv(p, s) && p.n > 1
    ensures forall i :: 0 <= i < |more| ==> more[i] in {Write, Land, Consume}
    ensures Quiet(Run(p, s, more)) && Run(p, s, more).messages == s.messages
    decreases Measure(s)
  {
    if Quiet(s) {
      more := [];
    } else {
      var step := UsefulStep(p, s);
      var rest := CanFinish(p, Apply(p, s, step));
      more := [step] + rest;
      RunCons(p, s, step, rest);
    }
  }
}
