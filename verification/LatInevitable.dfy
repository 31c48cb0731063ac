/** Draining is inevitable on a latency ring too: once every party has had its turn often enough, nothing is left to do. */
module LatInevitable {
  import opened Util
  import opened LatProtocol
  import opened LatInvariant
  import opened LatTheorems
  import opened LatProgress

  /** Steps of the three parties, no calls. */
  predicate Works(steps: seq<Step>) {
    forall i :: 0 <= i < |steps| ==> steps[i] in {Write, Land, Consume}
  }

  /** A round gives each party at least one turn, in any order and among any others. */
  predicate IsRound(steps: seq<Step>) {
    Works(steps) && Write in steps && Land in steps && Consume in steps
  }

  /** The work left has become less, or nothing has happened because nothing was useful. */
  ghost predicate Progress(p: Params, s: State, steps: seq<Step>, t: State)
    requires InBounds(p, s)
  {
    && Inv(p, t) && t.messages == s.messages && Measure(t) <= Measure(s)
    && (|| Measure(t) < Measure(s)
        || (t == s && forall i :: 0 <= i < |steps| && steps[i] in {Write, Land, Consume} ==> !Useful(p, s, steps[i])))
  }

  lemma WorkStep(p: Params, s: State, step: Step)
    requires Inv(p, s) && p.n > 1 && step in {Write, Land, Consume}
    ensures var s' := Apply(p, s, step);
            && Inv(p, s') && s'.messages == s.messages
            && Measure(s') <= Measure(s) - if Useful(p, s, step) then 1 else 0
  {
    StepInv(p, s, step);
    StepMeasure(p, s, step);
  }

  lemma OneMoreStep(p: Params, s: State, steps: seq<Step>, t: State, step: Step)
    requires Inv(p, s) && p.n > 1 && step in {Write, Land, Consume} && Progress(p, s, steps, t)
    ensures Progress(p, s, steps + [step], Apply(p, t, step))
  {
    WorkStep(p, t, step);
    if Measure(Apply(p, t, step)) == Measure(s) {
      UselessChangesNothing(p, s, step);
    }
  }

  lemma {:induction false} StepsProgress(p: Params, s: State, steps: seq<Step>)
    requires Inv(p, s) && p.n > 1 && Works(steps)
    ensures Progress(p, s, steps, Run(p, s, steps))
  {
    if steps != [] {
      var k := |steps| - 1;
      StepsProgress(p, s, steps[..k]);
      OneMoreStep(p, s, steps[..k], Run(p, s, steps[..k]), steps[k]);
      assert steps[..k] + [steps[k]] == steps;
    }
  }

  /** A round leaves less to do, unless nothing is left to do. */
  lemma RoundProgress(p: Params, s: State, round: seq<Step>)
    requires Inv(p, s) && p.n > 1 && IsRound(round)
    ensures var t := Run(p, s, round);
            Inv(p, t) && t.messages == s.messages && (Measure(t) < Measure(s) || Quiet(t))
  {
    StepsProgress(p, s, round);
    var t := Run(p, s, round);
    if Measure(t) == Measure(s) {
      NoDeadlock(p, s);
    }
  }

  /** Nothing to do stays nothing to do. */
  lemma QuietStays(p: Params, s: State, steps: seq<Step>)
    requires Inv(p, s) && p.n > 1 && Quiet(s) && Works(steps)
    ensures Quiet(Run(p, s, steps)) && Run(p, s, steps).messages == s.messages
  {
    StepsProgress(p, s, steps);
    var t := Run(p, s, steps);
    QuietIsLeast(p, s, t);
  }

  lemma QuietIsLeast(p: Params, s: State, t: State)
    requires Inv(p, s) && Quiet(s) && Inv(p, t) && t.messages == s.messages
    requires Measure(t) < Measure(s) || t == s
    ensures Quiet(t)
  {
    MeasureNonNegative(p, t);
  }

  lemma {:induction false} RoundsFinish(p: Params, s: State, rounds: seq<seq<Step>>)
    requires Inv(p, s) && p.n > 1 && (forall i :: 0 <= i < |rounds| ==> IsRound(rounds[i])) && |rounds| >= Measure(s)
    ensures Quiet(Run(p, s, Flatten(rounds))) && Run(p, s, Flatten(rounds)).messages == s.messages
    decreases |rounds|
  {
    if rounds == [] {
      if !Quiet(s) {
        var step := UsefulStep(p, s);
      }
    } else {
      var t := Run(p, s, rounds[0]);
      RoundProgress(p, s, rounds[0]);
      FirstRound(p, s, rounds);
      if Quiet(t) {
        RoundsWork(rounds[1..]);
        QuietStays(p, t, Flatten(rounds[1..]));
      } else {
        RoundsFinish(p, t, rounds[1..]);
      }
    }
  }

  lemma FirstRound(p: Params, s: State, rounds: seq<seq<Step>>)
    requires InBounds(p, s) && rounds != []
    ensures Run(p, s, Flatten(rounds)) == Run(p, Run(p, s, rounds[0]), Flatten(rounds[1..]))
  {
    assert rounds == [rounds[0]] + rounds[1..];
    FlattenCons(rounds[0], rounds[1..]);
    RunAppend(p, s, rounds[0], Flatten(rounds[1..]));
  }

  lemma {:induction false} RoundsWork(rounds: seq<seq<Step>>)
    requires forall i :: 0 <= i < |rounds| ==> IsRound(rounds[i])
    ensures Works(Flatten(rounds))
  {
    if rounds != [] {
      RoundsWork(rounds[..|rounds| - 1]);
    }
  }

  /** Inevitable delivery: after any schedule that has closed the writer, any sequence of rounds as long as the calls have cost ends
      with the ring retired and every message delivered, as it was if the last one fills its segment. */
  lemma ClosedRingsAlwaysDrain(p: Params, schedule: seq<Step>, rounds: seq<seq<Step>>)
    requires p.Valid() && p.n > 1 && After(p, schedule).w.pc in {Closing, Closed}
    requires (forall i :: 0 <= i < |rounds| ==> IsRound(rounds[i])) && |rounds| > CallCosts(schedule)
    ensures var s := After(p, schedule + Flatten(rounds));
            && s.r.cpc == Retired
            && s.messages == After(p, schedule).messages
            && |s.r.delivered| == |s.messages|
            && (LastIsFull(p, s) ==> s.r.delivered == s.messages)
  {
    var s := After(p, schedule);
    AfterInv(p, schedule);
    InitInv(p);
    UsefulStepsBounded(p, Init(p), schedule);
    RoundsFinish(p, s, rounds);
    RunAppend(p, Init(p), schedule, Flatten(rounds));
    StaysClosed(p, s, Flatten(rounds));
    DeliversTheMessages(p, schedule + Flatten(rounds));
  }
}
