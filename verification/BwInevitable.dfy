/**
 Draining is not only possible but inevitable: whatever order the parties take their steps in, once each of them has had
 its turn often enough, nothing is left to do.
 */
module BwInevitable {
  import opened Util
  import opened BwProtocol
  import opened BwInvariant
  import opened BwTheorems
  import opened BwProgress

  /** Steps of the three parties, no calls. */
  predicate Works(steps: seq<Step>) {
    forall i :: 0 <= i < |steps| ==> steps[i] in {Write, Land, Consume}
  }

  /** A round gives each party at least one turn, in any order and among any others. */
  predicate IsRound(steps: seq<Step>) {
    Works(steps) && Write in steps && Land in steps && Consume in steps
  }

  /** Nothing has happened but polls. */
  predicate SameButHeader(s: State, s': State) {
    s' == s.(w := s.w.(hdr := s'.w.hdr)) && (s.w.pc.Poll? || s' == s)
  }

  lemma UselessStep(p: Params, s: State, t: State, step: Step)
    requires InBounds(p, s) && InBounds(p, t) && SameButHeader(s, t)
    requires step in {Write, Land, Consume} && !Useful(p, s, step)
    ensures SameButHeader(s, Apply(p, t, step))
  {
    UselessChangesNothing(p, t, step);
  }

  lemma SameUse(p: Params, s: State, t: State)
    requires InBounds(p, s) && InBounds(p, t) && SameButHeader(s, t)
    ensures forall step :: step in {Write, Land, Consume} ==> Useful(p, t, step) == Useful(p, s, step)
    ensures Measure(p, t) == Measure(p, s) && Quiet(t) == Quiet(s)
  {
  }

  /** The work left has become less, or nothing has happened because nothing was useful. */
  ghost predicate Progress(p: Params, s: State, steps: seq<Step>, t: State)
    requires InBounds(p, s)
  {
    && Inv(p, t) && t.appended == s.appended && Measure(p, t) <= Measure(p, s)
    && (|| Measure(p, t) < Measure(p, s)
        || (SameButHeader(s, t) && forall i :: 0 <= i < |steps| && steps[i] in {Write, Land, Consume} ==> !Useful(p, s, steps[i])))
  }

  lemma WorkStep(p: Params, s: State, step: Step)
    requires Inv(p, s) && Fits(p, s) && step in {Write, Land, Consume}
    ensures var s' := Apply(p, s, step);
            && Inv(p, s') && Fits(p, s') && s'.appended == s.appended
            && Measure(p, s') <= Measure(p, s) - if Useful(p, s, step) then 1 else 0
  {
    StepInv(p, s, step);
    StepMeasure(p, s, step);
  }

  lemma OneMoreStep(p: Params, s: State, steps: seq<Step>, t: State, step: Step)
    requires Inv(p, s) && Fits(p, s) && step in {Write, Land, Consume} && Progress(p, s, steps, t)
    ensures Progress(p, s, steps + [step], Apply(p, t, step))
  {
    WorkStep(p, t, step);
    if Measure(p, Apply(p, t, step)) == Measure(p, s) {
      SameUse(p, s, t);
      UselessStep(p, s, t, step);
    }
  }

  lemma {:induction false} StepsProgress(p: Params, s: State, steps: seq<Step>)
    requires Inv(p, s) && Fits(p, s) && Works(steps)
    ensures Progress(p, s, steps, Run(p, s, steps))
  {
    if steps != [] {
      var k := |steps| - 1;
      StepsProgress(p, s, steps[..k]);
      OneMoreStep(p, s, steps[..k], Run(p, s, steps[..k]), steps[k]);
      assert steps[..k] + [steps[k]] == steps;
    }
  }

  /** A round leaves less to do, unless nothing is left to do. */
  lemma RoundProgress(p: Params, s: State, round: seq<Step>)
    requires Inv(p, s) && Fits(p, s) && IsRound(round)
    ensures var t := Run(p, s, round);
            Inv(p, t) && Fits(p, t) && t.appended == s.appended && (Measure(p, t) < Measure(p, s) || Quiet(t))
  {
    StepsProgress(p, s, round);
    var t := Run(p, s, round);
    if Measure(p, t) == Measure(p, s) {
      NoDeadlock(p, s);
      SameUse(p, s, t);
    }
  }

  /** Nothing to do stays nothing to do. */
  lemma QuietStays(p: Params, s: State, steps: seq<Step>)
    requires Inv(p, s) && Fits(p, s) && Quiet(s) && Works(steps)
    ensures Quiet(Run(p, s, steps)) && Run(p, s, steps).appended == s.appended
  {
    StepsProgress(p, s, steps);
    var t := Run(p, s, steps);
    QuietIsLeast(p, s, t);
  }

  lemma QuietIsLeast(p: Params, s: State, t: State)
    requires Inv(p, s) && Quiet(s) && Inv(p, t) && t.appended == s.appended
    requires Measure(p, t) < Measure(p, s) || SameButHeader(s, t)
    ensures Quiet(t)
  {
    MeasureNonNegative(p, t);
    if SameButHeader(s, t) {
      SameUse(p, s, t);
    }
  }

  lemma {:induction false} RoundsFinish(p: Params, s: State, rounds: seq<seq<Step>>)
    requires Inv(p, s) && Fits(p, s) && (forall i :: 0 <= i < |rounds| ==> IsRound(rounds[i])) && |rounds| >= Measure(p, s)
    ensures Quiet(Run(p, s, Flatten(rounds))) && Run(p, s, Flatten(rounds)).appended == s.appended
    decreases |rounds|
  {
    if rounds == [] {
      if !Quiet(s) {
        var step := UsefulStep(p, s);
      }
    } else {
      var t := Run(p, s, rounds[0]);
      RoundProgress(p, s, rounds[0]);
      FirstRound(p, s, rounds);
      if Quiet(t) {
        RoundsWork(rounds[1..]);
        QuietStays(p, t, Flatten(rounds[1..]));
      } else {
        RoundsFinish(p, t, rounds[1..]);
      }
    }
  }

  lemma FirstRound(p: Params, s: State, rounds: seq<seq<Step>>)
    requires InBounds(p, s) && rounds != []
    ensures Run(p, s, Flatten(rounds)) == Run(p, Run(p, s, rounds[0]), Flatten(rounds[1..]))
  {
    assert rounds == [rounds[0]] + rounds[1..];
    FlattenCons(rounds[0], rounds[1..]);
    RunAppend(p, s, rounds[0], Flatten(rounds[1..]));
  }

  lemma {:induction false} RoundsWork(rounds: seq<seq<Step>>)
    requires forall i :: 0 <= i < |rounds| ==> IsRound(rounds[i])
    ensures Works(Flatten(rounds))
  {
    if rounds != [] {
      RoundsWork(rounds[..|rounds| - 1]);
    }
  }

  /** Inevitable delivery: after any schedule that has closed the writer, any sequence of rounds as long as the calls have cost ends
      with the ring retired and the appended stream, cut at the segment size, delivered. */
  lemma ClosedRingsAlwaysDrain(p: Params, schedule: seq<Step>, rounds: seq<seq<Step>>)
    requires p.Valid() && Fits(p, After(p, schedule)) && After(p, schedule).w.pc in {Closing, Closed}
    requires (forall i :: 0 <= i < |rounds| ==> IsRound(rounds[i])) && |rounds| > CallCosts(schedule)
    ensures var s := After(p, schedule + Flatten(rounds));
            && s.r.cpc == Retired
            && s.appended == After(p, schedule).appended
            && s.r.delivered == Cut(p.size, s.appended)
  {
    var s := After(p, schedule);
    AfterInv(p, schedule);
    InitInv(p);
    UsefulStepsBounded(p, Init(p), schedule);
    RoundsFinish(p, s, rounds);
    RunAppend(p, Init(p), schedule, Flatten(rounds));
    StaysClosed(p, s, Flatten(rounds));
    PublishedIsCut(p, schedule + Flatten(rounds));
  }
}
