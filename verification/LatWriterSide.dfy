/**
 What the writer of a latency ring keeps on a ring of any size, whatever the iterator does there: its credits, and the writes
 in flight.
 */
module LatWriterSide {
  import opened Util
  import opened LatProtocol
  import opened LatInvariant
  import opened LatProgress

  ghost predicate WriterSide(p: Params, s: State) {
    && p.n > 0
    && InBounds(p, s)
    && s.r.landed <= Sent(s) && s.w.known <= s.r.credit
    && InFlight(p, s)
    && WriterInv(p, s)
    && (s.w.free == 0 && s.w.pc != Wait ==> s.r.landed == Sent(s))
  }

  lemma SendSide(p: Params, s: State)
    requires WriterSide(p, s) && s.w.pc.Sending? && s.w.free > 0
    ensures WriterSide(p, Send(p, s, s.w.pc.data))
  {
    var s' := Send(p, s, s.w.pc.data);
    SlotNext(p.n, Sent(s));
    assert InFlight(p, s') by { SendInFlight(p, s, s'); }
  }

  lemma LandSide(p: Params, s: State)
    requires WriterSide(p, s)
    ensures WriterSide(p, Apply(p, s, Land))
  {
    if s.r.queue != [] {
      if s.r.queue[0].Message? {
        LandMessageInFlight(p, s, Apply(p, s, Land));
      } else {
        StampInFlight(p, s);
      }
    }
  }

  lemma WaitSide(p: Params, s: State)
    requires WriterSide(p, s) && !(s.w.pc.Sending? && s.w.free > 0)
    ensures WriterSide(p, Apply(p, s, Write))
  {
  }

  lemma AppendSide(p: Params, s: State, data: seq<byte>)
    requires WriterSide(p, s)
    ensures WriterSide(p, Apply(p, s, Append(data)))
  {
  }

  lemma CloseSide(p: Params, s: State)
    requires WriterSide(p, s)
    ensures WriterSide(p, Apply(p, s, Close))
  {
  }

  lemma StepSide(p: Params, s: State, step: Step)
    requires WriterSide(p, s)
    ensures WriterSide(p, Apply(p, s, step))
  {
    match step {
      case Write => if s.w.pc.Sending? && s.w.free > 0 { SendSide(p, s); } else { WaitSide(p, s); }
      case Land => LandSide(p, s);
      case Consume => WriterSideFrame(p, s, Apply(p, s, Consume));
      case Append(data) => AppendSide(p, s, data);
      case Close => CloseSide(p, s);
    }
  }

  lemma {:induction false} RunSide(p: Params, schedule: seq<Step>)
    requires p.Valid()
    ensures WriterSide(p, After(p, schedule))
  {
    if schedule != [] {
      var k := |schedule| - 1;
      RunSide(p, schedule[..k]);
      StepSide(p, After(p, schedule[..k]), schedule[k]);
    }
  }

  /** The writer's credits and writes in every run, on a ring of any size: credits left are those known and not spent, no more
      are known than the counter word holds, and with nothing in flight every message sent has landed. The message that spends the last credit has landed when append returns. */
  lemma CreditsOfWriter(p: Params, schedule: seq<Step>)
    requires p.Valid()
    ensures var s := After(p, schedule);
            && s.w.free == s.w.known - Sent(s) && s.w.known <= s.r.credit
            && s.r.landed <= Sent(s) && (s.r.queue == [] ==> s.r.landed == Sent(s))
            && (s.w.free == 0 && s.w.pc != Wait ==> s.r.landed == Sent(s))
  {
    RunSide(p, schedule);
  }

  /** The message append has still to send has not landed. */
  lemma MessageIsPending(p: Params, schedule: seq<Step>)
    requires p.Valid() && After(p, schedule).w.pc.Sending?
    ensures After(p, schedule).r.landed < |After(p, schedule).messages|
  {
    RunSide(p, schedule);
  }
}
