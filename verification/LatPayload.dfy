/** What lies in the payload areas of a latency ring: the messages landed, one over the other, over what was there at the start. */
module LatPayload {
  import opened Util
  import opened LatProtocol
  import opened LatInvariant
  import opened LatProgress
  import opened LatWriterSide

  /** The areas after the messages have been written to slots 0, 1, ... in turn, each over the front of what its slot holds. */
  function Areas(p: Params, messages: seq<seq<byte>>): (areas: seq<seq<byte>>)
    requires p.n > 0 && |p.payload| == p.n
    ensures |areas| == p.n
  {
    if messages == [] then p.payload
    else
      var (before, last) := (Areas(p, messages[..|messages| - 1]), |messages| - 1);
      before[Slot(p.n, last) := Over(messages[last], before[Slot(p.n, last)])]
  }

  function Over(message: seq<byte>, area: seq<byte>): (area': seq<byte>) {
    if |message| <= |area| then message + area[|message|..] else message
  }

  ghost predicate PayloadInv(p: Params, s: State)
    requires p.Valid()
  {
    && WriterSide(p, s)
    && s.r.landed <= |s.messages|
    && forall k :: 0 <= k < p.n ==> s.r.mem[k].data == Areas(p, s.messages[..s.r.landed])[k]
  }

  lemma LandEffect(p: Params, s: State)
    requires WriterSide(p, s) && s.r.queue != [] && s.r.queue[0].Message?
    ensures var (s', L) := (Apply(p, s, Land), s.r.landed);
            && s'.r.landed == L + 1 <= |s.messages| && s'.messages == s.messages
            && (forall k :: 0 <= k < p.n ==>
                  s'.r.mem[k].data == if k == Slot(p.n, L) then Over(s.messages[L], s.r.mem[k].data) else s.r.mem[k].data)
  {
    LandMessageInFlight(p, s, Apply(p, s, Land));
  }

  lemma OneMoreArea(p: Params, messages: seq<seq<byte>>, L: nat)
    requires p.Valid() && L < |messages|
    ensures var before := Areas(p, messages[..L]);
            Areas(p, messages[..L + 1]) == before[Slot(p.n, L) := Over(messages[L], before[Slot(p.n, L)])]
  {
    assert messages[..L + 1][..L] == messages[..L];
  }

  lemma LandOver(p: Params, s: State)
    requires p.Valid() && PayloadInv(p, s) && s.r.queue != [] && s.r.queue[0].Message?
    ensures PayloadInv(p, Apply(p, s, Land))
  {
    LandSide(p, s);
    LandEffect(p, s);
    OneMoreArea(p, s.messages, s.r.landed);
  }

  /** No other step touches a payload area. */
  lemma OtherStepsKeep(p: Params, s: State, step: Step)
    requires InBounds(p, s) && !(step == Land && s.r.queue != [] && s.r.queue[0].Message?)
    ensures var s' := Apply(p, s, step);
            && s'.r.landed == s.r.landed && s.messages <= s'.messages
            && forall k :: 0 <= k < p.n ==> s'.r.mem[k].data == s.r.mem[k].data
  {
  }

  lemma PayloadStep(p: Params, s: State, step: Step)
    requires p.Valid() && PayloadInv(p, s)
    ensures PayloadInv(p, Apply(p, s, step))
  {
    if step == Land && s.r.queue != [] && s.r.queue[0].Message? {
      LandOver(p, s);
    } else {
      StepSide(p, s, step);
      OtherStepsKeep(p, s, step);
      assert Apply(p, s, step).messages[..s.r.landed] == s.messages[..s.r.landed];
    }
  }

  /** In every run, on a ring of any size, the payload areas hold the landed messages, one over the other. */
  lemma {:induction false} PayloadIsOverlay(p: Params, schedule: seq<Step>)
    requires p.Valid()
    ensures PayloadInv(p, After(p, schedule))
  {
    if schedule == [] {
      RunSide(p, []);
    } else {
      var k := |schedule| - 1;
      PayloadIsOverlay(p, schedule[..k]);
      PayloadStep(p, After(p, schedule[..k]), schedule[k]);
    }
  }

  /** What a padded last message is padded with: once the ring has retired, the last delivery, if it has the size of a segment, is the
      message and behind it what the earlier messages, or the start, left in its slot. */
  lemma PaddedWithStaleBytes(p: Params, schedule: seq<Step>)
    requires p.Valid() && p.n > 1 && After(p, schedule).r.cpc == Retired
    ensures var s := After(p, schedule);
            var last := |s.messages| - 1;
            && last >= 0 && |s.r.delivered| == last + 1
            && (s.r.delivered[last] == s.messages[last] ||
                s.r.delivered[last] == Over(s.messages[last], Areas(p, s.messages[..last])[Slot(p.n, last)]))
  {
    var s := After(p, schedule);
    AfterInv(p, schedule);
    LastTaken(p, s);
    PayloadIsOverlay(p, schedule);
    OneMoreArea(p, s.messages, |s.messages| - 1);
    assert s.messages[..s.r.landed] == s.messages;
  }

  lemma LastTaken(p: Params, s: State)
    requires Inv(p, s) && p.n > 1 && s.r.cpc == Retired
    ensures var last := |s.messages| - 1;
            && last >= 0 && |s.r.delivered| == s.r.landed == last + 1
            && (s.r.delivered[last] == s.messages[last] || s.r.delivered[last] == s.r.mem[Slot(p.n, last)].data)
  {
    assert Returned(p, s, |s.messages| - 1);
  }
}
