/** What the latency-optimised ring promises its users, over every schedule. */
module LatTheorems {
  import opened Util
  import opened LatProtocol
  import opened LatInvariant
  import opened LatProgress

  /** The last message fills a whole segment, which is the size close stamps on it. */
  predicate LastIsFull(p: Params, s: State) {
    |s.messages| > 0 ==> |s.messages[|s.messages| - 1]| == p.size
  }

  /** Exactly once, in order: what next() has returned is always a prefix of the messages appended, and is all of them
      once the ring retires, provided the message that close stamps fills a segment. */
  lemma DeliversTheMessages(p: Params, schedule: seq<Step>)
    requires p.Valid() && p.n > 1
    ensures var s := After(p, schedule);
            && |s.r.delivered| <= |s.messages|
            && (s.r.cpc == Retired ==> |s.r.delivered| == |s.messages|)
            && ((s.w.pc in {Closing, Closed} ==> LastIsFull(p, s)) ==> s.r.delivered <= s.messages)
  {
    AfterInv(p, schedule);
    var s := After(p, schedule);
    if s.w.pc in {Closing, Closed} ==> LastIsFull(p, s) {
      forall i | 0 <= i < |s.r.delivered|
        ensures s.r.delivered[i] == s.messages[i]
      {
        assert Returned(p, s, i);
      }
    }
  }

  /** Every schedule that has closed the writer can be continued, without further calls, until the ring is retired and
      every message has been delivered. */
  lemma ClosedRingsDrain(p: Params, schedule: seq<Step>) returns (more: seq<Step>)
    requires p.Valid() && p.n > 1 && After(p, schedule).w.pc in {Closing, Closed}
    ensures forall i :: 0 <= i < |more| ==> more[i] in {Write, Land, Consume}
    ensures var s := After(p, schedule + more);
            && s.r.cpc == Retired
            && s.messages == After(p, schedule).messages
            && (LastIsFull(p, s) ==> s.r.delivered == s.messages)
  {
    AfterInv(p, schedule);
    more := CanFinish(p, After(p, schedule));
    RunAppend(p, Init(p), schedule, more);
    StaysClosed(p, After(p, schedule), more);
    DeliversTheMessages(p, schedule + more);
  }

  lemma {:induction false} StaysClosed(p: Params, s: State, schedule: seq<Step>)
    requires InBounds(p, s) && s.w.pc in {Closing, Closed}
    ensures Run(p, s, schedule).w.pc in {Closing, Closed} && Run(p, s, schedule).messages == s.messages
  {
    if schedule != [] {
      StaysClosed(p, s, schedule[..|schedule| - 1]);
    }
  }

  // ---------------------------------------------------------------- the condition is exact

  /** The stamp landed before the consumer took the last message, or it was taken at the stamped size. */
  predicate StampedFirst(p: Params, s: State) {
    && Stamped(s)
    && |s.r.delivered| <= |s.messages|
    && (|s.r.delivered| == |s.messages| > 0 ==> |s.r.delivered[|s.messages| - 1]| == p.size)
  }

  lemma StampedFirstStep(p: Params, s: State, step: Step)
    requires Inv(p, s) && StampedFirst(p, s)
    ensures StampedFirst(p, Apply(p, s, step))
  {
    if step == Consume && s.r.cpc == Taking {
      assert Held(p, s, |s.r.delivered|);
    }
  }

  lemma {:induction false} StampedFirstStays(p: Params, s: State, schedule: seq<Step>)
    requires Inv(p, s) && p.n > 1 && StampedFirst(p, s)
    ensures StampedFirst(p, Run(p, s, schedule))
  {
    if schedule != [] {
      var k := |schedule| - 1;
      RunInv(p, s, schedule[..k]);
      StampedFirstStays(p, s, schedule[..k]);
      StampedFirstStep(p, Run(p, s, schedule[..k]), schedule[k]);
    }
  }

  lemma RunPair(p: Params, s: State, a: Step, b: Step)
    requires InBounds(p, s)
    ensures Run(p, s, [a, b]) == Apply(p, Apply(p, s, a), b)
  {
    RunSnoc(p, s, [], a);
    assert [] + [a] == [a];
    RunSnoc(p, s, [a], b);
    assert [a] + [b] == [a, b];
  }

  /** From a quiet state a message is sent at once, or after one look at the counter. */
  lemma SendFromQuiet(p: Params, s: State, data: seq<byte>) returns (more: seq<Step>)
    requires Inv(p, s) && Quiet(s) && s.w.pc == Idle && |data| <= p.size
    ensures var s' := Run(p, s, more);
            && s'.w.pc in {Idle, Wait} && |s'.r.queue| == 1 && s'.r == s.r.(queue := s'.r.queue)
            && s'.messages == s.messages + [data]
  {
    RunPair(p, s, Append(data), Write);
    more := [Append(data), Write];
    if s.w.free == 0 {
      RunSnoc(p, s, more, Write);
      more := more + [Write];
    }
  }

  /** It lands; the consumer has not moved. */
  lemma LandOne(p: Params, s: State)
    requires Inv(p, s) && s.w.pc in {Idle, Wait} && |s.r.queue| == 1
    ensures var s' := Run(p, s, [Land, Write]);
            && s'.w.pc == Idle && s'.r.queue == [] && s'.messages == s.messages && s'.r.delivered == s.r.delivered
  {
    RunPair(p, s, Land, Write);
  }

  /** close's stamp lands while the last message is still waiting to be taken. */
  lemma StampFirst(p: Params, s: State)
    requires Inv(p, s) && s.w.pc == Idle && s.r.queue == [] && |s.r.delivered| < |s.messages|
    ensures var s' := Run(p, s, [Close, Land]); StampedFirst(p, s') && s'.messages == s.messages
  {
    RunPair(p, s, Close, Land);
  }

  lemma PadLast(p: Params, s: State, data: seq<byte>) returns (more: seq<Step>)
    requires Inv(p, s) && p.n > 1 && Quiet(s) && s.w.pc == Idle && |data| < p.size
    ensures var s' := Run(p, s, more);
            && Inv(p, s') && Quiet(s') && StampedFirst(p, s') && s'.messages == s.messages + [data]
  {
    var land, stamp := [Land, Write], [Close, Land];
    var send := SendFromQuiet(p, s, data);
    RunInv(p, s, send);
    var s1 := Run(p, s, send);
    LandOne(p, s1);
    RunInv(p, s1, land);
    var s2 := Run(p, s1, land);
    StampFirst(p, s2);
    RunInv(p, s2, stamp);
    var s3 := Run(p, s2, stamp);
    var finish := CanFinish(p, s3);
    StampedFirstStays(p, s3, finish);
    RunInv(p, s3, finish);
    more := send + land + stamp + finish;
    RunAppend(p, s, send + land + stamp, finish);
    RunAppend(p, s, send + land, stamp);
    RunAppend(p, s, send, land);
  }

  /** The condition is exact: after any schedule that leaves the writer between calls, a message shorter than a segment
      that is appended last can be delivered at full segment size, with stale bytes behind it. */
  lemma ShortLastMessageIsPadded(p: Params, schedule: seq<Step>, data: seq<byte>) returns (more: seq<Step>)
    requires p.Valid() && p.n > 1 && |data| < p.size
    requires After(p, schedule).w.pc == Idle
    ensures Padded(p, After(p, schedule + more), After(p, schedule).messages, data)
  {
    var s := After(p, schedule);
    AfterInv(p, schedule);
    more := PadFrom(p, s, data);
    assert After(p, schedule + more) == Run(p, s, more) by { RunAppend(p, Init(p), schedule, more); }
  }

  /** The ring is retired and has delivered one entry a message, the last, `data`, at full segment size. */
  ghost predicate Padded(p: Params, s: State, before: seq<seq<byte>>, data: seq<byte>) {
    && s.r.cpc == Retired
    && s.messages == before + [data]
    && |s.r.delivered| == |s.messages|
    && |s.r.delivered[|s.messages| - 1]| == p.size
    && s.r.delivered != s.messages
  }

  lemma PadFrom(p: Params, s: State, data: seq<byte>) returns (more: seq<Step>)
    requires Inv(p, s) && p.n > 1 && s.w.pc == Idle && |data| < p.size
    ensures Padded(p, Run(p, s, more), s.messages, data)
  {
    var drain := CanFinish(p, s);
    RunInv(p, s, drain);
    StaysIdle(p, s, drain);
    var quiet := Run(p, s, drain);
    var pad := PadLast(p, quiet, data);
    more := drain + pad;
    RunAppend(p, s, drain, pad);
    PaddedLast(p, Run(p, quiet, pad), s.messages, data);
  }

  /** A quiet ring whose stamp came first has delivered its last message at full segment size. */
  lemma PaddedLast(p: Params, s: State, before: seq<seq<byte>>, data: seq<byte>)
    requires Quiet(s) && StampedFirst(p, s) && s.messages == before + [data] && |data| < p.size
    ensures Padded(p, s, before, data)
  {
    assert s.messages[|s.messages| - 1] == data;
  }

  lemma {:induction false} StaysIdle(p: Params, s: State, schedule: seq<Step>)
    requires InBounds(p, s) && s.w.pc == Idle
    requires forall i :: 0 <= i < |schedule| ==> schedule[i] in {Write, Land, Consume}
    ensures Run(p, s, schedule).w.pc == Idle
  {
    if schedule != [] {
      StaysIdle(p, s, schedule[..|schedule| - 1]);
    }
  }

  // ---------------------------------------------------------------- credits, ownership, links

  /** Credit conservation: credits left = known counter - sent, known <= counter word = n + released; so never more than
      n messages are sent and unreleased. */
  lemma CreditsAreConserved(p: Params, schedule: seq<Step>)
    requires p.Valid() && p.n > 1
    ensures var s := After(p, schedule);
            var released := if s.r.cpc == Taking || s.r.delivered == [] then |s.r.delivered| else |s.r.delivered| - 1;
            && s.w.free == s.w.known - Sent(s)
            && s.w.known <= s.r.credit == p.n + released
            && Sent(s) <= released + p.n
  {
    AfterInv(p, schedule);
  }

  /** The segment next() returned last, until its credit has been returned. */
  predicate IsHeld(r: Remote, k: nat) {
    r.prev == Some(k) && r.cpc != Taking
  }

  /** A message lands on the one segment that is free and next to be filled. */
  lemma MessageLandsOnFree(p: Params, s: State, k: nat)
    requires Inv(p, s) && s.r.queue != [] && s.r.queue[0].Message? && k < p.n
    requires s.r.mem[k].h.consumable || IsHeld(s.r, k)
    ensures s.r.queue[0].seg != k
  {
    var (L, R) := (s.r.landed, Released(p, s.r));
    LandMessageInFlight(p, s, s.(r := s.r.(queue := s.r.queue[1..], landed := L + 1)));
    SlotsApart(p.n, R, L);
    assert Free(p, s.r, L);
  }

  /** No overwrite: a message never lands on a consumable or held segment, and no step changes such a segment's payload. */
  lemma NoOverwrite(p: Params, schedule: seq<Step>, step: Step, k: nat)
    requires p.Valid() && p.n > 1 && k < p.n
    ensures var (s, s') := (After(p, schedule), After(p, schedule + [step]));
            s.r.mem[k].h.consumable || IsHeld(s.r, k) ==>
              && s'.r.mem[k].data == s.r.mem[k].data
              && (step == Land && s.r.queue != [] && s.r.queue[0].Message? ==> s'.r.mem[k] == s.r.mem[k])
  {
    AfterInv(p, schedule);
    RunSnoc(p, Init(p), schedule, step);
    var s := After(p, schedule);
    if s.r.mem[k].h.consumable || IsHeld(s.r, k) {
      StepKeepsPayload(p, s, step, k);
    }
  }

  lemma StepKeepsPayload(p: Params, s: State, step: Step, k: nat)
    requires Inv(p, s) && k < p.n && (s.r.mem[k].h.consumable || IsHeld(s.r, k))
    ensures var s' := Apply(p, s, step);
            && s'.r.mem[k].data == s.r.mem[k].data
            && (step == Land && s.r.queue != [] && s.r.queue[0].Message? ==> s'.r.mem[k] == s.r.mem[k])
  {
    if step == Land && s.r.queue != [] && s.r.queue[0].Message? {
      MessageLandsOnFree(p, s, k);
    }
  }

  /** The bytes behind the pointer next() returned stay the ones it returned until its credit has been returned. */
  lemma HeldBytesAreStable(p: Params, schedule: seq<Step>)
    requires p.Valid() && p.n > 1
    ensures var s := After(p, schedule);
            var T := |s.r.delivered|;
            T > 0 && s.r.cpc != Taking ==> s.r.prev.Some? && s.r.delivered[T - 1] <= s.r.mem[s.r.prev.value].data
  {
    AfterInv(p, schedule);
  }

  /** Links are preserved: the successor the writer computes and writes is always the linked one. */
  lemma LinksArePreserved(p: Params, schedule: seq<Step>, k: nat)
    requires p.Valid() && p.n > 1 && k < p.n
    ensures After(p, schedule).r.mem[k].h.next == NextSlot(p.n, k)
  {
    AfterInv(p, schedule);
    var s := After(p, schedule);
    var i := SlotCover(p.n, Released(p, s.r), k);
    SlotNext(p.n, i);
    if i < s.r.landed {
      assert Held(p, s, i);
    } else {
      assert Free(p, s.r, i);
    }
  }
}
