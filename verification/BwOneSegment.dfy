/**
 Why the bandwidth ring needs two segments: with one, iter and prev are the same segment. As soon as the stream does not
 fit into that segment, some schedule delivers its first piece, gives every later one back unread, and retires the ring.
 */
module BwOneSegment {
  import opened Util
  import opened SegmentHeader
  import opened BwProtocol
  import opened BwInvariant
  import opened BwTheorems
  import opened BwProgress

  /** The consumer has not moved. */
  predicate Untouched(r: Remote) {
    r.iter == 0 && r.prev == None && r.cpc == Scanning && r.delivered == []
  }

  /** The writer, not closing, and a consumer that has not moved. */
  ghost predicate Alone(p: Params, s: State) {
    Inv(p, s) && Untouched(s.r) && s.w.pc !in {Closing, Closed}
  }

  /** No step of the writer or the network is a step of the consumer, or a call. */
  lemma OthersStep(p: Params, s: State, step: Step)
    requires InBounds(p, s) && Untouched(s.r) && s.w.pc !in {Closing, Closed} && step in {Write, Land}
    ensures var s' := Apply(p, s, step); Untouched(s'.r) && s'.w.pc !in {Closing, Closed} && s'.appended == s.appended
  {
  }

  lemma AloneStep(p: Params, s: State, step: Step)
    requires Alone(p, s) && step in {Write, Land}
    ensures var s' := Apply(p, s, step);
            && Alone(p, s') && s'.appended == s.appended
            && 0 <= Measure(p, s') && (Useful(p, s, step) ==> Measure(p, s') < Measure(p, s))
  {
    var s' := Apply(p, s, step);
    OthersStep(p, s, step);
    StepInv(p, s, step);
    assert 0 <= Measure(p, s') by { MeasureNonNegative(p, s'); }
    StepMeasure(p, s, step);
  }

  /** The writer and the network on their own, until neither has a useful step. */
  lemma {:induction false} WriterAlone(p: Params, s: State) returns (more: seq<Step>)
    requires Alone(p, s)
    ensures forall i :: 0 <= i < |more| ==> more[i] in {Write, Land}
    ensures var s' := Run(p, s, more);
            && Alone(p, s') && s'.appended == s.appended
            && !Useful(p, s', Write) && !Useful(p, s', Land)
    decreases Measure(p, s)
  {
    if !Useful(p, s, Write) && !Useful(p, s, Land) {
      more := [];
    } else {
      var step := if Useful(p, s, Write) then Write else Land;
      AloneStep(p, s, step);
      var rest := WriterAlone(p, Apply(p, s, step));
      more := [step] + rest;
      RunCons(p, s, step, rest);
    }
  }

  /** A writer that has run out of useful steps is between calls, or polls the one segment it has just published. */
  lemma WriterStuck(p: Params, s: State)
    requires p.n == 1 && Alone(p, s) && !Useful(p, s, Write) && !Useful(p, s, Land)
    ensures s.r.queue == [] && s.w.cur == 0
    ensures s.w.pc == Idle || Polling(p, s)
  {
    if s.w.pc.Poll? {
      assert Held(p, s, 0);
    }
  }

  ghost predicate Polling(p: Params, s: State) {
    && s.w.pc == Poll(0) && s.w.chunk != [] && s.r.queue == [] && s.r.filled == []
    && |s.r.mem| == 1 && s.r.mem[0].h == Header(p.size, 0, false, true, false)
    && |s.r.published| == 1 && s.r.published[0] == s.r.mem[0].data && |s.r.mem[0].data| == p.size
  }

  /** A stream longer than the segment leaves the writer polling. */
  lemma WriterSpins(p: Params, data: seq<byte>) returns (schedule: seq<Step>)
    requires p.Valid() && p.n == 1 && |data| > p.size
    ensures var s := After(p, schedule); Alone(p, s) && Polling(p, s) && s.appended == data && s.r.published == [data[..p.size]]
  {
    InitInv(p);
    StepInv(p, Init(p), Append(data));
    var start := Apply(p, Init(p), Append(data));
    var more := WriterAlone(p, start);
    schedule := [Append(data)] + more;
    RunCons(p, Init(p), Append(data), more);
    var s := After(p, schedule);
    WriterStuck(p, s);
    LongStreamPolls(p, s);
  }

  /** While the one segment is polled, the stream is what it holds and what the call has still to hand over. */
  lemma PollingStream(p: Params, s: State)
    requires StreamInv(s) && Polling(p, s)
    ensures s.appended == s.r.published[0] + (s.w.chunk + s.w.rest)
    ensures Flatten(s.r.published) == s.r.published[0] && |s.r.published[0]| == p.size
  {
    FlattenSnoc([], s.r.published[0]);
    assert s.r.published == [] + [s.r.published[0]];
  }

  lemma LongStreamPolls(p: Params, s: State)
    requires p.n == 1 && Alone(p, s) && |s.appended| > p.size && (s.w.pc == Idle || Polling(p, s))
    ensures Polling(p, s) && s.r.published == [s.appended[..p.size]]
  {
    if Polling(p, s) {
      PollingStream(p, s);
    }
  }

  // ---------------------------------------------------------------- the consumer's part

  /** The consumer on its own for k steps. */
  function Consumes(p: Params, r: Remote, k: nat): (r': Remote)
    requires p.Valid() && RemoteInBounds(p, r)
    ensures RemoteInBounds(p, r')
    decreases k
  {
    if k == 0 then r else Consumes(p, ConsumeStep(p, r), k - 1)
  }

  lemma {:induction false} RunConsumes(p: Params, s: State, k: nat) returns (steps: seq<Step>)
    requires InBounds(p, s)
    ensures Run(p, s, steps) == s.(r := Consumes(p, s.r, k))
    decreases k
  {
    if k == 0 {
      steps := [];
    } else {
      var rest := RunConsumes(p, Apply(p, s, Consume), k - 1);
      steps := [Consume] + rest;
      RunCons(p, s, Consume, rest);
    }
  }

  lemma TakeOnce(p: Params, r: Remote)
    requires p.Valid() && RemoteInBounds(p, r) && p.n == 1 && Untouched(r)
    requires r.mem[0].h == Header(p.size, 0, false, true, false)
    ensures Consumes(p, r, 3) == r.(prev := Some(0), delivered := [r.mem[0].data])
  {
    assert r.mem[0].data[..p.size] == r.mem[0].data;
    var r1 := r.(cpc := ZeroCounter);
    var r2 := r.(cpc := Taking);
    assert ConsumeStep(p, r) == r1 && ConsumeStep(p, r1) == r2;
    assert Consumes(p, r, 3) == Consumes(p, r1, 2) == Consumes(p, r2, 1) == Consumes(p, ConsumeStep(p, r2), 0);
  }

  /** The three stores of next() on the segment it is about to take. */
  lemma ReleaseTaken(p: Params, r: Remote)
    requires p.Valid() && RemoteInBounds(p, r) && p.n == 1
    requires r.iter == 0 && r.prev == Some(0) && r.cpc == Scanning
    requires r.mem[0].h == Header(p.size, 0, false, true, false)
    ensures Consumes(p, r, 4) == r.(mem := [Segment(FreeHeader(0), r.mem[0].data)], cpc := Taking)
  {
    var data := r.mem[0].data;
    var r1 := r.(cpc := ZeroCounter);
    var r2 := r.(mem := [Segment(Header(0, 0, false, true, false), data)], cpc := ClearConsumable);
    var r3 := r.(mem := [Segment(Header(0, 0, false, false, false), data)], cpc := BwProtocol.SetWriteable);
    var r4 := r.(mem := [Segment(FreeHeader(0), data)], cpc := Taking);
    assert ConsumeStep(p, r) == r1 && ConsumeStep(p, r1) == r2;
    assert ConsumeStep(p, r2) == r3 && ConsumeStep(p, r3) == r4;
    assert Consumes(p, r, 4) == Consumes(p, r1, 3) == Consumes(p, r2, 2) == Consumes(p, r3, 1) == Consumes(p, r4, 0);
  }

  lemma {:induction false} ConsumesSnoc(p: Params, r: Remote, k: nat)
    requires p.Valid() && RemoteInBounds(p, r)
    ensures Consumes(p, r, k + 1) == ConsumeStep(p, Consumes(p, r, k))
    decreases k
  {
    if k > 0 {
      ConsumesSnoc(p, ConsumeStep(p, r), k - 1);
    }
  }

  /** has_next sees the taken segment again; next() releases it and returns it empty. */
  lemma TakeAgain(p: Params, r: Remote)
    requires p.Valid() && RemoteInBounds(p, r) && p.n == 1
    requires r.iter == 0 && r.prev == Some(0) && r.cpc == Scanning
    requires r.mem[0].h == Header(p.size, 0, false, true, false)
    ensures Consumes(p, r, 5) == r.(mem := [Segment(FreeHeader(0), r.mem[0].data)], delivered := r.delivered + [[]])
  {
    ReleaseTaken(p, r);
    ConsumesSnoc(p, r, 4);
    assert r.mem[0].data[..0] == [];
  }

  // ---------------------------------------------------------------- a ring with a past

  /** What was published, delivered and appended before. */
  datatype Past = Past(published: seq<seq<byte>>, delivered: seq<seq<byte>>, appended: seq<byte>)

  /** The ring as if its writer had started afresh, after a past that leaves prev on the one segment. */
  function WithPast(s: State, past: Past): (s': State) {
    State(s.w, s.r.(prev := Some(0), delivered := past.delivered, published := past.published + s.r.published),
          past.appended + s.appended)
  }

  /** The past does not matter to the writer and the network. */
  lemma PastStep(p: Params, s: State, past: Past, step: Step)
    requires p.n == 1 && InBounds(p, s) && Untouched(s.r) && step in {Write, Land}
    ensures InBounds(p, WithPast(s, past)) && Untouched(Apply(p, s, step).r)
    ensures Apply(p, WithPast(s, past), step) == WithPast(Apply(p, s, step), past)
  {
    assert past.published + s.r.published + [s.r.filled] == past.published + (s.r.published + [s.r.filled]);
  }

  lemma {:induction false} PastRun(p: Params, s: State, past: Past, steps: seq<Step>)
    requires p.n == 1 && InBounds(p, s) && Untouched(s.r)
    requires forall i :: 0 <= i < |steps| ==> steps[i] in {Write, Land}
    ensures InBounds(p, WithPast(s, past)) && Untouched(Run(p, s, steps).r)
    ensures Run(p, WithPast(s, past), steps) == WithPast(Run(p, s, steps), past)
  {
    if steps == [] {
      assert InBounds(p, WithPast(s, past));
    } else {
      var k := |steps| - 1;
      PastRun(p, s, past, steps[..k]);
      PastStep(p, Run(p, s, steps[..k]), past, steps[k]);
    }
  }

  /** The writer has just been given its one segment back. */
  function Restarted(p: Params, s: State): (s': State)
    requires s.r.mem != []
  {
    State(s.w.(cur := 0, used := 0, hdr := FreeHeader(0), pc := Work),
          s.r.(mem := [Segment(FreeHeader(0), s.r.mem[0].data)], published := []), s.w.chunk + s.w.rest)
  }

  lemma RestartedIsAlone(p: Params, s: State)
    requires p.n == 1 && Alone(p, s) && Polling(p, s)
    ensures Alone(p, Restarted(p, s))
    ensures s.appended == Flatten(s.r.published) + Restarted(p, s).appended && |Flatten(s.r.published)| == p.size
  {
    var s' := Restarted(p, s);
    PollingStream(p, s);
    RestartedWindow(p, s);
    assert Filling(p, s', FreeHeader(0)) && NoHead(s'.r);
  }

  lemma RestartedWindow(p: Params, s: State)
    requires p.n == 1 && Untouched(s.r) && Polling(p, s)
    ensures Window(p, Restarted(p, s))
  {
    var s' := Restarted(p, s);
    assert Free(p, s'.r, 0);
  }

  function PastAfter(s: State, past: Past): (r: Past) {
    Past(past.published + s.r.published, past.delivered + [[]], past.appended + Flatten(s.r.published))
  }

  lemma PastAfterIs(p: Params, s: State, past: Past)
    requires p.n == 1 && Alone(p, s) && Polling(p, s)
    ensures var (s', past') := (Restarted(p, s), PastAfter(s, past));
            && |s'.appended| < |s.appended|
            && past'.appended + s'.appended == past.appended + s.appended
            && Flatten(past'.delivered) == Flatten(past.delivered)
  {
    RestartedIsAlone(p, s);
    FlattenSnoc(past.delivered, []);
  }

  /** The published segment is given back unread, and the writer goes on. */
  lemma GivenBackUnread(p: Params, s: State, past: Past) returns (more: seq<Step>)
    requires p.n == 1 && Alone(p, s) && Polling(p, s)
    ensures InBounds(p, WithPast(s, past))
    ensures Run(p, WithPast(s, past), more) ==
            WithPast(Restarted(p, s), PastAfter(s, past))
  {
    PastRun(p, s, past, []);
    var start := WithPast(s, past);
    TakeAgain(p, start.r);
    var take := RunConsumes(p, start, 5);
    more := take + [Write];
    RunSnoc(p, start, take, Write);
    assert Run(p, start, take).r.mem == [Segment(FreeHeader(0), s.r.mem[0].data)];
    PollFindsSegment(p, Run(p, start, take));
    RestartedIsAlone(p, s);
    PastRegroups(s, past);
  }

  lemma PastRegroups(s: State, past: Past)
    requires s.appended == Flatten(s.r.published) + (s.w.chunk + s.w.rest)
    ensures past.published + s.r.published + [] == past.published + s.r.published
    ensures past.appended + s.appended == past.appended + Flatten(s.r.published) + (s.w.chunk + s.w.rest)
  {
  }

  lemma PollFindsSegment(p: Params, s: State)
    requires p.n == 1 && InBounds(p, s) && s.w.pc == Poll(0) && s.r.mem[0].h == FreeHeader(0)
    ensures Apply(p, s, Write) == s.(w := s.w.(cur := 0, used := 0, hdr := FreeHeader(0), pc := Work))
  {
  }

  /** close ends the ring, whose last piece is not delivered either. */
  lemma CloseRetires(p: Params, s: State, past: Past)
    requires p.n == 1 && Alone(p, s) && s.w.pc == Idle && s.r.queue == [] && s.w.cur == 0
    ensures InBounds(p, WithPast(s, past))
    ensures var s' := Run(p, WithPast(s, past), [Close, Land, Consume]);
            s'.r.cpc == Retired && s'.appended == past.appended + s.appended && s'.r.delivered == past.delivered
  {
    PastRun(p, s, past, []);
    var start := WithPast(s, past);
    var s1 := Apply(p, start, Close);
    var s2 := Apply(p, s1, Land);
    RunCons(p, s2, Consume, []);
    RunCons(p, s1, Land, [Consume]);
    RunCons(p, start, Close, [Land, Consume]);
    assert [Consume] + [] == [Consume] && [Land] + [Consume] == [Land, Consume] && [Close] + [Land, Consume] == [Close, Land, Consume];
    assert s1.r.queue == [Head(0)];
  }

  /** Nothing the writer still has to write is ever delivered. */
  lemma {:induction false} RestIsLost(p: Params, s: State, past: Past) returns (more: seq<Step>)
    requires p.n == 1 && Alone(p, s)
    ensures InBounds(p, WithPast(s, past))
    ensures var s' := Run(p, WithPast(s, past), more);
            s'.r.cpc == Retired && s'.appended == past.appended + s.appended && Flatten(s'.r.delivered) == Flatten(past.delivered)
    decreases |s.appended|, 1
  {
    var alone := WriterAlone(p, s);
    var stuck := Run(p, s, alone);
    PastRun(p, s, past, alone);
    WriterStuck(p, stuck);
    var rest;
    if stuck.w.pc == Idle {
      rest := [Close, Land, Consume];
      CloseRetires(p, stuck, past);
    } else {
      rest := PublishedIsLost(p, stuck, past);
    }
    more := alone + rest;
    RunAppend(p, WithPast(s, past), alone, rest);
  }

  lemma {:induction false} PublishedIsLost(p: Params, s: State, past: Past) returns (more: seq<Step>)
    requires p.n == 1 && Alone(p, s) && Polling(p, s)
    ensures InBounds(p, WithPast(s, past))
    ensures var s' := Run(p, WithPast(s, past), more);
            s'.r.cpc == Retired && s'.appended == past.appended + s.appended && Flatten(s'.r.delivered) == Flatten(past.delivered)
    decreases |s.appended|, 0
  {
    RestartedIsAlone(p, s);
    var back := GivenBackUnread(p, s, past);
    PastAfterIs(p, s, past);
    var rest := RestIsLost(p, Restarted(p, s), PastAfter(s, past));
    more := back + rest;
    RunAppend(p, WithPast(s, past), back, rest);
  }

  /** The first segment is taken, and the writer polls for it. */
  lemma FirstTaken(p: Params, data: seq<byte>) returns (schedule: seq<Step>, s: State)
    requires p.Valid() && p.n == 1 && |data| > p.size
    ensures Alone(p, s) && Polling(p, s) && s.appended == data && s.r.published == [data[..p.size]]
    ensures After(p, schedule) == WithPast(s, Past([], [data[..p.size]], []))
  {
    var spin := WriterSpins(p, data);
    s := After(p, spin);
    TakeOnce(p, s.r);
    var take := RunConsumes(p, s, 3);
    schedule := spin + take;
    RunAppend(p, Init(p), spin, take);
    assert [] + s.r.published == s.r.published && [] + s.appended == s.appended;
  }

  /** On a one-segment ring, for every stream that does not fit into the segment, some run retires the ring with only the first
      segment's bytes delivered: everything else is lost. */
  lemma OneSegmentRingLosesData(p: Params, data: seq<byte>) returns (schedule: seq<Step>)
    requires p.Valid() && p.n == 1 && |data| > p.size
    ensures var s := After(p, schedule);
            s.r.cpc == Retired && s.appended == data && Flatten(s.r.delivered) == data[..p.size]
  {
    var first, s := FirstTaken(p, data);
    var past := Past([], [data[..p.size]], []);
    var rest := PublishedIsLost(p, s, past);
    schedule := first + rest;
    RunAppend(p, Init(p), first, rest);
    FlattenSnoc([], data[..p.size]);
    assert [] + [data[..p.size]] == [data[..p.size]];
    assert [] + data == data;
  }

  /** The ring has handed out a segment that was never published. */
  lemma TakenTwice(p: Params, data: seq<byte>) returns (schedule: seq<Step>)
    requires p.Valid() && p.n == 1 && |data| > p.size
    ensures var s := After(p, schedule); s.appended == data && |s.r.delivered| > |s.r.published|
  {
    var first, s := FirstTaken(p, data);
    var start := After(p, first);
    TakeAgain(p, start.r);
    var again := RunConsumes(p, start, 5);
    schedule := first + again;
    RunAppend(p, Init(p), first, again);
    assert [] + data == data;
  }

  /** Every schedule that appends this stream and retires the ring has delivered all its bytes. */
  ghost predicate LosesNothing(p: Params, data: seq<byte>)
    requires p.Valid()
  {
    forall schedule :: After(p, schedule).appended == data && After(p, schedule).r.cpc == Retired ==>
      Flatten(After(p, schedule).r.delivered) == data
  }

  /** Every schedule that appends this stream has next() return published segments only, each once and in order. */
  ghost predicate PublishedOnly(p: Params, data: seq<byte>)
    requires p.Valid()
  {
    forall schedule :: After(p, schedule).appended == data ==>
      After(p, schedule).r.delivered <= After(p, schedule).r.published
  }

  /** The condition is exact, for every ring and every stream: no run loses a byte, and no run delivers what was not published, if and
      only if the ring has two segments or the stream fits into one. */
  lemma ExactlyOnceIffItFits(p: Params, data: seq<byte>)
    requires p.Valid()
    ensures LosesNothing(p, data) <==> (p.n > 1 || |data| <= p.size)
    ensures PublishedOnly(p, data) <==> (p.n > 1 || |data| <= p.size)
  {
    if p.n > 1 || |data| <= p.size {
      forall schedule | After(p, schedule).appended == data
        ensures After(p, schedule).r.delivered <= After(p, schedule).r.published
        ensures After(p, schedule).r.cpc == Retired ==> Flatten(After(p, schedule).r.delivered) == data
      {
        AfterInv(p, schedule);
        DeliversTheStream(p, schedule);
      }
    } else {
      var lost := OneSegmentRingLosesData(p, data);
      assert |Flatten(After(p, lost).r.delivered)| < |data|;
      var twice := TakenTwice(p, data);
      assert After(p, twice).appended == data;
    }
  }
}
