/** Why the latency ring needs two segments: with one, the first message is always at risk of being returned twice. */
module LatOneSegment {
  import opened Util
  import opened SegmentHeader
  import opened LatProtocol
  import opened LatProgress

  /** The consumer on its own for k steps. */
  function Consumes(p: Params, r: Remote, k: nat): (r': Remote)
    requires p.Valid() && RemoteInBounds(p, r)
    ensures RemoteInBounds(p, r')
    decreases k
  {
    if k == 0 then r else Consumes(p, ConsumeStep(p, r), k - 1)
  }

  lemma {:induction false} RunConsumes(p: Params, s: State, k: nat) returns (steps: seq<Step>)
    requires InBounds(p, s)
    ensures Run(p, s, steps) == s.(r := Consumes(p, s.r, k))
    decreases k
  {
    if k == 0 {
      steps := [];
    } else {
      var rest := RunConsumes(p, Apply(p, s, Consume), k - 1);
      steps := [Consume] + rest;
      RunCons(p, s, Consume, rest);
    }
  }

  /** The first message is sent and lands. */
  lemma FirstMessageLands(p: Params, data: seq<byte>) returns (schedule: seq<Step>)
    requires p.Valid() && p.n == 1 && |data| <= p.size
    ensures var s := After(p, schedule);
            && s.messages == [data] && s.r.cpc == Scanning && s.r.iter == 0 && s.r.prev == None && s.r.delivered == []
            && s.r.mem[0].h == Header(|data|, 0, true, true, false)
  {
    var s0 := Init(p);
    var s1 := Apply(p, s0, Append(data));
    var s2 := Apply(p, s1, Write);
    schedule := [Append(data)] + ([Write] + ([Land] + []));
    RunCons(p, s2, Land, []);
    RunCons(p, s1, Write, [Land] + []);
    RunCons(p, s0, Append(data), [Write] + ([Land] + []));
    assert s2.r.queue == [Message(0, Header(|data|, 0, true, true, false), data)];
  }

  lemma TakeOnce(p: Params, r: Remote)
    requires p.Valid() && RemoteInBounds(p, r) && p.n == 1
    requires r.cpc == Scanning && r.iter == 0 && r.prev == None
    requires r.mem[0].h.consumable && r.mem[0].h.next == 0
    ensures var r' := Consumes(p, r, 3);
            r'.mem == r.mem && r'.cpc == Scanning && r'.iter == 0 && r'.prev == Some(0) && |r'.delivered| == |r.delivered| + 1
  {
    var r1 := r.(cpc := ZeroCounter);
    var r2 := r.(cpc := Taking);
    assert ConsumeStep(p, r) == r1 && ConsumeStep(p, r1) == r2;
    assert Consumes(p, r, 3) == Consumes(p, r1, 2) == Consumes(p, r2, 1) == Consumes(p, ConsumeStep(p, r2), 0);
  }

  /** has_next sees the taken segment again; next() releases it, returns the credit, and returns the segment empty. */
  lemma TakeAgain(p: Params, r: Remote)
    requires p.Valid() && RemoteInBounds(p, r) && p.n == 1
    requires r.cpc == Scanning && r.iter == 0 && r.prev == Some(0)
    requires var h := r.mem[0].h; h.consumable && h.writeable && !h.end
    ensures |Consumes(p, r, 6).delivered| == |r.delivered| + 1
  {
    var r1 := r.(cpc := ZeroCounter);
    var r2 := ConsumeStep(p, r1);
    var r3 := ConsumeStep(p, r2);
    var r4 := ConsumeStep(p, r3);
    var r5 := ConsumeStep(p, r4);
    assert ConsumeStep(p, r) == r1;
    assert r2.cpc == ClearConsumable && r2.delivered == r.delivered;
    assert r3.cpc == LatProtocol.SetWriteable && r3.delivered == r.delivered;
    assert r4.cpc == ReturnCredit && r4.delivered == r.delivered;
    assert r5.cpc == Taking && r5.delivered == r.delivered;
    var r6 := ConsumeStep(p, r5);
    assert |r6.delivered| == |r.delivered| + 1;
    assert Consumes(p, r, 6) == Consumes(p, r1, 5) == Consumes(p, r2, 4) == Consumes(p, r3, 3);
    assert Consumes(p, r3, 3) == Consumes(p, r4, 2) == Consumes(p, r5, 1) == Consumes(p, r6, 0);
  }

  lemma TakenTwice(p: Params, data: seq<byte>) returns (schedule: seq<Step>)
    requires p.Valid() && p.n == 1 && |data| <= p.size
    ensures var s := After(p, schedule); s.messages == [data] && |s.r.delivered| == 2
  {
    var sent := FirstMessageLands(p, data);
    var s := After(p, sent);
    var take := RunConsumes(p, s, 3);
    TakeOnce(p, s.r);
    var s1 := s.(r := Consumes(p, s.r, 3));
    var again := RunConsumes(p, s1, 6);
    TakeAgain(p, s1.r);
    schedule := sent + (take + again);
    RunAppend(p, Init(p), sent, take + again);
    RunAppend(p, s, take, again);
  }

  /** The condition is exact: every schedule has next() return each message at most once if and only if the ring has at
      least two segments. */
  lemma ExactlyOnceIffTwoSegments(p: Params)
    requires p.Valid()
    ensures (forall schedule :: |After(p, schedule).r.delivered| <= |After(p, schedule).messages|) <==> p.n > 1
  {
    if p.n > 1 {
      forall schedule
        ensures |After(p, schedule).r.delivered| <= |After(p, schedule).messages|
      {
        AfterInv(p, schedule);
      }
    } else {
      var schedule := TakenTwice(p, []);
      assert |After(p, schedule).r.delivered| == 2;
    }
  }
}
