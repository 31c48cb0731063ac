/**
 What the writer of a bandwidth ring keeps on a ring of one segment, whatever the iterator does there. On such a ring iter and
 prev are the same segment, so what is delivered can be wrong (BwOneSegment); but the writer's own promises, its staging
 buffer, its stream, the pieces it publishes, do not depend on that.
 */
module BwWriterSide {
  import opened Util
  import opened BwProtocol
  import opened BwInvariant

  /** The writer has the segment. */
  predicate Fills(s: State) {
    s.w.pc in {Idle, Work} || s.w.pc.Flush? || ((s.w.pc.Publish? || s.w.pc == Closing) && s.r.queue != [])
  }

  ghost predicate WriterShape(p: Params, s: State)
    requires s.w.used <= p.size
  {
    var (w, r, P) := (s.w, s.r, |s.r.published|);
    && InFlight(w, r)
    && (if Fills(s) then w.used == |r.filled| else r.queue == [] && r.filled == [])
    && match w.pc
       case Idle => NoHead(r) && w.chunk == w.rest == [] && (P > 0 ==> w.used > 0)
       case Work => NoHead(r) && (w.chunk == [] ==> w.rest == [] && (P > 0 ==> w.used > 0))
       case Flush(k) => (r.queue == [] || HeadLast(r)) && 0 < k == FirstPart(p, w) <= |w.chunk|
       case Publish(_) => w.chunk != [] && w.used == p.size && (r.queue == [] || HeadLast(r))
       case Poll(_) => w.chunk != []
       case Closing => w.chunk == w.rest == [] && (r.queue == [] || (HeadLast(r) && (P > 0 ==> w.used > 0)))
       case Closed => w.chunk == w.rest == []
  }

  /** All pieces published are full, but the one close publishes. */
  ghost predicate PiecesInv(p: Params, s: State) {
    var P := |s.r.published|;
    && (forall i :: 0 <= i < P - 1 ==> |s.r.published[i]| == p.size)
    && (P > 0 && !Ended(s) ==> |s.r.published[P - 1]| == p.size)
    && (Ended(s) ==> EndShape(s.r) && |s.r.published[P - 1]| <= p.size)
  }

  /** The flags of the one segment, of the writer's copy, and where the consumer can be. */
  ghost predicate FlagsInv(s: State)
    requires |s.r.mem| == 1
  {
    var (h, hdr, cpc) := (s.r.mem[0].h, s.w.hdr, s.r.cpc);
    && (Fills(s) ==> !h.consumable && cpc in {Scanning, Taking})
    && (h.writeable ==> !h.consumable && cpc in {Scanning, Taking})
    && (cpc in {ZeroCounter, ClearConsumable, SetWriteable} ==> !Fills(s) && !h.writeable)
    && (cpc in {ClearConsumable, SetWriteable} ==> !h.end)
    && (cpc == SetWriteable ==> !h.consumable)
    && (h.end || cpc == Retired ==> Ended(s) && !h.writeable)
    && (hdr.end ==> s.w.pc in {Closing, Closed})
    && (s.w.pc in {Idle, Work} || s.w.pc.Flush? ==> hdr.writeable && !hdr.consumable)
    && ((s.w.pc.Publish? || s.w.pc == Closing) && s.r.queue != [] ==> hdr.consumable && !hdr.writeable)
  }

  ghost predicate OneSegmentInv(p: Params, s: State) {
    && p.n == 1
    && InBounds(p, s)
    && WriterShape(p, s)
    && PiecesInv(p, s)
    && FlagsInv(s)
    && StreamInv(s)
  }

  lemma OneSegmentInit(p: Params)
    requires p.Valid() && p.n == 1
    ensures OneSegmentInv(p, Init(p))
  {
  }

  // ---------------------------------------------------------------- the writer's steps

  /** When the writer may stage k bytes at `at`. */
  ghost predicate StagesNow(p: Params, s: State, at: nat, k: nat)
    requires InBounds(p, s)
  {
    && (s.w.pc == Work || s.w.pc.Flush?) && NoHead(s.r)
    && k == FirstPart(p, s.w) && at + k <= p.staging && (at == s.w.offset || s.r.queue == [])
    && (k > 0 || s.w.chunk == [])
    && (s.w.chunk == [] ==> s.w.rest == [] && (|s.r.published| > 0 ==> s.w.used > 0))
  }

  lemma StageInFlight(p: Params, s: State, at: nat, k: nat)
    requires OneSegmentInv(p, s) && StagesNow(p, s, at, k)
    ensures var s' := StageAndPost(p, s, at, k); InFlight(s'.w, s'.r) && NoHead(s'.r) && s'.w.used == |s'.r.filled|
  {
    var s' := StageAndPost(p, s, at, k);
    StageKeepsInFlight(s.w, s.r, at, k, s'.w, s'.r);
  }

  lemma StageShape(p: Params, s: State, at: nat, k: nat)
    requires OneSegmentInv(p, s) && StagesNow(p, s, at, k)
    ensures OneSegmentInv(p, StageAndPost(p, s, at, k))
  {
    StageInFlight(p, s, at, k);
    assert StreamInv(StageAndPost(p, s, at, k)) by { StageStream(p, s, at, k); }
  }

  lemma HeadShape(p: Params, s: State)
    requires OneSegmentInv(p, s) && s.w.pc == Work
    requires (p.size < s.w.used + |s.w.chunk| && s.w.used == p.size) || FirstPart(p, s.w) + s.w.offset > p.staging
    ensures OneSegmentInv(p, SuperAppend(p, s))
  {
    var s' := SuperAppend(p, s);
    PostHeadKeepsInFlight(s.w, s.r);
    InFlightFrame(s.w, s'.w, s'.r);
  }

  lemma CallShape(p: Params, s: State, step: Step)
    requires OneSegmentInv(p, s) && s.w.pc == Idle && (step.Append? || step.Close?)
    ensures OneSegmentInv(p, Apply(p, s, step))
  {
    var s' := Apply(p, s, step);
    match step {
      case Append(data) =>
        InFlightFrame(s.w, s'.w, s'.r);
        assert data == s'.w.chunk + s'.w.rest;
      case Close =>
        PostHeadKeepsInFlight(s.w, s.r);
        InFlightFrame(s.w, s'.w, s'.r);
    }
  }

  lemma PollShape(p: Params, s: State)
    requires OneSegmentInv(p, s) && s.w.pc.Poll?
    ensures OneSegmentInv(p, PollNext(p, s))
  {
  }

  lemma WriteShape(p: Params, s: State)
    requires OneSegmentInv(p, s)
    ensures OneSegmentInv(p, Apply(p, s, Write))
  {
    match s.w.pc {
      case Work =>
        var k := FirstPart(p, s.w);
        if !(p.size < s.w.used + |s.w.chunk| && s.w.used == p.size) && k + s.w.offset <= p.staging {
          StageShape(p, s, s.w.offset, k);
        } else {
          HeadShape(p, s);
        }
      case Flush(k) => if s.r.queue == [] { StageShape(p, s, 0, k); }
      case Poll(_) => PollShape(p, s);
      case _ =>
    }
  }

  // ---------------------------------------------------------------- the network's

  lemma LandDataShape(p: Params, s: State)
    requires OneSegmentInv(p, s) && s.r.queue != [] && s.r.queue[0].Data?
    ensures OneSegmentInv(p, Apply(p, s, Land))
  {
    var r' := Apply(p, s, Land).r;
    if s.r.queue[0].len == 0 {
      PopInFlight(s.w, s.r, r');
    } else {
      ByteInFlight(s.w, s.r, r');
    }
    LandDataHeads(p, s);
  }

  lemma LandDataHeads(p: Params, s: State)
    requires InBounds(p, s) && s.r.queue != [] && s.r.queue[0].Data?
    ensures var r' := Apply(p, s, Land).r;
            && (NoHead(s.r) ==> NoHead(r'))
            && (HeadLast(s.r) ==> HeadLast(r'))
  {
    var r' := Apply(p, s, Land).r;
    assert NoHead(s.r) ==> forall j :: 0 <= j < |r'.queue| ==> r'.queue[j].Data?;
  }

  lemma LandHeadShape(p: Params, s: State)
    requires OneSegmentInv(p, s) && s.r.queue != [] && s.r.queue[0].Head?
    ensures OneSegmentInv(p, Apply(p, s, Land))
  {
    assert PostIntact(s.w, s.r, 0);
    LandHeadStream(p, s);
    LandHeadPieces(p, s);
    LandHeadFlags(p, s);
  }

  lemma LandHeadStream(p: Params, s: State)
    requires InBounds(p, s) && StreamInv(s) && s.r.queue != [] && s.r.queue[0].Head?
    ensures StreamInv(Apply(p, s, Land))
  {
    if s.w.hdr.consumable {
      PublishStreamInv(p, s);
    } else {
      var r' := Apply(p, s, Land).r;
      assert r'.published == s.r.published && r'.filled == s.r.filled;
    }
  }

  lemma LandHeadPieces(p: Params, s: State)
    requires OneSegmentInv(p, s) && s.r.queue != [] && s.r.queue[0].Head?
    ensures PiecesInv(p, Apply(p, s, Land))
  {
    assert PostIntact(s.w, s.r, 0);
  }

  lemma LandHeadFlags(p: Params, s: State)
    requires OneSegmentInv(p, s) && s.r.queue != [] && s.r.queue[0].Head?
    ensures FlagsInv(Apply(p, s, Land))
  {
    assert PostIntact(s.w, s.r, 0);
  }

  lemma LandShape(p: Params, s: State)
    requires OneSegmentInv(p, s)
    ensures OneSegmentInv(p, Apply(p, s, Land))
  {
    if s.r.queue != [] {
      if s.r.queue[0].Data? {
        LandDataShape(p, s);
      } else {
        LandHeadShape(p, s);
      }
    }
  }

  // ---------------------------------------------------------------- the consumer's

  lemma ConsumeShape(p: Params, s: State)
    requires OneSegmentInv(p, s)
    ensures OneSegmentInv(p, Apply(p, s, Consume))
  {
    ConsumeWriterShape(p, s);
    ConsumeFlags(p, s);
  }

  lemma ConsumeWriterShape(p: Params, s: State)
    requires InBounds(p, s) && WriterShape(p, s)
    ensures var s' := Apply(p, s, Consume);
            WriterShape(p, s') && s'.w == s.w && s'.appended == s.appended && s'.r == s.r.(mem := s'.r.mem, iter := s'.r.iter,
              prev := s'.r.prev, cpc := s'.r.cpc, delivered := s'.r.delivered)
  {
    assert InFlight(s.w, Apply(p, s, Consume).r) by { InFlightSame(s.w, s.r, Apply(p, s, Consume).r); }
  }

  lemma ConsumeFlags(p: Params, s: State)
    requires p.n == 1 && InBounds(p, s) && FlagsInv(s)
    ensures FlagsInv(Apply(p, s, Consume))
  {
  }

  lemma InFlightSame(w: Writer, r: Remote, r': Remote)
    requires InFlight(w, r) && r'.queue == r.queue && r'.filled == r.filled
    ensures InFlight(w, r')
  {
    forall j | 0 <= j < |r'.queue|
      ensures PostIntact(w, r', j)
    {
      assert PostIntact(w, r, j);
    }
  }

  // ---------------------------------------------------------------- every run

  lemma OneSegmentStep(p: Params, s: State, step: Step)
    requires OneSegmentInv(p, s)
    ensures OneSegmentInv(p, Apply(p, s, step))
  {
    match step {
      case Write => WriteShape(p, s);
      case Land => LandShape(p, s);
      case Consume => ConsumeShape(p, s);
      case _ => if s.w.pc == Idle { CallShape(p, s, step); }
    }
  }

  lemma {:induction false} OneSegmentRun(p: Params, schedule: seq<Step>)
    requires p.Valid() && p.n == 1
    ensures OneSegmentInv(p, Run(p, Init(p), schedule))
  {
    if schedule == [] {
      OneSegmentInit(p);
    } else {
      var k := |schedule| - 1;
      OneSegmentRun(p, schedule[..k]);
      OneSegmentStep(p, Run(p, Init(p), schedule[..k]), schedule[k]);
    }
  }
}
