/**
 What every run of the bandwidth-optimised ring protocol keeps.

 Segment uses are numbered 0, 1, 2, ... and use i lives in slot i mod n. With P published, T taken and R released
 uses, R <= T <= P <= R + n always: uses R..P are in the consumer's hands, uses P..R + n are free for the writer.
 */
module BwInvariant {
  import opened Util
  import opened SegmentHeader
  import opened BwProtocol

  /** Uses handed back to the writer: the consumer holds back the one it took last, until the stores are done. */
  function Released(r: Remote): (k: nat) {
    if r.cpc == Taking || r.delivered == [] then |r.delivered| else |r.delivered| - 1
  }

  /** The closing header has landed. */
  predicate Ended(s: State) {
    s.w.pc == Closed || (s.w.pc == Closing && s.r.queue == [])
  }

  /** The header of a published use, as far as the consumer's release of it has come. */
  function HeldHeader(p: Params, s: State, i: nat): (h: Header)
    requires p.n > 0 && i < |s.r.published|
  {
    var h := Header(|s.r.published[i]|, Slot(p.n, i + 1), false, true, Ended(s) && i == |s.r.published| - 1);
    if i != Released(s.r) then h
    else if s.r.cpc == ClearConsumable then h.(counter := 0)
    else if s.r.cpc == SetWriteable then h.(counter := 0, consumable := false)
    else h
  }

  /** Use i is published and unreleased: its segment carries its header and its bytes. */
  ghost predicate Held(p: Params, s: State, i: nat)
    requires p.n > 0 && |s.r.mem| == p.n
  {
    && i < |s.r.published|
    && s.r.mem[Slot(p.n, i)].h == HeldHeader(p, s, i)
    && s.r.published[i] <= s.r.mem[Slot(p.n, i)].data
    && (if Ended(s) && i == |s.r.published| - 1 then |s.r.published[i]| <= p.size else |s.r.published[i]| == p.size)
  }

  /** Use i is not published yet and its segment is free. */
  ghost predicate Free(p: Params, r: Remote, i: nat)
    requires p.n > 0 && |r.mem| == p.n
  {
    r.mem[Slot(p.n, i)].h == FreeHeader(Slot(p.n, i + 1))
  }

  ghost predicate Window(p: Params, s: State)
    requires p.n > 0 && |s.r.mem| == p.n
  {
    var (P, R) := (|s.r.published|, Released(s.r));
    && R <= |s.r.delivered| <= P <= R + p.n
    && (forall i: nat {:trigger Held(p, s, i)} :: R <= i < P ==> Held(p, s, i))
    && (forall i: nat {:trigger Free(p, s.r, i)} :: P <= i < R + p.n ==> Free(p, s.r, i))
    && (forall i :: 0 <= i < P - 1 ==> |s.r.published[i]| == p.size)
    && (P > 0 && !Ended(s) ==> |s.r.published[P - 1]| == p.size)
  }

  ghost predicate ConsumerInv(p: Params, s: State)
    requires p.n > 0 && |s.r.mem| == p.n
  {
    var T := |s.r.delivered|;
    && T <= |s.r.published|
    && s.r.iter == Slot(p.n, T)
    && s.r.prev == (if T == 0 then None else Some(Slot(p.n, T - 1)))
    && s.r.delivered == s.r.published[..T]
    && (s.r.cpc in {ZeroCounter, ClearConsumable, SetWriteable, Taking} ==> T < |s.r.published|)
    && (s.r.cpc in {ClearConsumable, SetWriteable} ==> T > 0)
    && (s.r.cpc == Retired ==> Ended(s) && T == |s.r.published| > 0)
  }

  /** Where in the current segment the posted write number j starts; a header, or the queue's end, counts as the end. */
  function StartOf(r: Remote, j: nat): (k: nat) {
    if j < |r.queue| && r.queue[j].Data? then r.queue[j].at else |r.filled|
  }

  /** The writes in flight cover, in order and without gap, what is filled but has not landed, and every staged range
      they name still holds the bytes the writer put there. Only the last write may be a header. */
  ghost predicate InFlight(w: Writer, r: Remote) {
    forall j :: 0 <= j < |r.queue| ==> PostIntact(w, r, j)
  }

  ghost predicate PostIntact(w: Writer, r: Remote, j: nat)
    requires j < |r.queue|
  {
    && r.queue[j].seg == w.cur
    && match r.queue[j]
       case Head(_) => j == |r.queue| - 1
       case Data(_, at, src, len) =>
         && src + len <= w.offset <= |w.staging|
         && at + len == StartOf(r, j + 1) <= |r.filled|
         && w.staging[src..src + len] == r.filled[at..at + len]
  }

  /** What has landed of the segment being filled. */
  ghost predicate Landed(w: Writer, r: Remote)
    requires w.cur < |r.mem|
  {
    var landed := StartOf(r, 0);
    landed <= |r.filled| && landed <= |r.mem[w.cur].data| && r.mem[w.cur].data[..landed] == r.filled[..landed]
  }

  /** The writer fills use P = |published| in a segment it owns, with the given header in its local copy. */
  ghost predicate Filling(p: Params, s: State, hdr: Header)
    requires p.n > 0 && |s.r.mem| == p.n && s.w.cur < p.n
  {
    var P := |s.r.published|;
    && s.w.cur == Slot(p.n, P)
    && P < Released(s.r) + p.n
    && s.w.used == |s.r.filled|
    && s.w.hdr == hdr
    && InFlight(s.w, s.r)
    && Landed(s.w, s.r)
  }

  ghost predicate NoHead(r: Remote) {
    forall j :: 0 <= j < |r.queue| ==> r.queue[j].Data?
  }

  ghost predicate HeadLast(r: Remote) {
    r.queue != [] && r.queue[|r.queue| - 1].Head?
  }

  ghost predicate WriterInv(p: Params, s: State)
    requires p.n > 0 && |s.r.mem| == p.n && s.w.cur < p.n && s.w.used <= p.size
  {
    var (w, P) := (s.w, |s.r.published|);
    var next := Slot(p.n, P + 1);
    match w.pc
    case Idle => Filling(p, s, FreeHeader(next)) && NoHead(s.r) && w.chunk == w.rest == [] && (P > 0 ==> w.used > 0)
    case Work => Filling(p, s, FreeHeader(next)) && NoHead(s.r) && (w.chunk == [] ==> w.rest == [] && (P > 0 ==> w.used > 0))
    case Flush(k) =>
      && Filling(p, s, FreeHeader(next))
      && (s.r.queue == [] || HeadLast(s.r))
      && 0 < k == FirstPart(p, w) <= |w.chunk|
    case Publish(nx) =>
      && w.chunk != []
      && w.used == p.size
      && if s.r.queue == [] then nx == Slot(p.n, P) && P > 0 && s.r.filled == []
         else Filling(p, s, Header(p.size, next, false, true, false)) && HeadLast(s.r) && nx == next
    case Poll(nx) => w.chunk != [] && s.r.queue == [] && nx == Slot(p.n, P) && P > 0 && s.r.filled == []
    case Closing =>
      && w.chunk == w.rest == []
      && if s.r.queue == [] then EndShape(s.r) && s.r.filled == []
         else Filling(p, s, Header(w.used, next, false, true, true)) && HeadLast(s.r) && (P > 0 ==> w.used > 0)
    case Closed => w.chunk == w.rest == [] && s.r.queue == [] && EndShape(s.r) && s.r.filled == []
  }

  /** After close something is published, and the last piece is empty only if the whole stream is. */
  ghost predicate EndShape(r: Remote) {
    var P := |r.published|;
    P > 0 && (P > 1 ==> |r.published[P - 1]| > 0)
  }

  /** Every byte given to append is in a published segment, in the segment being filled, or still in the call. */
  ghost predicate StreamInv(s: State) {
    s.appended == Flatten(s.r.published) + s.r.filled + s.w.chunk + s.w.rest
  }

  /** The iterator needs two segments, unless the whole stream fits into one. */
  predicate Fits(p: Params, s: State) {
    p.n > 1 || |s.appended| <= p.size
  }

  /** Nothing below needs more than this: either the above, or nothing has been taken yet. */
  predicate Sound(p: Params, s: State) {
    Fits(p, s) || s.r.delivered == []
  }

  ghost predicate Inv(p: Params, s: State) {
    && Sound(p, s)
    && InBounds(p, s)
    && Window(p, s)
    && ConsumerInv(p, s)
    && WriterInv(p, s)
    && StreamInv(s)
  }

  // ---------------------------------------------------------------- slots

  lemma InitInv(p: Params)
    requires p.Valid()
    ensures Inv(p, Init(p))
  {
    var s := Init(p);
    forall i: nat | i < p.n
      ensures Free(p, s.r, i)
    {
      SlotNext(p.n, i);
    }
  }

  // ---------------------------------------------------------------- writer steps

  lemma SliceOfPrefix<T>(a: seq<T>, b: seq<T>, n: nat, lo: nat, hi: nat)
    requires lo <= hi <= n <= |a| && n <= |b| && a[..n] == b[..n]
    ensures a[lo..hi] == b[lo..hi]
  {
    forall i | lo <= i < hi
      ensures a[i] == b[i]
    {
      assert a[i] == a[..n][i] && b[i] == b[..n][i];
    }
  }

  lemma StageKeepsInFlight(w: Writer, r: Remote, at: nat, k: nat, w': Writer, r': Remote)
    requires InFlight(w, r) && NoHead(r)
    requires k <= |w.chunk| && at + k <= |w.staging| && w.used == |r.filled|
    requires at == w.offset || r.queue == []
    requires w'.cur == w.cur && w'.offset == at + k
    requires w'.staging == w.staging[..at] + w.chunk[..k] + w.staging[at + k..]
    requires r'.queue == r.queue + [Data(w.cur, w.used, at, k)] && r'.filled == r.filled + w.chunk[..k]
    ensures InFlight(w', r') && StartOf(r', 0) == StartOf(r, 0)
  {
    forall j | 0 <= j < |r'.queue|
      ensures PostIntact(w', r', j)
    {
      if j < |r.queue| {
        assert PostIntact(w, r, j);
        assert r'.queue[j] == r.queue[j];
        var d := r.queue[j];
        SliceOfPrefix(w.staging, w'.staging, at, d.src, d.src + d.len);
        SliceOfPrefix(r.filled, r'.filled, |r.filled|, d.at, d.at + d.len);
      } else {
        assert w'.staging[at..at + k] == w.chunk[..k];
        assert r'.filled[w.used..w.used + k] == w.chunk[..k];
      }
    }
  }

  lemma StageStream(p: Params, s: State, at: nat, k: nat)
    requires InBounds(p, s) && StreamInv(s)
    requires k <= |s.w.chunk| && at + k <= p.staging && s.w.used + k <= p.size
    ensures StreamInv(StageAndPost(p, s, at, k))
  {
    var s' := StageAndPost(p, s, at, k);
    assert s.w.chunk == s.w.chunk[..k] + s.w.chunk[k..];
    assert s.w.chunk[k..] + s.w.rest == s'.w.chunk + s'.w.rest;
    calc {
      s.appended;
      Flatten(s.r.published) + s.r.filled + s.w.chunk + s.w.rest;
      Flatten(s.r.published) + (s.r.filled + s.w.chunk[..k]) + (s.w.chunk[k..] + s.w.rest);
      Flatten(s'.r.published) + s'.r.filled + s'.w.chunk + s'.w.rest;
    }
  }

  /** super_append may stage k bytes at `at`: all that fit, into room the writes in flight do not use. */
  ghost predicate MayStage(p: Params, s: State, at: nat, k: nat)
    requires InBounds(p, s)
  {
    && Filling(p, s, FreeHeader(Slot(p.n, |s.r.published| + 1)))
    && NoHead(s.r)
    && k == FirstPart(p, s.w) && at + k <= p.staging && (at == s.w.offset || s.r.queue == [])
    && (k > 0 || s.w.chunk == [])
    && (s.w.chunk == [] ==> s.w.rest == [] && (|s.r.published| > 0 ==> s.w.used > 0))
  }

  lemma StageFilling(p: Params, s: State, at: nat, k: nat)
    requires InBounds(p, s) && MayStage(p, s, at, k)
    ensures var s' := StageAndPost(p, s, at, k);
            Filling(p, s', FreeHeader(Slot(p.n, |s'.r.published| + 1))) && NoHead(s'.r)
  {
    var s' := StageAndPost(p, s, at, k);
    StageKeepsInFlight(s.w, s.r, at, k, s'.w, s'.r);
    var landed := StartOf(s.r, 0);
    assert s'.r.filled[..landed] == s.r.filled[..landed];
  }

  lemma StageWriterInv(p: Params, s: State, at: nat, k: nat)
    requires InBounds(p, s) && MayStage(p, s, at, k)
    ensures WriterInv(p, StageAndPost(p, s, at, k))
  {
    StageFilling(p, s, at, k);
  }

  lemma StageInv(p: Params, s: State, at: nat, k: nat)
    requires Inv(p, s) && MayStage(p, s, at, k)
    requires s.w.pc.Work? || s.w.pc.Flush?
    ensures Inv(p, StageAndPost(p, s, at, k))
  {
    var s' := StageAndPost(p, s, at, k);
    assert StreamInv(s') by { StageStream(p, s, at, k); }
    assert WriterInv(p, s') by { StageWriterInv(p, s, at, k); }
    assert Window(p, s') by { WindowFrame(p, s, s'); }
  }

  /** A step that leaves memory, the consumer and the published list alone, and does not end the stream, keeps the window. */
  lemma WindowFrame(p: Params, s: State, s': State)
    requires p.n > 0 && |s.r.mem| == p.n && Window(p, s)
    requires s'.r.mem == s.r.mem && s'.r.cpc == s.r.cpc && s'.r.delivered == s.r.delivered && s'.r.published == s.r.published
    requires Ended(s') == Ended(s)
    ensures Window(p, s')
  {
    forall i: nat | Released(s'.r) <= i < |s'.r.published|
      ensures Held(p, s', i)
    {
      assert Held(p, s, i);
    }
    forall i: nat | |s'.r.published| <= i < Released(s'.r) + p.n
      ensures Free(p, s'.r, i)
    {
      assert Free(p, s.r, i);
    }
  }

  lemma PostHeadKeepsInFlight(w: Writer, r: Remote)
    requires InFlight(w, r) && NoHead(r)
    ensures InFlight(w, PostHead(r, w.cur)) && HeadLast(PostHead(r, w.cur)) && StartOf(PostHead(r, w.cur), 0) == StartOf(r, 0)
  {
    var r' := PostHead(r, w.cur);
    forall j | 0 <= j < |r'.queue|
      ensures PostIntact(w, r', j)
    {
      if j < |r.queue| {
        assert PostIntact(w, r, j);
        assert r'.queue[j] == r.queue[j];
      }
    }
  }

  lemma InFlightFrame(w: Writer, w': Writer, r: Remote)
    requires InFlight(w, r) && w'.cur == w.cur && w'.offset == w.offset && w'.staging == w.staging
    ensures InFlight(w', r)
  {
    forall j | 0 <= j < |r.queue|
      ensures PostIntact(w', r, j)
    {
      assert PostIntact(w, r, j);
    }
  }

  lemma AppendInv(p: Params, s: State, data: seq<byte>)
    requires Inv(p, s) && s.w.pc == Idle
    ensures Inv(p, StartAppend(p, s, data))
  {
    var s' := StartAppend(p, s, data);
    WindowFrame(p, s, s');
    InFlightFrame(s.w, s'.w, s.r);
    assert data == s'.w.chunk + s'.w.rest;
  }

  /** A posted header is the last write in flight, and touches nothing else. */
  lemma PostedHead(w: Writer, r: Remote, w': Writer, r': Remote)
    requires w.cur < |r.mem| && InFlight(w, r) && Landed(w, r) && NoHead(r)
    requires r' == PostHead(r, w.cur) && w'.cur == w.cur && w'.offset == w.offset && w'.staging == w.staging
    ensures InFlight(w', r') && HeadLast(r') && Landed(w', r')
  {
    PostHeadKeepsInFlight(w, r);
    InFlightFrame(w, w', r');
  }

  /** super_append posts the header: to publish a full segment, or to flush before the staging buffer wraps. */
  lemma HeadPostInv(p: Params, s: State)
    requires Inv(p, s) && s.w.pc == Work
    requires (p.size < s.w.used + |s.w.chunk| && s.w.used == p.size) || FirstPart(p, s.w) + s.w.offset > p.staging
    ensures Inv(p, SuperAppend(p, s))
  {
    var s' := SuperAppend(p, s);
    assert Window(p, s') by { WindowFrame(p, s, s'); }
    PostedHead(s.w, s.r, s'.w, s'.r);
  }

  lemma SuperAppendInv(p: Params, s: State)
    requires Inv(p, s) && s.w.pc == Work
    ensures Inv(p, SuperAppend(p, s))
  {
    var w := s.w;
    var publish := p.size < w.used + |w.chunk| && w.used == p.size;
    var k := FirstPart(p, w);
    if !publish && k + w.offset <= p.staging {
      StageInv(p, s, w.offset, k);
    } else {
      HeadPostInv(p, s);
    }
  }

  lemma CloseInv(p: Params, s: State)
    requires Inv(p, s) && s.w.pc == Idle
    ensures Inv(p, StartClose(p, s))
  {
    var s' := StartClose(p, s);
    PostHeadKeepsInFlight(s.w, s.r);
    InFlightFrame(s.w, s'.w, s'.r);
    WindowFrame(p, s, s');
  }

  /** The test the writer polls is exact: the next segment is writeable once the use n before this one is released. */
  lemma WriteableMeansFree(p: Params, s: State)
    requires Inv(p, s)
    ensures s.r.mem[Slot(p.n, |s.r.published|)].h.writeable <==> |s.r.published| < Released(s.r) + p.n
  {
    var (P, R) := (|s.r.published|, Released(s.r));
    if P == R + p.n {
      SlotPeriod(p.n, R);
      assert Held(p, s, R);
    } else {
      assert Free(p, s.r, P);
    }
  }

  lemma PollInv(p: Params, s: State)
    requires Inv(p, s) && s.w.pc.Poll?
    ensures Inv(p, PollNext(p, s))
  {
    var (s', P) := (PollNext(p, s), |s.r.published|);
    assert Window(p, s') by { WindowFrame(p, s, s'); }
    WriteableMeansFree(p, s);
    assert P < Released(s.r) + p.n ==> Free(p, s.r, P);
  }

  /** The end of a wait for the publishing or the closing header. */
  lemma WaitInv(p: Params, s: State)
    requires Inv(p, s) && (s.w.pc in {Idle, Closing, Closed} || s.w.pc.Publish?)
    ensures Inv(p, WriterStep(p, s))
  {
    WindowFrame(p, s, WriterStep(p, s));
  }

  lemma WriterStepInv(p: Params, s: State)
    requires Inv(p, s)
    ensures Inv(p, WriterStep(p, s))
  {
    match s.w.pc {
      case Work => SuperAppendInv(p, s);
      case Flush(k) => if s.r.queue == [] { StageInv(p, s, 0, k); }
      case Poll(_) => PollInv(p, s);
      case _ => WaitInv(p, s);
    }
  }

  // ---------------------------------------------------------------- network steps

  /** The oldest payload write has nothing left to land. */
  lemma PopInFlight(w: Writer, r: Remote, r': Remote)
    requires InFlight(w, r) && r.queue != [] && r.queue[0].Data? && r.queue[0].len == 0
    requires r'.queue == r.queue[1..] && r'.filled == r.filled
    ensures InFlight(w, r') && StartOf(r', 0) == StartOf(r, 0)
  {
    assert PostIntact(w, r, 0);
    forall j | 0 <= j < |r'.queue|
      ensures PostIntact(w, r', j)
    {
      assert PostIntact(w, r, j + 1);
      assert r'.queue[j] == r.queue[j + 1];
    }
  }

  lemma TailsAgree<T>(a: seq<T>, i: nat, b: seq<T>, j: nat, len: nat)
    requires len > 0 && i + len <= |a| && j + len <= |b| && a[i..i + len] == b[j..j + len]
    ensures a[i] == b[j] && a[i + 1..i + len] == b[j + 1..j + len]
  {
    assert a[i] == a[i..i + len][0];
    assert b[j] == b[j..j + len][0];
    assert a[i + 1..i + len] == a[i..i + len][1..];
    assert b[j + 1..j + len] == b[j..j + len][1..];
  }

  /** One byte of the oldest payload write has landed. */
  lemma ByteInFlight(w: Writer, r: Remote, r': Remote)
    requires InFlight(w, r) && r.queue != [] && r.queue[0].Data? && r.queue[0].len > 0
    requires var d := r.queue[0]; r'.queue == [Data(d.seg, d.at + 1, d.src + 1, d.len - 1)] + r.queue[1..]
    requires r'.filled == r.filled
    ensures InFlight(w, r') && StartOf(r', 0) == StartOf(r, 0) + 1 <= |r.filled|
    ensures r.queue[0].src < |w.staging| && w.staging[r.queue[0].src] == r.filled[StartOf(r, 0)]
  {
    var Data(seg, at, src, len) := r.queue[0];
    assert PostIntact(w, r, 0);
    TailsAgree(w.staging, src, r.filled, at, len);
    forall j | 0 <= j < |r'.queue|
      ensures PostIntact(w, r', j)
    {
      assert PostIntact(w, r, j);
      if j > 0 {
        LaterPostsStay(w, r, r', j);
      }
    }
  }

  lemma LaterPostsStay(w: Writer, r: Remote, r': Remote, j: nat)
    requires 0 < j < |r.queue| == |r'.queue| && r'.queue[1..] == r.queue[1..] && r'.filled == r.filled && PostIntact(w, r, j)
    ensures PostIntact(w, r', j)
  {
    assert r'.queue[j] == r'.queue[1..][j - 1];
    assert r.queue[j] == r.queue[1..][j - 1];
    if j + 1 < |r.queue| {
      assert r'.queue[j + 1] == r'.queue[1..][j];
      assert r.queue[j + 1] == r.queue[1..][j];
    }
  }

  lemma LandDataInFlight(p: Params, w: Writer, r: Remote)
    requires p.Valid() && RemoteInBounds(p, r) && WriterInBounds(p, w)
    requires InFlight(w, r) && Landed(w, r) && r.queue != [] && r.queue[0].Data?
    ensures var r' := LandStep(p, w.hdr, w.staging, r); InFlight(w, r') && Landed(w, r')
  {
    var r' := LandStep(p, w.hdr, w.staging, r);
    var Data(seg, at, src, len) := r.queue[0];
    assert PostIntact(w, r, 0);
    if len == 0 {
      PopInFlight(w, r, r');
    } else {
      ByteInFlight(w, r, r');
      assert r'.mem[w.cur].data[..at + 1] == r.mem[w.cur].data[..at] + [w.staging[src]];
      assert r.filled[..at + 1] == r.filled[..at] + [r.filled[at]];
    }
  }

  /** A step that changes only the segment of a use P that is being filled, and not its header. */
  lemma WindowFrameFill(p: Params, s: State, s': State)
    requires p.n > 0 && |s.r.mem| == |s'.r.mem| == p.n && Window(p, s)
    requires |s.r.published| < Released(s.r) + p.n
    requires forall k :: 0 <= k < p.n && k != Slot(p.n, |s.r.published|) ==> s'.r.mem[k] == s.r.mem[k]
    requires s'.r.mem[Slot(p.n, |s.r.published|)].h == s.r.mem[Slot(p.n, |s.r.published|)].h
    requires s'.r.cpc == s.r.cpc && s'.r.delivered == s.r.delivered && s'.r.published == s.r.published && Ended(s') == Ended(s)
    ensures Window(p, s')
  {
    SlotsApart(p.n, Released(s.r), |s.r.published|);
    forall i: nat | Released(s'.r) <= i < |s'.r.published|
      ensures Held(p, s', i)
    {
      assert Held(p, s, i);
    }
    forall i: nat | |s'.r.published| <= i < Released(s'.r) + p.n
      ensures Free(p, s'.r, i)
    {
      assert Free(p, s.r, i);
    }
  }

  /** Whenever a write is in flight, the writer is filling a segment. */
  lemma InFlightMeansFilling(p: Params, s: State)
    requires p.n > 0 && |s.r.mem| == p.n && s.w.cur < p.n && s.w.used <= p.size && WriterInv(p, s) && s.r.queue != []
    ensures Filling(p, s, s.w.hdr)
  {
  }

  /** The writer's invariant survives a step that only shortens what is in flight. */
  lemma WriterInvAfterLanding(p: Params, s: State, s': State)
    requires p.n > 0 && |s.r.mem| == |s'.r.mem| == p.n && s.w.cur < p.n && s.w.used <= p.size
    requires WriterInv(p, s) && s.r.queue != [] && s.r.queue[0].Data? && s'.w == s.w
    requires Filling(p, s', s.w.hdr) && s'.r.published == s.r.published
    requires NoHead(s.r) ==> NoHead(s'.r)
    requires HeadLast(s.r) ==> HeadLast(s'.r)
    ensures WriterInv(p, s')
  {
    InFlightMeansFilling(p, s);
  }

  lemma LandDataEffect(p: Params, s: State)
    requires InBounds(p, s) && s.r.queue != [] && s.r.queue[0].Data? && s.r.queue[0].seg == s.w.cur
    ensures var r' := Apply(p, s, Land).r;
            && (forall k :: 0 <= k < p.n && k != s.w.cur ==> r'.mem[k] == s.r.mem[k])
            && r'.mem[s.w.cur].h == s.r.mem[s.w.cur].h
            && r' == s.r.(mem := r'.mem, queue := r'.queue)
            && (NoHead(s.r) ==> NoHead(r')) && (HeadLast(s.r) ==> HeadLast(r'))
  {
    var r' := Apply(p, s, Land).r;
    assert HeadLast(s.r) ==> s.r.queue[|s.r.queue| - 1] == r'.queue[|r'.queue| - 1];
  }

  lemma LandDataWriterInv(p: Params, s: State)
    requires InBounds(p, s) && WriterInv(p, s) && s.r.queue != [] && s.r.queue[0].Data?
    ensures WriterInv(p, Apply(p, s, Land))
  {
    InFlightMeansFilling(p, s);
    assert PostIntact(s.w, s.r, 0);
    LandDataEffect(p, s);
    LandDataInFlight(p, s.w, s.r);
    WriterInvAfterLanding(p, s, Apply(p, s, Land));
  }

  /** A payload byte lands in the segment being filled, at the position the stream says. */
  lemma LandDataInv(p: Params, s: State)
    requires Inv(p, s) && s.r.queue != [] && s.r.queue[0].Data?
    ensures Inv(p, Apply(p, s, Land))
  {
    var s' := Apply(p, s, Land);
    InFlightMeansFilling(p, s);
    LandDataWriterInv(p, s);
    LandDataFrames(p, s, s');
  }

  lemma LandDataFrames(p: Params, s: State, s': State)
    requires Inv(p, s) && Filling(p, s, s.w.hdr) && s.r.queue != [] && s.r.queue[0].Data?
    requires s' == Apply(p, s, Land)
    ensures Window(p, s') && ConsumerInv(p, s') && StreamInv(s')
  {
    assert PostIntact(s.w, s.r, 0);
    LandDataEffect(p, s);
    WindowFrameFill(p, s, s');
  }

  /** The header flushed before a staging wrap is the header the segment already carries. */
  lemma LandFlushInv(p: Params, s: State)
    requires Inv(p, s) && s.r.queue != [] && s.r.queue[0].Head? && !s.w.hdr.consumable
    ensures s.w.pc.Flush?
    ensures Apply(p, s, Land).r.mem == s.r.mem
    ensures Inv(p, Apply(p, s, Land))
  {
    var s' := Apply(p, s, Land);
    assert PostIntact(s.w, s.r, 0);
    assert Free(p, s.r, |s.r.published|);
    assert s'.r.mem == s.r.mem;
    WindowFrame(p, s, s');
  }

  /** What the landing of the publishing header does, seen from the segments: use P is published with what was filled. */
  ghost predicate PublishedAt(p: Params, s: State, s': State)
    requires p.n > 0 && |s.r.mem| == p.n
  {
    var (r, r', P) := (s.r, s'.r, |s.r.published|);
    var k := Slot(p.n, P);
    && s'.w == s.w && r'.published == r.published + [r.filled] && r'.delivered == r.delivered && r'.cpc == r.cpc
    && !Ended(s) && P < Released(r) + p.n
    && |r'.mem| == p.n && (forall j :: 0 <= j < p.n && j != k ==> r'.mem[j] == r.mem[j])
    && r'.mem[k].h == Header(|r.filled|, Slot(p.n, P + 1), false, true, Ended(s'))
    && r.filled <= r'.mem[k].data && |r.filled| <= p.size && (!Ended(s') ==> |r.filled| == p.size)
    && (r.cpc in {ClearConsumable, SetWriteable} ==> Released(r) < P)
  }

  lemma PublishWindow(p: Params, s: State, s': State)
    requires p.n > 0 && |s.r.mem| == p.n && Window(p, s) && PublishedAt(p, s, s')
    ensures Window(p, s')
  {
    var (r, r', P, R) := (s.r, s'.r, |s.r.published|, Released(s.r));
    SlotsApart(p.n, R, P);
    forall i: nat | R <= i < P + 1
      ensures Held(p, s', i)
    {
      if i < P {
        assert Held(p, s, i);
      }
    }
    forall i: nat | P + 1 <= i < R + p.n
      ensures Free(p, r', i)
    {
      assert Free(p, r, i);
    }
  }

  lemma PublishEffect(p: Params, s: State)
    requires Inv(p, s) && s.r.queue != [] && s.r.queue[0].Head? && s.w.hdr.consumable
    ensures PublishedAt(p, s, Apply(p, s, Land))
  {
    assert PostIntact(s.w, s.r, 0);
    assert Apply(p, s, Land).r.mem[s.w.cur].data[..|s.r.filled|] == s.r.filled;
  }

  lemma PublishWriterInv(p: Params, s: State)
    requires Inv(p, s) && s.r.queue != [] && s.r.queue[0].Head? && s.w.hdr.consumable
    ensures WriterInv(p, Apply(p, s, Land))
  {
    assert PostIntact(s.w, s.r, 0);
  }

  lemma PublishConsumerInv(p: Params, s: State)
    requires Inv(p, s) && s.r.queue != [] && s.r.queue[0].Head? && s.w.hdr.consumable
    ensures ConsumerInv(p, Apply(p, s, Land))
  {
    var s' := Apply(p, s, Land);
    InFlightMeansFilling(p, s);
    assert s'.r.published == s.r.published + [s.r.filled];
    assert s'.r.published[..|s.r.delivered|] == s.r.published[..|s.r.delivered|];
  }

  lemma PublishStreamInv(p: Params, s: State)
    requires InBounds(p, s) && StreamInv(s) && s.r.queue != [] && s.r.queue[0].Head? && s.w.hdr.consumable
    ensures StreamInv(Apply(p, s, Land))
  {
    FlattenSnoc(s.r.published, s.r.filled);
  }

  /** The publishing, or closing, header lands: the filled segment passes to the consumer. */
  lemma LandPublishInv(p: Params, s: State)
    requires Inv(p, s) && s.r.queue != [] && s.r.queue[0].Head? && s.w.hdr.consumable
    ensures Inv(p, Apply(p, s, Land))
  {
    PublishWriterInv(p, s);
    PublishEffect(p, s);
    PublishWindow(p, s, Apply(p, s, Land));
    PublishConsumerInv(p, s);
    PublishStreamInv(p, s);
  }

  lemma LandInv(p: Params, s: State)
    requires Inv(p, s)
    ensures Inv(p, Apply(p, s, Land))
  {
    if s.r.queue != [] {
      if s.r.queue[0].Data? {
        LandDataInv(p, s);
      } else if s.w.hdr.consumable {
        LandPublishInv(p, s);
      } else {
        LandFlushInv(p, s);
      }
    }
  }

  // ---------------------------------------------------------------- consumer steps

  /** If the stream fits into the one segment of its ring, that segment is published by close. */
  lemma OnlySegmentIsLast(p: Params, s: State)
    requires Inv(p, s) && |s.appended| <= p.size && |s.r.published| > 0
    ensures |s.r.published| == 1 && Ended(s)
  {
    FlattenPrefix(s.r.published, 1);
    assert s.r.published[..1] == [] + [s.r.published[0]];
    FlattenSnoc([], s.r.published[0]);
  }

  /** The test has_next makes of the ring's next segment is exact: consumable means published and not yet taken. */
  lemma ConsumableMeansPublished(p: Params, s: State)
    requires Inv(p, s) && s.r.cpc != Taking
    ensures PrevIsEnd(s.r) <==> Ended(s) && |s.r.delivered| == |s.r.published|
    ensures p.n > 1 || !PrevIsEnd(s.r) ==> (s.r.mem[s.r.iter].h.consumable <==> |s.r.delivered| < |s.r.published|)
  {
    var (T, P, R) := (|s.r.delivered|, |s.r.published|, Released(s.r));
    if T > 0 {
      assert Held(p, s, T - 1);
      if p.n == 1 {
        OnlySegmentIsLast(p, s);
      }
    }
    if T < P {
      assert Held(p, s, T);
    } else if T < R + p.n {
      assert Free(p, s.r, T);
    }
  }

  /** The writer's side of the invariant does not depend on the consumer's state, nor on segments it does not fill. */
  lemma WriterFrame(p: Params, s: State, s': State)
    requires p.n > 0 && |s.r.mem| == |s'.r.mem| == p.n && s.w.cur < p.n && s.w.used <= p.size && WriterInv(p, s)
    requires s'.w == s.w && s'.r.queue == s.r.queue && s'.r.filled == s.r.filled && s'.r.published == s.r.published
    requires Released(s.r) <= Released(s'.r)
    requires s'.r.mem[s.w.cur].data == s.r.mem[s.w.cur].data
    ensures WriterInv(p, s')
  {
    if InFlight(s.w, s.r) {
      forall j | 0 <= j < |s.r.queue|
        ensures PostIntact(s.w, s'.r, j)
      {
        assert PostIntact(s.w, s.r, j);
      }
      assert InFlight(s'.w, s'.r);
    }
    assert StartOf(s.r, 0) == StartOf(s'.r, 0);
    assert NoHead(s.r) ==> NoHead(s'.r);
  }

  /** A store changes only the held segment's header, in the order counter, consumable, writeable. */
  lemma StoreEffect(p: Params, s: State)
    requires Inv(p, s) && s.r.cpc in {ZeroCounter, ClearConsumable, SetWriteable} && s.r.delivered != []
    ensures !PrevIsEnd(s.r) && s.r.prev == Some(Slot(p.n, Released(s.r))) && Released(s.r) < |s.r.published|
    ensures StoredAt(p, s, Apply(p, s, Consume))
  {
    ConsumableMeansPublished(p, s);
    assert Held(p, s, Released(s.r));
  }

  /** What a store of the release does, seen from the segments: it moves the release of use R on, and leaves everything
      else alone. */
  ghost predicate StoredAt(p: Params, s: State, s': State)
    requires p.n > 0 && |s.r.mem| == p.n && Released(s.r) < |s.r.published|
  {
    var R := Released(s.r);
    var k := Slot(p.n, R);
    && |s'.r.mem| == p.n
    && s'.w == s.w && s'.r.queue == s.r.queue && s'.r.published == s.r.published
    && (forall j :: 0 <= j < p.n && j != k ==> s'.r.mem[j] == s.r.mem[j])
    && s'.r.mem[k].data == s.r.mem[k].data
    && Released(s'.r) <= |s'.r.delivered| <= |s.r.published|
    && if s.r.cpc == SetWriteable then
         s'.r.cpc == Taking && Released(s'.r) == R + 1 && s'.r.mem[k].h == FreeHeader(Slot(p.n, R + 1))
       else
         s'.r.cpc in {ClearConsumable, SetWriteable} && Released(s'.r) == R && s'.r.mem[k].h == HeldHeader(p, s', R)
  }

  lemma StoreHeld(p: Params, s: State, s': State, i: nat)
    requires p.n > 0 && |s.r.mem| == p.n && Released(s.r) < |s.r.published| <= Released(s.r) + p.n
    requires StoredAt(p, s, s') && Released(s'.r) <= i < |s.r.published| && Held(p, s, i)
    ensures Held(p, s', i)
  {
    SlotsApart(p.n, Released(s.r), Released(s.r));
  }

  lemma StoreFree(p: Params, s: State, s': State, i: nat)
    requires p.n > 0 && |s.r.mem| == p.n && Released(s.r) < |s.r.published| && StoredAt(p, s, s')
    requires |s.r.published| <= i < Released(s'.r) + p.n && (i < Released(s.r) + p.n ==> Free(p, s.r, i))
    ensures Free(p, s'.r, i)
  {
    var R := Released(s.r);
    if i < R + p.n {
      SlotsApart(p.n, R, R);
    } else {
      SlotPeriod(p.n, R);
      SlotPeriod(p.n, R + 1);
    }
  }

  lemma StoreWindow(p: Params, s: State, s': State)
    requires p.n > 0 && |s.r.mem| == p.n && Released(s.r) < |s.r.published| && Window(p, s) && StoredAt(p, s, s')
    ensures Window(p, s')
  {
    forall i: nat | Released(s'.r) <= i < |s.r.published|
      ensures Held(p, s', i)
    {
      assert Held(p, s, i);
      StoreHeld(p, s, s', i);
    }
    forall i: nat | |s.r.published| <= i < Released(s'.r) + p.n
      ensures Free(p, s'.r, i)
    {
      assert i < Released(s.r) + p.n ==> Free(p, s.r, i);
      StoreFree(p, s, s', i);
    }
  }

  lemma ReleaseWindow(p: Params, s: State)
    requires Inv(p, s) && s.r.cpc in {ZeroCounter, ClearConsumable, SetWriteable} && s.r.delivered != []
    ensures Window(p, Apply(p, s, Consume))
  {
    StoreEffect(p, s);
    StoreWindow(p, s, Apply(p, s, Consume));
  }

  lemma ReleaseWriterInv(p: Params, s: State)
    requires Inv(p, s) && s.r.cpc in {ZeroCounter, ClearConsumable, SetWriteable} && s.r.delivered != []
    ensures WriterInv(p, Apply(p, s, Consume))
  {
    StoreEffect(p, s);
    WriterFrame(p, s, Apply(p, s, Consume));
  }

  lemma ReleaseConsumerInv(p: Params, s: State)
    requires p.n > 0 && InBounds(p, s) && ConsumerInv(p, s)
    requires s.r.cpc in {ZeroCounter, ClearConsumable, SetWriteable} && s.r.delivered != []
    ensures ConsumerInv(p, Apply(p, s, Consume)) && Apply(p, s, Consume).w == s.w
  {
  }

  lemma ReleaseInv(p: Params, s: State)
    requires Inv(p, s) && s.r.cpc in {ZeroCounter, ClearConsumable, SetWriteable} && s.r.delivered != []
    ensures Inv(p, Apply(p, s, Consume))
  {
    ReleaseWindow(p, s);
    ReleaseWriterInv(p, s);
    ReleaseConsumerInv(p, s);
  }

  lemma StoreInv(p: Params, s: State)
    requires Inv(p, s) && s.r.cpc in {ZeroCounter, ClearConsumable, SetWriteable}
    ensures Inv(p, Apply(p, s, Consume))
  {
    var s' := Apply(p, s, Consume);
    if s.r.delivered == [] {
      assert Window(p, s') by { WindowFrameConsumer(p, s, s'); }
      assert WriterInv(p, s') by { WriterFrame(p, s, s'); }
    } else {
      ReleaseInv(p, s);
    }
  }

  /** A consumer step that stores nothing and releases nothing. */
  lemma WindowFrameConsumer(p: Params, s: State, s': State)
    requires p.n > 0 && |s.r.mem| == p.n && Window(p, s)
    requires s'.w == s.w && s'.r.mem == s.r.mem && s'.r.queue == s.r.queue && s'.r.published == s.r.published
    requires Released(s'.r) == Released(s.r) <= |s'.r.delivered| <= |s.r.published|
    requires s.r.cpc !in {ClearConsumable, SetWriteable} && s'.r.cpc !in {ClearConsumable, SetWriteable}
    ensures Window(p, s')
  {
    forall i: nat | Released(s'.r) <= i < |s'.r.published|
      ensures Held(p, s', i)
    {
      assert Held(p, s, i);
    }
    forall i: nat | |s'.r.published| <= i < Released(s'.r) + p.n
      ensures Free(p, s'.r, i)
    {
      assert Free(p, s.r, i);
    }
  }

  lemma TakeInv(p: Params, s: State)
    requires Inv(p, s) && s.r.cpc == Taking && Sound(p, Apply(p, s, Consume))
    ensures Inv(p, Apply(p, s, Consume))
  {
    var s' := Apply(p, s, Consume);
    TakenConsumerInv(p, s);
    assert Window(p, s') by { WindowFrameConsumer(p, s, s'); }
    assert WriterInv(p, s') by { WriterFrame(p, s, s'); }
  }

  lemma TakenConsumerInv(p: Params, s: State)
    requires p.n > 0 && InBounds(p, s) && Window(p, s) && ConsumerInv(p, s) && s.r.cpc == Taking
    ensures ConsumerInv(p, Apply(p, s, Consume))
  {
    var T := |s.r.delivered|;
    assert Held(p, s, T);
    assert s.r.mem[s.r.iter].data[..|s.r.published[T]|] == s.r.published[T];
    assert Apply(p, s, Consume).r.delivered == s.r.published[..T + 1];
    SlotNext(p.n, T);
  }

  lemma ScanInv(p: Params, s: State)
    requires Inv(p, s) && s.r.cpc == Scanning
    ensures Inv(p, Apply(p, s, Consume))
  {
    var s' := Apply(p, s, Consume);
    ConsumableMeansPublished(p, s);
    assert Window(p, s') by { WindowFrameConsumer(p, s, s'); }
    assert WriterInv(p, s') by { WriterFrame(p, s, s'); }
  }

  lemma ConsumeInv(p: Params, s: State)
    requires Inv(p, s) && Sound(p, Apply(p, s, Consume))
    ensures Inv(p, Apply(p, s, Consume))
  {
    match s.r.cpc {
      case Taking => TakeInv(p, s);
      case Scanning => ScanInv(p, s);
      case Retired =>
      case _ => StoreInv(p, s);
    }
  }

  // ---------------------------------------------------------------- every step, every run

  lemma StepInv(p: Params, s: State, step: Step)
    requires Inv(p, s) && Sound(p, Apply(p, s, step))
    ensures Inv(p, Apply(p, s, step))
  {
    match step {
      case Append(data) => if s.w.pc == Idle { AppendInv(p, s, data); }
      case Close => if s.w.pc == Idle { CloseInv(p, s); }
      case Write => WriterStepInv(p, s);
      case Land => LandInv(p, s);
      case Consume => ConsumeInv(p, s);
    }
  }

  lemma SoundBefore(p: Params, s: State, step: Step)
    requires InBounds(p, s) && Sound(p, Apply(p, s, step))
    ensures Sound(p, s)
  {
  }

  lemma {:induction false} RunInv(p: Params, s: State, schedule: seq<Step>)
    requires Inv(p, s) && Sound(p, Run(p, s, schedule))
    ensures Inv(p, Run(p, s, schedule))
  {
    if schedule != [] {
      var k := |schedule| - 1;
      var before := Run(p, s, schedule[..k]);
      SoundBefore(p, before, schedule[k]);
      RunInv(p, s, schedule[..k]);
      StepInv(p, before, schedule[k]);
    }
  }
}
