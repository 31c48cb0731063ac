/**
 The bandwidth-optimised ring protocol as a transition system.

 Three parties act on one ring of n segments: the remote writer (BufferWriterBW), the network that lands the
 writer's posted writes in order, and the local consumer (BufferIterator). They share only the segment headers.
 A schedule is any sequence of their steps, so a statement about all schedules is a statement about every
 interleaving. A posted write holds no bytes: it names a range of the staging buffer, or the writer's header
 copy, which the network reads when it lands the write. Payload lands byte by byte, a header in one piece.
 The consumer's three stores that release a segment are three steps.
 */
module BwProtocol {
  import opened Util
  import opened SegmentHeader

  /** Segments per ring, payload bytes per segment, bytes of the writer's staging buffer; and what the payload areas and
      the staging buffer hold before anything is written to them, about which nothing is assumed. */
  datatype Params = Params(n: nat, size: nat, staging: nat, payload: seq<seq<byte>>, scratch: seq<byte>) {
    ghost predicate Valid() {
      && n > 0 && size > 0 && staging > 0
      && |payload| == n && (forall k :: 0 <= k < n ==> |payload[k]| == size) && |scratch| == staging
    }
  }

  /** A posted write: the writer's header copy to a segment, or a staged range to a segment's payload area. */
  datatype Post = Head(seg: nat) | Data(seg: nat, at: nat, src: nat, len: nat)

  /** Where the consumer is: between calls to next (Scanning), or inside next before the named action. */
  datatype ConsumerPc = Scanning | ZeroCounter | ClearConsumable | SetWriteable | Taking | Retired

  /** Everything outside the writer: the ring, the posted writes still in flight, and the consumer.
      `published` and `filled` are history: the contents of the segments published so far, in order, and of the
      segment being filled. `delivered` holds what next() has returned, one entry a call. */
  datatype Remote = Remote(mem: seq<Segment>, queue: seq<Post>,
                           iter: nat, prev: Option<nat>, cpc: ConsumerPc, delivered: seq<seq<byte>>,
                           published: seq<seq<byte>>, filled: seq<byte>)

  /** Where the writer is: between calls (Idle); in super_append (Work); waiting for the header flush before the
      staging buffer wraps with k bytes to stage (Flush); waiting for the publishing header write (Publish);
      polling the next segment (Poll); waiting for the closing header write (Closing); done (Closed). */
  datatype WriterPc = Idle | Work | Flush(k: nat) | Publish(next: nat) | Poll(next: nat) | Closing | Closed

  /** The writer: current segment, bytes used in it, header copy, staging buffer with its offset; `chunk` is what
      is left of the piece super_append was given, `rest` the part of the call that append has still to hand over. */
  datatype Writer = Writer(cur: nat, used: nat, hdr: Header, staging: seq<byte>, offset: nat,
                           chunk: seq<byte>, rest: seq<byte>, pc: WriterPc)

  /** `appended` is history: all bytes given to append so far. */
  datatype State = State(w: Writer, r: Remote, appended: seq<byte>)

  datatype Step = Append(data: seq<byte>) | Close | Write | Land | Consume

  // ---------------------------------------------------------------- bounds

  /** A posted write stays inside one segment's payload area and inside the staging buffer. */
  ghost predicate PostInBounds(p: Params, post: Post) {
    && post.seg < p.n
    && (post.Data? ==> post.at + post.len <= p.size && post.src + post.len <= p.staging)
  }

  ghost predicate RemoteInBounds(p: Params, r: Remote) {
    && |r.mem| == p.n
    && (forall k :: 0 <= k < p.n ==> r.mem[k].h.next < p.n && r.mem[k].h.counter <= p.size && |r.mem[k].data| == p.size)
    && (forall j :: 0 <= j < |r.queue| ==> PostInBounds(p, r.queue[j]))
    && r.iter < p.n
    && (r.prev.Some? ==> r.prev.value < p.n)
    && (r.cpc in {ZeroCounter, ClearConsumable, SetWriteable} ==> r.prev.Some? || r.cpc == ZeroCounter)
  }

  ghost predicate WriterInBounds(p: Params, w: Writer) {
    && w.cur < p.n
    && w.used <= p.size
    && w.hdr.next < p.n && w.hdr.counter <= p.size
    && |w.staging| == p.staging
    && w.offset <= p.staging
    && |w.chunk| <= p.staging
    && (w.pc.Flush? ==> w.pc.k <= |w.chunk| && w.used + w.pc.k <= p.size)
    && (w.pc.Publish? || w.pc.Poll? ==> w.pc.next < p.n)
  }

  /** No party can reach outside the ring or the staging buffer. Every step keeps this. */
  ghost predicate InBounds(p: Params, s: State) {
    p.Valid() && WriterInBounds(p, s.w) && RemoteInBounds(p, s.r)
  }

  // ---------------------------------------------------------------- initial state

  /** A fresh ring: every segment free and linked to its successor, the writer on segment 0 with its header read,
      the consumer's iterator on segment 0 and its prev on the detached end iterator (None). */
  function Init(p: Params): (s: State)
    requires p.Valid()
    ensures InBounds(p, s)
  {
    var mem := seq(p.n, k requires 0 <= k < p.n => Segment(FreeHeader(NextSlot(p.n, k)), p.payload[k]));
    assert forall k :: 0 <= k < p.n ==> NextSlot(p.n, k) < p.n;
    State(Writer(0, 0, FreeHeader(NextSlot(p.n, 0)), p.scratch, 0, [], [], Idle),
          Remote(mem, [], 0, None, Scanning, [], [], []), [])
  }

  // ---------------------------------------------------------------- writer

  /** append's loop hands super_append at most one staging buffer's worth of the call at a time. */
  function FirstPiece(p: Params, data: seq<byte>): (bytes: seq<byte>) {
    if |data| > p.staging then data[..p.staging] else data
  }

  function LaterPieces(p: Params, data: seq<byte>): (bytes: seq<byte>) {
    if |data| > p.staging then data[p.staging..] else []
  }

  function NextPiece(p: Params, w: Writer): (w': Writer) {
    w.(chunk := FirstPiece(p, w.rest), rest := LaterPieces(p, w.rest), pc := Work)
  }

  /** A call to append. */
  function StartAppend(p: Params, s: State, data: seq<byte>): (s': State)
    requires InBounds(p, s) && s.w.pc == Idle
    ensures InBounds(p, s')
  {
    s.(w := NextPiece(p, s.w.(rest := data)), appended := s.appended + data)
  }

  function PostHead(r: Remote, seg: nat): (r': Remote) {
    r.(queue := r.queue + [Head(seg)])
  }

  /** The call goes on: with the rest of the piece, with the next piece, or back to the caller. */
  function HandOn(p: Params, w: Writer): (w': Writer) {
    if w.chunk != [] then w.(pc := Work) else if w.rest == [] then w.(pc := Idle) else NextPiece(p, w)
  }

  /** Copies the first k bytes of the piece to staging position `at`, posts them behind the bytes already in the
      segment, and moves on: to the rest of the piece, the next piece of the call, or back to the caller. */
  function StageAndPost(p: Params, s: State, at: nat, k: nat): (s': State)
    requires InBounds(p, s)
    requires k <= |s.w.chunk| && at + k <= p.staging && s.w.used + k <= p.size
    ensures InBounds(p, s')
  {
    var bytes := s.w.chunk[..k];
    var w := s.w.(staging := s.w.staging[..at] + bytes + s.w.staging[at + k..], offset := at + k,
                  used := s.w.used + k, chunk := s.w.chunk[k..]);
    s.(w := HandOn(p, w), r := s.r.(queue := s.r.queue + [Data(s.w.cur, s.w.used, at, k)], filled := s.r.filled + bytes))
  }

  /** How many bytes of the piece go to the current segment now. */
  function FirstPart(p: Params, w: Writer): (k: nat)
    requires w.used <= p.size
    ensures k <= |w.chunk| && w.used + k <= p.size
  {
    if p.size < w.used + |w.chunk| then p.size - w.used else |w.chunk|
  }

  /** super_append: publish a full segment, or write what fits, flushing the header first if the staging buffer wraps. */
  function SuperAppend(p: Params, s: State): (s': State)
    requires InBounds(p, s) && s.w.pc == Work
    ensures InBounds(p, s')
  {
    var w := s.w;
    if p.size < w.used + |w.chunk| && w.used == p.size then
      s.(w := w.(hdr := w.hdr.SetConsumable(true).SetWriteable(false).(counter := w.used), pc := Publish(w.hdr.next)),
         r := PostHead(s.r, w.cur))
    else
      var k := FirstPart(p, w);
      if k + w.offset <= p.staging then StageAndPost(p, s, w.offset, k)
      else s.(w := w.(pc := Flush(k)), r := PostHead(s.r, w.cur))
  }

  /** One read of the next segment's header; the writer moves there when it is writeable. */
  function PollNext(p: Params, s: State): (s': State)
    requires InBounds(p, s) && s.w.pc.Poll?
    ensures InBounds(p, s')
  {
    var h := s.r.mem[s.w.pc.next].h;
    if h.writeable then s.(w := s.w.(hdr := h, cur := s.w.pc.next, used := 0, pc := Work))
    else s.(w := s.w.(hdr := h))
  }

  /** The writer's next action; a signaled write completes only once everything posted before it has landed. */
  function WriterStep(p: Params, s: State): (s': State)
    requires InBounds(p, s)
    ensures InBounds(p, s')
  {
    match s.w.pc
    case Work => SuperAppend(p, s)
    case Flush(k) => if s.r.queue == [] then StageAndPost(p, s, 0, k) else s
    case Publish(next) => if s.r.queue == [] then s.(w := s.w.(pc := Poll(next))) else s
    case Poll(_) => PollNext(p, s)
    case Closing => if s.r.queue == [] then s.(w := s.w.(pc := Closed)) else s
    case _ => s
  }

  /** close: publish the current segment, however full, with the end mark. */
  function StartClose(p: Params, s: State): (s': State)
    requires InBounds(p, s) && s.w.pc == Idle
    ensures InBounds(p, s')
  {
    s.(w := s.w.(hdr := s.w.hdr.(counter := s.w.used).SetWriteable(false).SetConsumable(true).MarkEnd(), pc := Closing),
       r := PostHead(s.r, s.w.cur))
  }

  // ---------------------------------------------------------------- network

  /** Lands one header, or one byte of payload, of the oldest posted write. */
  function LandStep(p: Params, hdr: Header, staging: seq<byte>, r: Remote): (r': Remote)
    requires p.Valid() && RemoteInBounds(p, r) && |staging| == p.staging && hdr.next < p.n && hdr.counter <= p.size
    ensures RemoteInBounds(p, r')
  {
    if r.queue == [] then r
    else
      match r.queue[0]
      case Head(seg) =>
        var r' := r.(mem := r.mem[seg := r.mem[seg].(h := hdr)], queue := r.queue[1..]);
        if hdr.consumable then r'.(published := r.published + [r.filled], filled := []) else r'
      case Data(seg, at, src, len) =>
        if len == 0 then r.(queue := r.queue[1..])
        else r.(mem := r.mem[seg := r.mem[seg].(data := r.mem[seg].data[at := staging[src]])],
                queue := [Data(seg, at + 1, src + 1, len - 1)] + r.queue[1..])
  }

  // ---------------------------------------------------------------- consumer

  /** The detached end iterator never reads as an end segment: IterHelper clears its mark. */
  predicate PrevIsEnd(r: Remote)
    requires r.prev.Some? ==> r.prev.value < |r.mem|
  {
    r.prev.Some? && r.mem[r.prev.value].h.end
  }

  function SetHeader(r: Remote, k: nat, h: Header): (r': Remote)
    requires k < |r.mem|
  {
    r.(mem := r.mem[k := r.mem[k].(h := h)])
  }

  /** The consumer's next action on this ring: has_next's test, one of mark_prev_segment's stores, or the take. */
  function ConsumeStep(p: Params, r: Remote): (r': Remote)
    requires p.Valid() && RemoteInBounds(p, r)
    ensures RemoteInBounds(p, r')
  {
    match r.cpc
    case Scanning =>
      if PrevIsEnd(r) then r.(cpc := Retired)
      else if r.mem[r.iter].h.consumable then r.(cpc := ZeroCounter)
      else r
    case ZeroCounter =>
      if r.prev.None? || PrevIsEnd(r) then r.(cpc := Taking)
      else SetHeader(r, r.prev.value, r.mem[r.prev.value].h.(counter := 0)).(cpc := ClearConsumable)
    case ClearConsumable =>
      SetHeader(r, r.prev.value, r.mem[r.prev.value].h.SetConsumable(false)).(cpc := SetWriteable)
    case SetWriteable =>
      SetHeader(r, r.prev.value, r.mem[r.prev.value].h.SetWriteable(true)).(cpc := Taking)
    case Taking =>
      var seg := r.mem[r.iter];
      r.(delivered := r.delivered + [seg.data[..seg.h.counter]], prev := Some(r.iter), iter := seg.h.next, cpc := Scanning)
    case Retired => r
  }

  // ---------------------------------------------------------------- runs

  /** One step; a call to the writer while a call is in progress or after close is not taken. */
  function Apply(p: Params, s: State, step: Step): (s': State)
    requires InBounds(p, s)
    ensures InBounds(p, s')
  {
    match step
    case Append(data) => if s.w.pc == Idle then StartAppend(p, s, data) else s
    case Close => if s.w.pc == Idle then StartClose(p, s) else s
    case Write => WriterStep(p, s)
    case Land => s.(r := LandStep(p, s.w.hdr, s.w.staging, s.r))
    case Consume => s.(r := ConsumeStep(p, s.r))
  }

  function Run(p: Params, s: State, schedule: seq<Step>): (s': State)
    requires InBounds(p, s)
    ensures InBounds(p, s')
  {
    if schedule == [] then s else Apply(p, Run(p, s, schedule[..|schedule| - 1]), schedule[|schedule| - 1])
  }

  lemma RunSnoc(p: Params, s: State, schedule: seq<Step>, step: Step)
    requires InBounds(p, s)
    ensures Run(p, s, schedule + [step]) == Apply(p, Run(p, s, schedule), step)
  {
    assert (schedule + [step])[..|schedule|] == schedule;
  }

  lemma {:induction false} RunAppend(p: Params, s: State, first: seq<Step>, second: seq<Step>)
    requires InBounds(p, s)
    ensures Run(p, s, first + second) == Run(p, Run(p, s, first), second)
  {
    if second == [] {
      assert first + second == first;
    } else {
      var k := |second| - 1;
      assert first + second == (first + second[..k]) + [second[k]];
      RunSnoc(p, s, first + second[..k], second[k]);
      RunAppend(p, s, first, second[..k]);
    }
  }

  lemma RunCons(p: Params, s: State, step: Step, rest: seq<Step>)
    requires InBounds(p, s)
    ensures Run(p, s, [step] + rest) == Run(p, Apply(p, s, step), rest)
  {
    RunAppend(p, s, [step], rest);
    RunSnoc(p, s, [], step);
    assert [] + [step] == [step];
  }
}
