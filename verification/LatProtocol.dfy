/**
 The latency-optimised ring protocol as a transition system.

 One message fills one segment. The writer (BufferWriterLat) never reads segment headers: it spends credits, read
 from a counter word in front of the ring that the consumer (BufferIteratorLat) increments for every segment it
 gives back. Messages are posted without waiting, header and payload in one write that lands in one piece.
 close stamps the end mark on the last message's segment, which the consumer may already have taken.
 */
module LatProtocol {
  import opened Util
  import opened SegmentHeader

  /** Segments per ring, payload bytes per segment; and what the payload areas hold before anything is written to them. */
  datatype Params = Params(n: nat, size: nat, payload: seq<seq<byte>>) {
    ghost predicate Valid() {
      && n > 0 && size > 0
      && |payload| == n && (forall k :: 0 <= k < n ==> |payload[k]| == size)
    }
  }

  /** A posted write: a message with its header, or the end stamp close puts on a header. */
  datatype Post = Message(seg: nat, hdr: Header, data: seq<byte>) | Stamp(seg: nat, hdr: Header)

  datatype ConsumerPc = Scanning | ZeroCounter | ClearConsumable | SetWriteable | ReturnCredit | Taking | Retired

  /** The ring with its counter word, the posted writes in flight, and the consumer; `landed` counts the messages
      that have landed, `delivered` holds what next() has returned. */
  datatype Remote = Remote(mem: seq<Segment>, credit: nat, queue: seq<Post>,
                           iter: nat, prev: Option<nat>, cpc: ConsumerPc, delivered: seq<seq<byte>>, landed: nat)

  /** Between calls (Idle); in append with `data` to send, polling the counter while there is no credit (Sending);
      waiting for a signaled message (Wait); waiting for the end stamp (Closing); done (Closed). */
  datatype WriterPc = Idle | Sending(data: seq<byte>) | Wait | Closing | Closed

  /** Current segment and its index in the ring, the last segment written, the header template, the counter value read
      last and the credits left. */
  datatype Writer = Writer(cur: nat, index: nat, last: Option<nat>, hdr: Header, known: nat, free: nat, pc: WriterPc)

  /** `messages` is history: every message given to append, in order. */
  datatype State = State(w: Writer, r: Remote, messages: seq<seq<byte>>)

  datatype Step = Append(data: seq<byte>) | Close | Write | Land | Consume

  // ---------------------------------------------------------------- bounds

  ghost predicate HeaderInBounds(p: Params, h: Header) {
    h.next < p.n && h.counter <= p.size
  }

  ghost predicate PostInBounds(p: Params, post: Post) {
    post.seg < p.n && HeaderInBounds(p, post.hdr) && (post.Message? ==> |post.data| <= p.size)
  }

  ghost predicate RemoteInBounds(p: Params, r: Remote) {
    && |r.mem| == p.n
    && (forall k :: 0 <= k < p.n ==> HeaderInBounds(p, r.mem[k].h) && |r.mem[k].data| == p.size)
    && (forall j :: 0 <= j < |r.queue| ==> PostInBounds(p, r.queue[j]))
    && r.iter < p.n
    && (r.prev.Some? ==> r.prev.value < p.n)
    && (r.cpc in {ClearConsumable, SetWriteable, ReturnCredit} ==> r.prev.Some?)
  }

  ghost predicate WriterInBounds(p: Params, w: Writer) {
    && w.cur == w.index < p.n
    && (w.last.Some? ==> w.last.value < p.n)
    && HeaderInBounds(p, w.hdr)
    && (w.pc.Sending? ==> |w.pc.data| <= p.size)
  }

  /** No party can reach outside the ring. Every step keeps this. */
  ghost predicate InBounds(p: Params, s: State) {
    p.Valid() && WriterInBounds(p, s.w) && RemoteInBounds(p, s.r)
  }

  // ---------------------------------------------------------------- initial state

  function Init(p: Params): (s: State)
    requires p.Valid()
    ensures InBounds(p, s)
  {
    var mem := seq(p.n, k requires 0 <= k < p.n => Segment(FreeHeader(NextSlot(p.n, k)), p.payload[k]));
    assert forall k :: 0 <= k < p.n ==> NextSlot(p.n, k) < p.n;
    State(Writer(0, 0, None, FreeHeader(NextSlot(p.n, 0)), p.n, p.n, Idle),
          Remote(mem, p.n, [], 0, None, Scanning, [], 0), [])
  }

  // ---------------------------------------------------------------- writer

  /** Posts the message to the current segment with the successor computed from the index, not read from the ring;
      waits for it if it spends the last credit. */
  function Send(p: Params, s: State, data: seq<byte>): (s': State)
    requires InBounds(p, s) && |data| <= p.size && s.w.free > 0
    ensures InBounds(p, s')
  {
    var wrap := s.w.index == p.n - 1;
    var next := if wrap then 0 else s.w.cur + 1;
    var hdr := s.w.hdr.(counter := |data|, next := next).SetConsumable(true);
    s.(w := Writer(next, if wrap then 0 else s.w.index + 1, Some(s.w.cur), hdr, s.w.known, s.w.free - 1,
                   if s.w.free == 1 then Wait else Idle),
       r := s.r.(queue := s.r.queue + [Message(s.w.cur, hdr, data)]))
  }

  function StartAppend(p: Params, s: State, data: seq<byte>): (s': State)
    requires InBounds(p, s) && s.w.pc == Idle && |data| <= p.size
    ensures InBounds(p, s')
  {
    s.(messages := s.messages + [data], w := s.w.(pc := Sending(data)))
  }

  /** One signaled read of the counter word: it completes once everything posted has landed. A new value gives credit.
      The counter never falls, so the source's branch for a counter that rolled over is never taken. */
  function PollCounter(p: Params, s: State): (s': State)
    requires InBounds(p, s)
    ensures InBounds(p, s')
  {
    if s.r.queue != [] || s.r.credit <= s.w.known then s
    else s.(w := s.w.(known := s.r.credit, free := s.w.free + (s.r.credit - s.w.known)))
  }

  /** close: stamp the last segment written as full, consumable and end. */
  function StartClose(p: Params, s: State): (s': State)
    requires InBounds(p, s) && s.w.pc == Idle && s.w.last.Some?
    ensures InBounds(p, s')
  {
    var hdr := s.w.hdr.(counter := p.size).SetWriteable(false).SetConsumable(true).MarkEnd();
    s.(w := s.w.(hdr := hdr, pc := Closing), r := s.r.(queue := s.r.queue + [Stamp(s.w.last.value, hdr)]))
  }

  function WriterStep(p: Params, s: State): (s': State)
    requires InBounds(p, s)
    ensures InBounds(p, s')
  {
    match s.w.pc
    case Sending(data) => if s.w.free == 0 then PollCounter(p, s) else Send(p, s, data)
    case Wait => if s.r.queue == [] then s.(w := s.w.(pc := Idle)) else s
    case Closing => if s.r.queue == [] then s.(w := s.w.(pc := Closed)) else s
    case _ => s
  }

  // ---------------------------------------------------------------- network

  function LandStep(p: Params, r: Remote): (r': Remote)
    requires p.Valid() && RemoteInBounds(p, r)
    ensures RemoteInBounds(p, r')
  {
    if r.queue == [] then r
    else
      match r.queue[0]
      case Message(seg, hdr, data) =>
        r.(mem := r.mem[seg := Segment(hdr, data + r.mem[seg].data[|data|..])], queue := r.queue[1..], landed := r.landed + 1)
      case Stamp(seg, hdr) => r.(mem := r.mem[seg := r.mem[seg].(h := hdr)], queue := r.queue[1..])
  }

  // ---------------------------------------------------------------- consumer

  predicate PrevIsEnd(r: Remote)
    requires r.prev.Some? ==> r.prev.value < |r.mem|
  {
    r.prev.Some? && r.mem[r.prev.value].h.end
  }

  function SetHeader(r: Remote, k: nat, h: Header): (r': Remote)
    requires k < |r.mem|
  {
    r.(mem := r.mem[k := r.mem[k].(h := h)])
  }

  /** The consumer's next action. The detached end iterator (prev None) is not writeable, so it returns no credit. */
  function ConsumeStep(p: Params, r: Remote): (r': Remote)
    requires p.Valid() && RemoteInBounds(p, r)
    ensures RemoteInBounds(p, r')
  {
    match r.cpc
    case Scanning =>
      if PrevIsEnd(r) then r.(cpc := Retired)
      else if r.mem[r.iter].h.consumable then r.(cpc := ZeroCounter)
      else r
    case ZeroCounter =>
      if r.prev.None? || PrevIsEnd(r) || !r.mem[r.prev.value].h.writeable then r.(cpc := Taking)
      else SetHeader(r, r.prev.value, r.mem[r.prev.value].h.(counter := 0)).(cpc := ClearConsumable)
    case ClearConsumable =>
      SetHeader(r, r.prev.value, r.mem[r.prev.value].h.SetConsumable(false)).(cpc := SetWriteable)
    case SetWriteable =>
      SetHeader(r, r.prev.value, r.mem[r.prev.value].h.SetWriteable(true)).(cpc := ReturnCredit)
    case ReturnCredit => r.(credit := r.credit + 1, cpc := Taking)
    case Taking =>
      var seg := r.mem[r.iter];
      r.(delivered := r.delivered + [seg.data[..seg.h.counter]], prev := Some(r.iter), iter := seg.h.next, cpc := Scanning)
    case Retired => r
  }

  // ---------------------------------------------------------------- runs

  /** One step; a call made while another is in progress or after close is not taken, nor is a message larger than a
      segment, nor a close before the first append. */
  function Apply(p: Params, s: State, step: Step): (s': State)
    requires InBounds(p, s)
    ensures InBounds(p, s')
  {
    match step
    case Append(data) => if s.w.pc == Idle && |data| <= p.size then StartAppend(p, s, data) else s
    case Close => if s.w.pc == Idle && s.w.last.Some? then StartClose(p, s) else s
    case Write => WriterStep(p, s)
    case Land => s.(r := LandStep(p, s.r))
    case Consume => s.(r := ConsumeStep(p, s.r))
  }

  function Run(p: Params, s: State, schedule: seq<Step>): (s': State)
    requires InBounds(p, s)
    ensures InBounds(p, s')
  {
    if schedule == [] then s else Apply(p, Run(p, s, schedule[..|schedule| - 1]), schedule[|schedule| - 1])
  }

  lemma RunSnoc(p: Params, s: State, schedule: seq<Step>, step: Step)
    requires InBounds(p, s)
    ensures Run(p, s, schedule + [step]) == Apply(p, Run(p, s, schedule), step)
  {
    assert (schedule + [step])[..|schedule|] == schedule;
  }

  lemma {:induction false} RunAppend(p: Params, s: State, first: seq<Step>, second: seq<Step>)
    requires InBounds(p, s)
    ensures Run(p, s, first + second) == Run(p, Run(p, s, first), second)
  {
    if second == [] {
      assert first + second == first;
    } else {
      var k := |second| - 1;
      assert first + second == (first + second[..k]) + [second[k]];
      RunSnoc(p, s, first + second[..k], second[k]);
      RunAppend(p, s, first, second[..k]);
    }
  }

  lemma RunCons(p: Params, s: State, step: Step, rest: seq<Step>)
    requires InBounds(p, s)
    ensures Run(p, s, [step] + rest) == Run(p, Apply(p, s, step), rest)
  {
    RunAppend(p, s, [step], rest);
    RunSnoc(p, s, [], step);
    assert [] + [step] == [step];
  }
}
