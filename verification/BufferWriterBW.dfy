/**
 BufferWriterBW, method by method, as an implementation of the protocol in BwProtocol.

 The object holds the writer's own fields. `remote` stands for the memory, the network and the consumer on the other
 side; while the writer is inside an RDMA call they take steps of their own, and `future` says which: one entry is
 used up per call, so a statement about every `future` is a statement about every interleaving. Valid() says that the
 fields are the state some schedule of the protocol leads to, which is what brings the theorems about all schedules
 to bear on this code. A poll loop gives up when `future` is used up, where the source would spin on.
 */
module BufferWriterBW {
  import opened Util
  import opened SegmentHeader
  import opened BwProtocol
  import opened BwInvariant
  import opened BwTheorems

  /** A step of somebody else. */
  datatype Other = Network | Consumer

  function AsStep(other: Other): (step: Step) {
    if other == Network then Land else Consume
  }

  function AsSteps(others: seq<Other>): (steps: seq<Step>) {
    seq(|others|, i requires 0 <= i < |others| => AsStep(others[i]))
  }

  lemma OneMoreStep(others: seq<Other>, i: nat)
    requires i < |others|
    ensures AsSteps(others[..i + 1]) == AsSteps(others[..i]) + [AsStep(others[i])]
  {
  }

  /** When staging k bytes at `at` is the writer's next step. */
  lemma StagingIsTheStep(p: Params, s: State, at: nat, k: nat)
    requires InBounds(p, s) && k <= |s.w.chunk| && at + k <= p.staging
    requires if s.w.pc == Work
             then !(p.size < s.w.used + |s.w.chunk| && s.w.used == p.size) && k == FirstPart(p, s.w) && at == s.w.offset
             else s.w.pc == Flush(k) && s.r.queue == [] && at == 0
    ensures s.w.used + k <= p.size && Apply(p, s, Write) == StageAndPost(p, s, at, k)
  {
  }

  class BufferWriter {
    const p: Params

    var segment: nat           // m_localBufferSegment->offset, as a position in the ring
    var sizeUsed: nat
    var header: Header         // m_segmentHeader
    const buffer: array<byte>  // m_internalBuffer
    var offset: nat            // m_internalBuffer->offset

    var remote: Remote
    var future: seq<seq<Other>>

    // Where the call in progress is, and the history.
    ghost var pc: WriterPc
    ghost var chunk: seq<byte>
    ghost var rest: seq<byte>
    ghost var appended: seq<byte>
    ghost var log: seq<Step>

    ghost function Abs(): (s: State)
      reads this, buffer
    {
      State(Writer(segment, sizeUsed, header, buffer[..], offset, chunk, rest, pc), remote, appended)
    }

    ghost predicate Valid()
      reads this, buffer
    {
      && p.Valid()
      && Abs() == After(p, log)
    }

    constructor (p: Params, future: seq<seq<Other>>)
      requires p.Valid()
      ensures Valid() && Abs() == Init(p) && log == []
      ensures this.p == p && this.future == future && fresh(buffer)
    {
      this.p := p;
      this.future := future;
      segment, sizeUsed, offset := 0, 0, 0;
      header := Init(p).w.hdr;
      buffer := new byte[p.staging](i requires 0 <= i < |p.scratch| => p.scratch[i]);
      remote := Init(p).r;
      pc, chunk, rest, appended, log := Idle, [], [], [], [];
      new;
      assert buffer[..] == Init(p).w.staging;
    }

    /** The fields have just taken the given step of the protocol. */
    ghost method Record(before: State, step: Step)
      requires p.Valid() && before == After(p, log) && Abs() == Apply(p, before, step)
      modifies this`log
      ensures Valid() && log == old(log) + [step]
    {
      RunSnoc(p, Init(p), log, step);
      log := log + [step];
    }

    /** The network and the consumer take the steps the future holds for this moment. */
    method Interfere()
      requires Valid()
      modifies this`remote, this`future, this`log
      ensures Valid()
      ensures if old(future) == [] then future == [] && log == old(log) && remote == old(remote)
              else future == old(future)[1..] && log == old(log) + AsSteps(old(future)[0])
    {
      if future == [] {
        return;
      }
      var others := future[0];
      future := future[1..];
      MoveAll(others);
    }

    method MoveAll(others: seq<Other>)
      requires Valid()
      modifies this`remote, this`log
      ensures Valid() && log == old(log) + AsSteps(others)
    {
      for i := 0 to |others|
        invariant Valid() && log == old(log) + AsSteps(others[..i])
      {
        OneMoreStep(others, i);
        Move(others[i]);
      }
      assert others[..|others|] == others;
    }

    /** One step of somebody else. */
    method Move(other: Other)
      requires Valid()
      modifies this`remote, this`log
      ensures Valid() && log == old(log) + [AsStep(other)]
    {
      if other == Network {
        LandNext();
      } else {
        ghost var before := Abs();
        remote := ConsumeStep(p, remote);
        Record(before, Consume);
      }
    }

    method LandNext()
      requires Valid()
      modifies this`remote, this`log
      ensures Valid() && log == old(log) + [Land]
      ensures remote == LandStep(p, header, buffer[..], old(remote))
    {
      ghost var before := Abs();
      remote := LandStep(p, header, buffer[..], remote);
      Record(before, Land);
    }

    /** A signaled write has been posted: everything posted lands before the call returns. */
    method Complete()
      requires Valid()
      modifies this`remote, this`future, this`log
      ensures Valid() && old(log) <= log && remote.queue == []
    {
      Interfere();
      while remote.queue != []
        invariant Valid() && old(log) <= log
        decreases |remote.queue|, if remote.queue != [] && remote.queue[0].Data? then remote.queue[0].len else 0
      {
        LandNext();
      }
    }

    /** memcpy into the internal buffer. */
    method CopyIn(at: nat, data: seq<byte>)
      requires at + |data| <= buffer.Length
      modifies buffer
      ensures buffer[..] == old(buffer[..at]) + data + old(buffer[at + |data|..])
    {
      for i := 0 to |data|
        invariant buffer[..] == old(buffer[..at]) + data[..i] + old(buffer[at + i..])
      {
        buffer[at + i] := data[i];
      }
    }

    /** The call has handed over k more bytes of the piece, and moves on as super_append and append do. */
    ghost predicate HandedOver(chunk0: seq<byte>, rest0: seq<byte>, k: nat)
      reads this
      requires k <= |chunk0|
    {
      if k < |chunk0| then pc == Work && chunk == chunk0[k..] && rest == rest0
      else if rest0 == [] then pc == Idle && chunk == rest == []
      else pc == Work && chunk == FirstPiece(p, rest0) && rest == LaterPieces(p, rest0)
    }

    /** Stages the first part of the piece and posts it; the header is flushed first if the internal buffer wraps.
        m_sizeUsed, which the source updates right after this call, is updated here. */
    method WriteToSegment(data: seq<byte>)
      requires Valid() && pc == Work && data == chunk[..FirstPart(p, Abs().w)]
      requires !(p.size < sizeUsed + |chunk| && sizeUsed == p.size)
      modifies this, buffer
      ensures Valid() && old(log) <= log && appended == old(appended)
      ensures sizeUsed == old(sizeUsed) + |data|
      ensures offset == |data| + if old(offset) + |data| > p.staging then 0 else old(offset)
      ensures HandedOver(old(chunk), old(rest), |data|)
    {
      Interfere();
      if |data| + offset > p.staging {
        Flush(|data|);
        StageAndPost(data, 0);
      } else {
        StageAndPost(data, offset);
      }
    }

    /** The header write that lets the staging buffer wrap. */
    method Flush(k: nat)
      requires Valid() && pc == Work && k == FirstPart(p, Abs().w) && k + offset > p.staging
      requires !(p.size < sizeUsed + |chunk| && sizeUsed == p.size)
      modifies this`remote, this`future, this`log, this`pc
      ensures Valid() && old(log) <= log && remote.queue == [] && pc == WriterPc.Flush(k)
    {
      ghost var before := Abs();
      remote := PostHead(remote, segment);
      pc := WriterPc.Flush(k);
      Record(before, Write);
      Complete();
    }

    /** The copy into the staging buffer and the post; the call in progress has not moved on yet. */
    method PostBytes(data: seq<byte>, at: nat)
      requires at + |data| <= buffer.Length
      modifies this`remote, this`offset, this`sizeUsed, buffer
      ensures buffer[..] == old(buffer[..at]) + data + old(buffer[at + |data|..])
      ensures remote == old(remote.(queue := remote.queue + [Data(segment, sizeUsed, at, |data|)], filled := remote.filled + data))
      ensures offset == at + |data| && sizeUsed == old(sizeUsed) + |data|
    {
      CopyIn(at, data);
      remote := remote.(queue := remote.queue + [Data(segment, sizeUsed, at, |data|)], filled := remote.filled + data);
      offset := at + |data|;
      sizeUsed := sizeUsed + |data|;
    }

    /** The copy into the staging buffer and the unsignaled write. */
    method StageAndPost(data: seq<byte>, at: nat)
      requires Valid() && |data| <= |chunk| && data == chunk[..|data|] && at + |data| <= p.staging
      requires if pc == Work then !(p.size < sizeUsed + |chunk| && sizeUsed == p.size) && |data| == FirstPart(p, Abs().w) && at == offset
               else pc == WriterPc.Flush(|data|) && remote.queue == [] && at == 0
      modifies this, buffer
      ensures Valid() && old(log) <= log && appended == old(appended)
      ensures sizeUsed == old(sizeUsed) + |data| && offset == at + |data|
      ensures HandedOver(old(chunk), old(rest), |data|)
    {
      ghost var before := Abs();
      StagingIsTheStep(p, before, at, |data|);
      ghost var after := BwProtocol.StageAndPost(p, before, at, |data|);
      PostBytes(data, at);
      GoOn(|data|);
      assert Abs().w == after.w && Abs().r == after.r;
      Record(before, Write);
    }

    /** The call in progress has handed over k more bytes. */
    ghost method GoOn(k: nat)
      requires k <= |chunk|
      modifies this`chunk, this`rest, this`pc
      ensures Abs().w == HandOn(p, old(Abs().w).(chunk := old(chunk)[k..]))
      ensures HandedOver(old(chunk), old(rest), k)
    {
      chunk := chunk[k..];
      if chunk != [] {
        pc := Work;
      } else if rest == [] {
        pc := Idle;
      } else {
        pc, chunk, rest := Work, FirstPiece(p, rest), LaterPieces(p, rest);
      }
    }

    /** Posts the header that publishes the full segment. */
    method PostPublishing(next: nat)
      requires Valid() && pc == Work && chunk != [] && sizeUsed == p.size && next == header.next
      modifies this`remote, this`log, this`pc, this`header
      ensures Valid() && old(log) <= log && pc == WriterPc.Publish(next)
    {
      ghost var before := Abs();
      header := header.SetConsumable(true).SetWriteable(false).(counter := sizeUsed);
      remote := PostHead(remote, segment);
      pc := WriterPc.Publish(next);
      Record(before, Write);
    }

    /** The publishing header write, with the next segment's position read from the header before. */
    method Publish() returns (next: nat)
      requires Valid() && pc == Work && chunk != [] && sizeUsed == p.size
      modifies this`remote, this`future, this`log, this`pc, this`header
      ensures Valid() && old(log) <= log && pc == Poll(next)
      ensures next == old(header).next && remote.queue == []
    {
      Interfere();
      next := header.next;
      PostPublishing(next);
      Complete();
      StartPolling(next);
    }

    /** The wait for the publishing header is over. */
    ghost method StartPolling(next: nat)
      requires Valid() && pc == WriterPc.Publish(next) && remote.queue == []
      modifies this`log, this`pc
      ensures Valid() && old(log) <= log && pc == Poll(next)
    {
      ghost var before := Abs();
      pc := Poll(next);
      Record(before, Write);
    }

    /** One read of the next header. */
    method ReadHeader(next: nat) returns (ok: bool)
      requires Valid() && pc == Poll(next)
      modifies this`header, this`segment, this`sizeUsed, this`pc, this`log
      ensures Valid() && old(log) <= log
      ensures next < |remote.mem| && header == remote.mem[next].h && ok == header.writeable
      ensures if ok then pc == Work && sizeUsed == 0 && segment == next else pc == Poll(next)
    {
      ghost var before := Abs();
      header := remote.mem[next].h;
      ok := header.writeable;
      if ok {
        segment, sizeUsed, pc := next, 0, Work;
      }
      Record(before, Write);
    }

    /** The segment is not the writer's. */
    ghost predicate NotGivenBack(next: nat)
      reads this
    {
      next < |remote.mem| && !remote.mem[next].h.writeable
    }

    /** Nobody will move any more, and the segment polled is not the writer's. */
    ghost predicate LeftPolling()
      reads this
    {
      pc.Poll? && NotGivenBack(pc.next) && future == []
    }

    /** Publishes the full segment and polls its successor until it is writeable. */
    method GetNextSegment() returns (ok: bool)
      requires Valid() && pc == Work && chunk != [] && sizeUsed == p.size
      modifies this`remote, this`future, this`log, this`pc, this`header, this`segment, this`sizeUsed
      ensures Valid() && old(log) <= log
      ensures ok ==> pc == Work && sizeUsed == 0 && segment == old(header).next
      ensures !ok ==> LeftPolling()
    {
      var next := Publish();
      ok := AwaitSegment(next);
    }

    /** Polls until it is. */
    method AwaitSegment(next: nat) returns (ok: bool)
      requires Valid() && pc == Poll(next)
      modifies this`remote, this`future, this`log, this`pc, this`header, this`segment, this`sizeUsed
      ensures Valid() && old(log) <= log
      ensures ok ==> pc == Work && sizeUsed == 0 && segment == next
      ensures !ok ==> LeftPolling()
    {
      ok := ReadHeader(next);
      while !ok && future != []
        invariant Valid() && old(log) <= log
        invariant if ok then pc == Work && sizeUsed == 0 && segment == next else pc == Poll(next) && NotGivenBack(next)
        decreases |future|
      {
        ok := PollOnce(next);
      }
    }

    /** The others move, and the header is read again. */
    method PollOnce(next: nat) returns (ok: bool)
      requires Valid() && pc == Poll(next) && future != []
      modifies this`remote, this`future, this`log, this`pc, this`header, this`segment, this`sizeUsed
      ensures Valid() && old(log) <= log && future == old(future)[1..]
      ensures if ok then pc == Work && sizeUsed == 0 && segment == next else pc == Poll(next) && NotGivenBack(next)
    {
      Interfere();
      ok := ReadHeader(next);
    }

    /** Writes the piece, split over as many segments as it takes. */
    method SuperAppend(data: seq<byte>) returns (ok: bool)
      requires Valid() && pc == Work && data == chunk
      modifies this, buffer
      ensures Valid() && old(log) <= log && appended == old(appended)
      ensures ok ==> HandedOver(old(chunk), old(rest), |data|)
      ensures !ok ==> LeftPolling()
      decreases |data|, if sizeUsed == p.size then 1 else 0
    {
      if p.size < sizeUsed + |data| {
        var first := p.size - sizeUsed;
        if first > 0 {
          WriteToSegment(data[..first]);
        }
        ok := GetNextSegment();
        if !ok {
          return;
        }
        ok := SuperAppend(data[first..]);
      } else {
        assert data == chunk[..|data|];
        WriteToSegment(data);
        ok := true;
      }
    }

    /** The call to append is recorded. */
    ghost method Begin(data: seq<byte>)
      requires Valid() && pc == Idle
      modifies this`pc, this`chunk, this`rest, this`appended, this`log
      ensures Valid() && old(log) <= log && appended == old(appended) + data
      ensures pc == Work && chunk == FirstPiece(p, data) && rest == LaterPieces(p, data)
    {
      ghost var before := Abs();
      pc, chunk, rest := Work, FirstPiece(p, data), LaterPieces(p, data);
      appended := appended + data;
      Record(before, Step.Append(data));
    }

    /** Appends data to the stream, a staging buffer's worth at a time. All of it has been handed to the network, unless the
        writer is left spinning; then every segment of the ring is published and not released. */
    method Append(data: seq<byte>) returns (ok: bool)
      requires Valid() && pc == Idle
      modifies this, buffer
      ensures Valid() && old(log) <= log && appended == old(appended) + data
      ensures ok ==> pc == Idle && appended == Flatten(remote.published) + remote.filled
      ensures !ok ==> LeftPolling() && (p.n > 1 ==> |remote.published| == Released(remote) + p.n)
    {
      Begin(data);
      var left := data;
      while |left| > p.staging
        invariant Valid() && old(log) <= log && appended == old(appended) + data
        invariant pc == Work && chunk == FirstPiece(p, left) && rest == LaterPieces(p, left)
        decreases |left|
      {
        ok := SuperAppend(left[..p.staging]);
        if !ok {
          PollingMeansFull(p, log);
          return;
        }
        left := left[p.staging..];
      }
      ok := SuperAppend(left);
      if ok {
        NothingIsPending(p, log);
      } else {
        PollingMeansFull(p, log);
      }
    }

    /** Posts the header with the end mark. */
    method PostEnd()
      requires Valid() && pc == Idle
      modifies this`remote, this`log, this`pc, this`header
      ensures Valid() && old(log) <= log && pc == Closing
    {
      ghost var before := Abs();
      header := header.(counter := sizeUsed).SetWriteable(false).SetConsumable(true).MarkEnd();
      remote := PostHead(remote, segment);
      pc := Closing;
      Record(before, Step.Close);
    }

    /** The wait for it is over. */
    method Finish()
      requires Valid() && pc == Closing && remote.queue == []
      modifies this`log, this`pc
      ensures Valid() && old(log) <= log && pc == Closed
      ensures remote.published == Cut(p.size, appended)
    {
      ghost var before := Abs();
      pc := Closed;
      Record(before, Write);
      PublishedIsCut(p, log);
    }

    /** Publishes the last segment with the end mark. The published segments are then the appended stream, cut at the
        segment size. */
    method Close()
      requires Valid() && pc == Idle
      modifies this
      ensures Valid() && old(log) <= log && appended == old(appended)
      ensures pc == Closed && remote.published == Cut(p.size, appended)
    {
      Interfere();
      PostEnd();
      Complete();
      Finish();
    }
  }
}
