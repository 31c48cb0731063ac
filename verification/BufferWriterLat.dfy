/**
 BufferWriterLat, method by method, as an implementation of the protocol in LatProtocol.

 As in BufferWriterBW: `remote` stands for the memory, the network and the consumer, `future` says which steps they
 take while the writer is inside each of its RDMA calls, and the spin for credit gives up when `future` is used up.
 */
module BufferWriterLat {
  import opened Util
  import opened SegmentHeader
  import opened LatProtocol
  import opened LatProgress
  import opened LatWriterSide

  /** A step of somebody else. */
  datatype Other = Network | Consumer

  function AsStep(other: Other): (step: Step) {
    if other == Network then Land else Consume
  }

  function AsSteps(others: seq<Other>): (steps: seq<Step>) {
    seq(|others|, i requires 0 <= i < |others| => AsStep(others[i]))
  }

  lemma OneMoreStep(others: seq<Other>, i: nat)
    requires i < |others|
    ensures AsSteps(others[..i + 1]) == AsSteps(others[..i]) + [AsStep(others[i])]
  {
  }

  class BufferWriter {
    const p: Params

    var currentSegment: nat         // currentSegmentOffset, as a position in the ring
    var segmentIndex: nat
    var lastSegment: Option<nat>    // lastSegmentOffset; None before the first append
    var header: Header              // m_segmentHeader
    var consumedCnt: nat
    var writeableFreeSegments: nat

    var remote: Remote
    var future: seq<seq<Other>>

    // Where the call in progress is, and the history.
    ghost var pc: WriterPc
    ghost var messages: seq<seq<byte>>
    ghost var log: seq<Step>

    ghost function Abs(): (s: State)
      reads this
    {
      State(Writer(currentSegment, segmentIndex, lastSegment, header, consumedCnt, writeableFreeSegments, pc), remote, messages)
    }

    ghost predicate Valid()
      reads this
    {
      && p.Valid()
      && Abs() == After(p, log)
    }

    constructor (p: Params, future: seq<seq<Other>>)
      requires p.Valid()
      ensures Valid() && Abs() == Init(p) && log == []
      ensures consumedCnt == writeableFreeSegments == remote.credit == p.n
      ensures this.p == p && this.future == future
    {
      this.p := p;
      this.future := future;
      var start := Init(p);
      currentSegment, segmentIndex, lastSegment, header := 0, 0, None, start.w.hdr;
      consumedCnt, writeableFreeSegments := start.r.credit, start.r.credit;
      remote := start.r;
      pc, messages, log := Idle, [], [];
    }

    /** The fields have just taken the given step of the protocol. */
    ghost method Record(before: State, step: Step)
      requires p.Valid() && before == After(p, log) && Abs() == Apply(p, before, step)
      modifies this`log
      ensures Valid() && log == old(log) + [step]
    {
      RunSnoc(p, Init(p), log, step);
      log := log + [step];
    }

    /** The network and the consumer take the steps the future holds for this moment. */
    method Interfere()
      requires Valid()
      modifies this`remote, this`future, this`log
      ensures Valid()
      ensures if old(future) == [] then future == [] && log == old(log) && remote == old(remote)
              else future == old(future)[1..] && log == old(log) + AsSteps(old(future)[0])
    {
      if future == [] {
        return;
      }
      var others := future[0];
      future := future[1..];
      MoveAll(others);
    }

    method MoveAll(others: seq<Other>)
      requires Valid()
      modifies this`remote, this`log
      ensures Valid() && log == old(log) + AsSteps(others)
    {
      for i := 0 to |others|
        invariant Valid() && log == old(log) + AsSteps(others[..i])
      {
        OneMoreStep(others, i);
        Move(others[i]);
      }
      assert others[..|others|] == others;
    }

    /** One step of somebody else. */
    method Move(other: Other)
      requires Valid()
      modifies this`remote, this`log
      ensures Valid() && log == old(log) + [AsStep(other)]
    {
      ghost var before := Abs();
      remote := if other == Network then LandStep(p, remote) else ConsumeStep(p, remote);
      Record(before, AsStep(other));
    }

    /** A signaled request completes once everything posted before it has landed. */
    method Complete()
      requires Valid()
      modifies this`remote, this`future, this`log
      ensures Valid() && old(log) <= log && remote.queue == []
      ensures future == if old(future) == [] then [] else old(future)[1..]
    {
      Interfere();
      while remote.queue != []
        invariant Valid() && old(log) <= log
        invariant future == if old(future) == [] then [] else old(future)[1..]
        decreases |remote.queue|
      {
        ghost var before := Abs();
        remote := LandStep(p, remote);
        Record(before, Land);
      }
    }

    /** One read of the counter. */
    method ReadCounter() returns (ok: bool)
      requires Valid() && pc.Sending? && writeableFreeSegments == 0
      modifies this`remote, this`future, this`log, this`consumedCnt, this`writeableFreeSegments
      ensures Valid() && old(log) <= log
      ensures remote.credit == consumedCnt && (ok <==> consumedCnt != old(consumedCnt))
      ensures ok <==> writeableFreeSegments > 0
      ensures future == if old(future) == [] then [] else old(future)[1..]
    {
      Complete();
      CreditsOfWriter(p, log);
      ghost var before := Abs();
      ok := remote.credit != consumedCnt;
      writeableFreeSegments := writeableFreeSegments + (remote.credit - consumedCnt);
      consumedCnt := remote.credit;
      Record(before, Write);
    }

    /** Reads the counter until it differs from the value known. */
    method AwaitCredit() returns (ok: bool)
      requires Valid() && pc.Sending? && writeableFreeSegments == 0
      modifies this`remote, this`future, this`log, this`consumedCnt, this`writeableFreeSegments
      ensures Valid() && old(log) <= log
      ensures remote.credit == consumedCnt && (ok <==> writeableFreeSegments > 0)
      ensures !ok ==> future == []
    {
      ok := ReadCounter();
      while !ok && future != []
        invariant Valid() && old(log) <= log
        invariant remote.credit == consumedCnt && (ok <==> writeableFreeSegments > 0)
        decreases |future|
      {
        ok := ReadCounter();
      }
    }

    /** The successor computation and writeToSegment. Its contract is the protocol's Send, from any in-bounds state. */
    method Send(data: seq<byte>)
      requires InBounds(p, Abs()) && |data| <= p.size && writeableFreeSegments > 0
      modifies this`currentSegment, this`segmentIndex, this`lastSegment, this`header, this`writeableFreeSegments, this`remote, this`pc
      ensures Abs() == LatProtocol.Send(p, old(Abs()), data)
    {
      var nextSegment;
      if segmentIndex == p.n - 1 {
        nextSegment, segmentIndex := 0, 0;
      } else {
        nextSegment, segmentIndex := currentSegment + 1, segmentIndex + 1;
      }
      header := header.(counter := |data|, next := nextSegment).SetConsumable(true);
      remote := remote.(queue := remote.queue + [Message(currentSegment, header, data)]);
      pc := if writeableFreeSegments == 1 then Wait else Idle;
      writeableFreeSegments := writeableFreeSegments - 1;
      lastSegment := Some(currentSegment);
      currentSegment := nextSegment;
    }

    /** Waits for the signaled message that was posted last. */
    method AwaitMessage()
      requires Valid() && pc in {Idle, Wait}
      modifies this`remote, this`future, this`log, this`pc
      ensures Valid() && old(log) <= log && pc == Idle && remote.landed == |messages|
    {
      Complete();
      if pc == Wait {
        ghost var before := Abs();
        pc := Idle;
        Record(before, Write);
      }
      CreditsOfWriter(p, log);
    }

    /** Sends with a credit in hand, waiting if it was the last one or the caller asked for it. */
    method SendMessage(data: seq<byte>, signaled: bool)
      requires Valid() && pc == Sending(data) && writeableFreeSegments > 0
      modifies this
      ensures Valid() && old(log) <= log && messages == old(messages) && pc == Idle
      ensures writeableFreeSegments == old(writeableFreeSegments) - 1 && consumedCnt == old(consumedCnt)
      ensures remote.landed == |messages| <==> signaled || writeableFreeSegments == 0
    {
      Interfere();
      var wait := writeableFreeSegments == 1 || signaled;
      PostMessage(data);
      if wait {
        AwaitMessage();
      }
    }

    /** The message is posted, and in flight. */
    method PostMessage(data: seq<byte>)
      requires Valid() && pc == Sending(data) && writeableFreeSegments > 0
      modifies this`currentSegment, this`segmentIndex, this`lastSegment, this`header, this`writeableFreeSegments, this`remote, this`pc, this`log
      ensures Valid() && old(log) <= log && remote.landed < |messages|
      ensures writeableFreeSegments == old(writeableFreeSegments) - 1
      ensures pc == if writeableFreeSegments == 0 then Wait else Idle
    {
      MessageIsPending(p, log);
      ghost var before := Abs();
      Send(data);
      Record(before, Write);
    }

    /** Appends one message. It is handed to the network, and the credits left are exactly those known and not spent; it has
        landed on return exactly if it spent the last credit or the caller asked for a signal. The writer is left spinning only
        when every credit ever given has been spent on an earlier message. The counter is not read while there is credit. */
    method Append(data: seq<byte>, signaled: bool) returns (ok: bool)
      requires Valid() && pc == Idle && |data| <= p.size
      modifies this
      ensures Valid() && old(log) <= log && messages == old(messages) + [data]
      ensures ok ==> pc == Idle && writeableFreeSegments == consumedCnt - |messages|
      ensures ok ==> (remote.landed == |messages| <==> signaled || writeableFreeSegments == 0)
      ensures !ok ==> future == [] && pc == Sending(data) && writeableFreeSegments == 0 && remote.credit == |messages| - 1
      ensures old(writeableFreeSegments) > 0 ==> ok && consumedCnt == old(consumedCnt)
    {
      ghost var before := Abs();
      messages := messages + [data];
      pc := Sending(data);
      Record(before, Step.Append(data));
      if writeableFreeSegments == 0 {
        ok := AwaitCredit();
        if !ok {
          CreditsOfWriter(p, log);
          return;
        }
      }
      SendMessage(data, signaled);
      ok := true;
      CreditsOfWriter(p, log);
    }

    /** Stamps the end mark on the last message's segment; every message has landed when it returns. */
    method Close()
      requires Valid() && pc == Idle && lastSegment.Some?
      modifies this`remote, this`future, this`log, this`pc, this`header
      ensures Valid() && old(log) <= log
      ensures pc == Closed && remote.landed == |messages|
    {
      Interfere();
      PostStamp();
      Complete();
      Finish();
    }

    /** Posts the end stamp. */
    method PostStamp()
      requires Valid() && pc == Idle && lastSegment.Some?
      modifies this`remote, this`log, this`pc, this`header
      ensures Valid() && old(log) <= log && pc == Closing
    {
      ghost var before := Abs();
      header := header.(counter := p.size).SetWriteable(false).SetConsumable(true).MarkEnd();
      remote := remote.(queue := remote.queue + [Stamp(lastSegment.value, header)]);
      pc := Closing;
      Record(before, Step.Close);
    }

    /** The wait for it is over. */
    method Finish()
      requires Valid() && pc == Closing && remote.queue == []
      modifies this`log, this`pc
      ensures Valid() && old(log) <= log && pc == Closed && remote.landed == |messages|
    {
      ghost var before := Abs();
      pc := Closed;
      Record(before, Write);
      CreditsOfWriter(p, log);
    }
  }
}
