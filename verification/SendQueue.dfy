/**
 The send queue of one connection: checkSignaled, which forces a signal every RDMA_MAX_WR posts, and remoteAccess, which
 waits for the completion of every signaled post.

 Work requests are executed in order. Only a signaled one puts an entry into the completion queue, and only polling that
 entry gives the queue slots of it and of everything posted before it back. Both facts the ring protocols build on are
 proved here: the queue never overflows, and a call that waited returns with nothing in flight.
 */
module SendQueue {
  import opened Util

  /** Between calls (Idle), or in the poll loop of a signaled call (Waiting). */
  datatype Pc = Idle | Waiting

  /** m_countWR; the work requests not executed yet, true if signaled; completion entries not polled; queue slots in use. */
  datatype Connection = Connection(count: nat, queue: seq<bool>, completions: nat, slots: nat, pc: Pc)

  datatype Step = Post(signaled: bool) | Execute | Poll

  const INIT := Connection(0, [], 0, 0, Idle)

  /** checkSignaled's new counter value, and whether it forces a signal. */
  function Counted(max: nat, count: nat): (count': nat) {
    if count + 1 == max then 0 else count + 1
  }

  predicate Forced(max: nat, count: nat) {
    count + 1 == max
  }

  /** The counter after k posts. */
  function CountAfter(max: nat, k: nat): (count: nat) {
    if k == 0 then 0 else Counted(max, CountAfter(max, k - 1))
  }

  /** It is the number of posts modulo RDMA_MAX_WR. */
  lemma {:induction false} CountIsRemainder(max: nat, k: nat)
    requires max > 0
    ensures CountAfter(max, k) == Slot(max, k)
  {
    if k > 0 {
      CountIsRemainder(max, k - 1);
      SlotNext(max, k - 1);
    }
  }

  /** A signal is forced on every RDMA_MAX_WR-th post and on no other, whatever signals the callers ask for. */
  lemma ForcedEveryMax(max: nat, k: nat)
    requires max > 0
    ensures Forced(max, CountAfter(max, k)) <==> Slot(max, k + 1) == 0
  {
    CountIsRemainder(max, k);
    SlotNext(max, k);
  }

  function Apply(max: nat, c: Connection, step: Step): (c': Connection) {
    match step
    case Post(signaled) =>
      if c.pc == Waiting then c
      else
        var signal := signaled || Forced(max, c.count);
        Connection(Counted(max, c.count), c.queue + [signal], c.completions, c.slots + 1, if signal then Waiting else Idle)
    case Execute =>
      if c.queue == [] then c
      else c.(queue := c.queue[1..], completions := c.completions + if c.queue[0] then 1 else 0)
    case Poll =>
      if c.pc == Waiting && c.completions > 0 then c.(completions := c.completions - 1, slots := |c.queue|, pc := Idle) else c
  }

  function Run(max: nat, schedule: seq<Step>): (c: Connection) {
    if schedule == [] then INIT else Apply(max, Run(max, schedule[..|schedule| - 1]), schedule[|schedule| - 1])
  }

  /** A signaled request is the last one posted and is being waited for; the slots in use never outnumber the posts counted. */
  ghost predicate Inv(max: nat, c: Connection) {
    && c.count < max
    && |c.queue| <= c.slots
    && (forall j :: 0 <= j < |c.queue| - 1 ==> !c.queue[j])
    && match c.pc
       case Idle => c.completions == 0 && (c.queue != [] ==> !c.queue[|c.queue| - 1]) && c.slots <= c.count
       case Waiting =>
         && c.slots <= max
         && if c.queue == [] then c.completions == 1 else c.completions == 0 && c.queue[|c.queue| - 1]
  }

  lemma StepInv(max: nat, c: Connection, step: Step)
    requires 0 < max && Inv(max, c)
    ensures Inv(max, Apply(max, c, step))
  {
  }

  lemma {:induction false} RunInv(max: nat, schedule: seq<Step>)
    requires 0 < max
    ensures Inv(max, Run(max, schedule))
  {
    if schedule != [] {
      RunInv(max, schedule[..|schedule| - 1]);
      StepInv(max, Run(max, schedule[..|schedule| - 1]), schedule[|schedule| - 1]);
    }
  }

  lemma RunSnoc(max: nat, schedule: seq<Step>, step: Step)
    ensures Run(max, schedule + [step]) == Apply(max, Run(max, schedule), step)
  {
    assert (schedule + [step])[..|schedule|] == schedule;
  }

  /** In every run, whatever signals the callers ask for, at most RDMA_MAX_WR work requests are uncompleted, and at most that
      many queue slots are in use. */
  lemma SendQueueBound(max: nat, schedule: seq<Step>)
    requires 0 < max
    ensures var c := Run(max, schedule); |c.queue| <= c.slots <= max
  {
    RunInv(max, schedule);
  }

  /** A call that waited returns with nothing in flight, and the completion it polled was its own. */
  lemma WaitMeansDone(max: nat, schedule: seq<Step>)
    requires 0 < max && Run(max, schedule).pc == Waiting
    ensures Run(max, schedule + [Poll]).pc == Idle ==>
              var c := Run(max, schedule + [Poll]); c.queue == [] && c.completions == 0 && c.slots == 0
  {
    RunInv(max, schedule);
    RunSnoc(max, schedule, Poll);
  }

  function Unsignaled(k: nat): (r: seq<Step>) {
    seq(k, _ => Post(false))
  }

  lemma {:induction false} PostsPileUp(max: nat, k: nat)
    requires k < max
    ensures Run(max, Unsignaled(k)) == Connection(k, seq(k, _ => false), 0, k, Idle)
  {
    if k > 0 {
      PostsPileUp(max, k - 1);
      assert Unsignaled(k)[..k - 1] == Unsignaled(k - 1);
      assert seq(k, _ => false) == seq(k - 1, _ => false) + [false];
    }
  }

  /** The bound is reached: a queue one slot smaller would overflow. */
  lemma BoundIsTight(max: nat)
    requires 0 < max
    ensures Run(max, Unsignaled(max)).slots == max
  {
    PostsPileUp(max, max - 1);
    assert Unsignaled(max)[..max - 1] == Unsignaled(max - 1);
  }

  // ---------------------------------------------------------------- the client

  class RDMAClient {
    const max: nat         // RDMA_MAX_WR
    var countWR: nat       // m_countWR
    var queue: seq<bool>
    var completions: nat

    var future: seq<nat>   // how many requests the network executes during each poll

    ghost var pc: Pc
    ghost var slots: nat
    ghost var log: seq<Step>

    ghost function Abs(): (c: Connection)
      reads this
    {
      Connection(countWR, queue, completions, slots, pc)
    }

    ghost predicate Valid()
      reads this
    {
      0 < max && Abs() == Run(max, log)
    }

    constructor (max: nat, future: seq<nat>)
      requires 0 < max
      ensures Valid() && pc == Idle && queue == [] && this.max == max
    {
      this.max := max;
      this.future := future;
      countWR, queue, completions := 0, [], 0;
      pc, slots, log := Idle, 0, [];
    }

    ghost method Record(before: Connection, step: Step)
      requires 0 < max && before == Run(max, log) && Abs() == Apply(max, before, step)
      modifies this`log
      ensures Valid() && log == old(log) + [step]
    {
      RunSnoc(max, log, step);
      log := log + [step];
    }

    method CheckSignaled(signaled: bool) returns (signal: bool)
      modifies this`countWR
      ensures signal == (signaled || Forced(max, old(countWR)))
      ensures countWR == Counted(max, old(countWR))
    {
      signal := signaled;
      countWR := countWR + 1;
      if countWR == max {
        signal := true;
        countWR := 0;
      }
    }

    method ExecuteOne()
      requires Valid() && queue != []
      modifies this`queue, this`completions, this`log
      ensures Valid() && old(log) <= log
      ensures queue == old(queue)[1..]
    {
      ghost var before := Abs();
      completions := completions + if queue[0] then 1 else 0;
      queue := queue[1..];
      Record(before, Execute);
    }

    /** One ibv_poll_cq for one entry; meanwhile the network executes at least one request. */
    method PollCompletion() returns (polled: nat)
      requires Valid() && pc == Waiting
      modifies this`queue, this`completions, this`future, this`pc, this`slots, this`log
      ensures Valid() && old(log) <= log && polled <= 1
      ensures polled == 1 ==> pc == Idle && queue == [] && slots == 0
      ensures polled == 0 ==> pc == Waiting && |queue| < old(|queue|)
    {
      RunInv(max, log);
      if queue != [] {
        ExecuteOne();
      }
      if future != [] {
        for i := 0 to future[0]
          invariant Valid() && old(log) <= log && pc == Waiting
          invariant future == old(future) && (|queue| < old(|queue|) || queue == [])
        {
          if queue != [] {
            ExecuteOne();
          }
        }
        future := future[1..];
      }
      RunInv(max, log);
      polled := 0;
      if completions > 0 {
        WaitMeansDone(max, log);
        ghost var before := Abs();
        completions := completions - 1;
        pc, slots := Idle, |queue|;
        polled := 1;
        Record(before, Poll);
      }
    }

    /** write and read: post, and wait for the completion if the post is signaled. If the caller asked for the signal, or the counter
        forced it, everything posted so far has been executed when the call returns; otherwise the request is added to those in
        flight and nothing is waited for. The queue had room at every moment. */
    method RemoteAccess(signaled: bool)
      requires Valid() && pc == Idle
      modifies this
      ensures Valid() && old(log) <= log && pc == Idle
      ensures countWR == Counted(max, old(countWR))
      ensures if signaled || Forced(max, old(countWR)) then queue == [] && slots == 0
              else queue == old(queue) + [false] && slots == old(slots) + 1 && completions == old(completions)
      ensures slots < max
    {
      ghost var before := Abs();
      RunInv(max, log);
      var signal := CheckSignaled(signaled);
      queue := queue + [signal];
      slots := slots + 1;
      pc := if signal then Waiting else Idle;
      Record(before, Post(signaled));
      if signal {
        var polled: nat := 0;
        while polled == 0
          invariant Valid() && old(log) <= log && polled <= 1 && countWR == Counted(max, old(countWR))
          invariant if polled == 1 then pc == Idle && queue == [] && slots == 0 else pc == Waiting
          decreases if polled == 1 then 0 else 1 + |queue|
        {
          polled := PollCompletion();
        }
      }
      RunInv(max, log);
    }
  }
}
