/**
 What every run of the latency-optimised ring protocol keeps.

 Messages are numbered from 0, message i lives in slot i mod n. With P sent, L landed, T taken and R released,
 R <= T <= L <= P <= known counter <= remote counter = n + R. Messages R..L are in the consumer's hands.
 */
module LatInvariant {
  import opened Util
  import opened SegmentHeader
  import opened LatProtocol

  /** Messages sent: all but the one append has still to send. */
  function Sent(s: State): (k: nat) {
    if s.w.pc.Sending? && |s.messages| > 0 then |s.messages| - 1 else |s.messages|
  }

  /** Credits returned so far. */
  function Released(p: Params, r: Remote): (k: int) {
    r.credit - p.n
  }

  /** The end stamp has landed. */
  predicate Stamped(s: State) {
    s.w.pc == Closed || (s.w.pc == Closing && s.r.queue == [])
  }

  /** The header message i is sent with. */
  function MessageHeader(p: Params, message: seq<byte>, i: nat): (h: Header)
    requires p.n > 0
  {
    Header(|message|, Slot(p.n, i + 1), true, true, false)
  }

  function StampHeader(p: Params, i: nat): (h: Header)
    requires p.n > 0
  {
    Header(p.size, Slot(p.n, i + 1), false, true, true)
  }

  /** The header of a landed message, as far as the consumer's release of it has come. */
  function HeldHeader(p: Params, s: State, i: nat): (h: Header)
    requires p.n > 0 && i < |s.messages|
  {
    var h := if Stamped(s) && i == |s.messages| - 1 then StampHeader(p, i) else MessageHeader(p, s.messages[i], i);
    if i != Released(p, s.r) then h
    else if s.r.cpc == ClearConsumable then h.(counter := 0)
    else if s.r.cpc in {SetWriteable, ReturnCredit} then h.(counter := 0, consumable := false)
    else h
  }

  ghost predicate Held(p: Params, s: State, i: nat)
    requires p.n > 0 && |s.r.mem| == p.n
  {
    && i < |s.messages|
    && s.r.mem[Slot(p.n, i)].h == HeldHeader(p, s, i)
    && s.messages[i] <= s.r.mem[Slot(p.n, i)].data
  }

  ghost predicate Free(p: Params, r: Remote, i: nat)
    requires p.n > 0 && |r.mem| == p.n
  {
    r.mem[Slot(p.n, i)].h == FreeHeader(Slot(p.n, i + 1))
  }

  ghost predicate Window(p: Params, s: State)
    requires p.n > 0 && |s.r.mem| == p.n
  {
    var (L, R) := (s.r.landed, Released(p, s.r));
    && 0 <= R <= |s.r.delivered| <= L <= Sent(s) <= s.w.known <= s.r.credit
    && (forall i: nat {:trigger Held(p, s, i)} :: R <= i < L ==> Held(p, s, i))
    && (forall i: nat {:trigger Free(p, s.r, i)} :: L <= i < R + p.n ==> Free(p, s.r, i))
  }

  /** What next() returned for message i: the message, except that a last message that was stamped before it was taken
      is returned at full segment size. */
  ghost predicate Returned(p: Params, s: State, i: nat)
    requires i < |s.r.delivered|
  {
    && i < |s.messages|
    && s.messages[i] <= s.r.delivered[i]
    && (|s.r.delivered[i]| == |s.messages[i]| ||
        (Stamped(s) && i == |s.messages| - 1 && |s.r.delivered[i]| == p.size))
  }

  ghost predicate ConsumerInv(p: Params, s: State)
    requires p.n > 0 && |s.r.mem| == p.n
  {
    var T := |s.r.delivered|;
    && T <= s.r.landed
    && Released(p, s.r) == (if s.r.cpc == Taking || T == 0 then T else T - 1)
    && s.r.iter == Slot(p.n, T)
    && s.r.prev == (if T == 0 then None else Some(Slot(p.n, T - 1)))
    && (forall i :: 0 <= i < T ==> Returned(p, s, i))
    && (s.r.cpc !in {Scanning, Retired} ==> T < s.r.landed)
    && (s.r.cpc in {ClearConsumable, SetWriteable, ReturnCredit} ==> T > 0)
    && (s.r.cpc == Retired ==> Stamped(s) && T == s.r.landed)
    && (T > 0 && s.r.cpc != Taking ==> s.r.delivered[T - 1] <= s.r.mem[Slot(p.n, T - 1)].data)
  }

  /** The writes in flight are exactly the messages sent and not landed, in order, and then the end stamp if due. */
  ghost predicate InFlight(p: Params, s: State)
    requires p.n > 0 && s.r.landed <= Sent(s)
  {
    var (L, P) := (s.r.landed, Sent(s));
    && |s.r.queue| == P - L + (if s.w.pc == Closing && !Stamped(s) then 1 else 0)
    && (forall j :: 0 <= j < P - L ==> s.r.queue[j] == Message(Slot(p.n, L + j), MessageHeader(p, s.messages[L + j], L + j), s.messages[L + j]))
    && (s.w.pc == Closing && !Stamped(s) ==> P > 0 && s.r.queue[P - L] == Stamp(Slot(p.n, P - 1), StampHeader(p, P - 1)))
  }

  ghost predicate WriterInv(p: Params, s: State)
    requires p.n > 0
  {
    var (w, P) := (s.w, Sent(s));
    && w.cur == Slot(p.n, P)
    && w.last == (if P == 0 then None else Some(Slot(p.n, P - 1)))
    && P <= w.known && w.free == w.known - P
    && (w.pc.Sending? ==> |s.messages| > 0 && s.messages[P] == w.pc.data)
    && (w.pc in {Closing, Closed} ==> P > 0)
    && (Stamped(s) ==> s.r.landed == P)
    && (w.pc !in {Closing, Closed} ==> w.hdr.writeable && !w.hdr.end && (P > 0 ==> w.hdr.next == Slot(p.n, P)))
  }

  /** The iterator needs two segments; before anything has been taken, one is enough. */
  predicate Sound(p: Params, s: State) {
    p.n > 1 || s.r.delivered == []
  }

  ghost predicate Inv(p: Params, s: State) {
    && Sound(p, s)
    && InBounds(p, s)
    && (forall i :: 0 <= i < |s.messages| ==> |s.messages[i]| <= p.size)
    && Window(p, s)
    && ConsumerInv(p, s)
    && InFlight(p, s)
    && WriterInv(p, s)
  }

  // ---------------------------------------------------------------- slots and frames

  lemma InitInv(p: Params)
    requires p.Valid()
    ensures Inv(p, Init(p))
  {
    var s := Init(p);
    forall i: nat | i < p.n
      ensures Free(p, s.r, i)
    {
      SlotNext(p.n, i);
    }
  }

  /** A step that leaves memory, credits, the consumer and what has landed alone, and lands no stamp, keeps the consumer's side. */
  lemma ConsumerSideFrame(p: Params, s: State, s': State)
    requires p.n > 0 && |s.r.mem| == p.n && Window(p, s) && ConsumerInv(p, s)
    requires s'.r == s.r.(queue := s'.r.queue)
    requires s.messages <= s'.messages && Sent(s) <= Sent(s') <= s'.w.known <= s.r.credit
    requires Stamped(s') == Stamped(s) && (Stamped(s) ==> s'.messages == s.messages)
    ensures Window(p, s') && ConsumerInv(p, s')
  {
    forall i: nat | Released(p, s.r) <= i < s.r.landed
      ensures Held(p, s', i)
    {
      assert Held(p, s, i);
    }
    forall i: nat | s.r.landed <= i < Released(p, s.r) + p.n
      ensures Free(p, s'.r, i)
    {
      assert Free(p, s.r, i);
    }
    forall i | 0 <= i < |s.r.delivered|
      ensures Returned(p, s', i)
    {
      assert Returned(p, s, i);
    }
  }

  // ---------------------------------------------------------------- writer steps

  lemma AppendInv(p: Params, s: State, data: seq<byte>)
    requires Inv(p, s) && s.w.pc == Idle && |data| <= p.size
    ensures Inv(p, StartAppend(p, s, data))
  {
    var s' := StartAppend(p, s, data);
    assert forall i :: 0 <= i < |s.messages| ==> s'.messages[i] == s.messages[i];
    ConsumerSideFrame(p, s, s');
  }

  /** The message joins the end of the queue. */
  lemma SendInFlight(p: Params, s: State, s': State)
    requires p.n > 0 && s.r.landed <= Sent(s) && InFlight(p, s) && s.w.pc.Sending? && |s.messages| > 0
    requires s'.w.pc in {Idle, Wait} && s'.messages == s.messages && s'.r.landed == s.r.landed
    requires var P := Sent(s); s'.r.queue == s.r.queue + [Message(Slot(p.n, P), MessageHeader(p, s.messages[P], P), s.messages[P])]
    ensures InFlight(p, s')
  {
    var (L, P) := (s.r.landed, Sent(s));
    forall j | 0 <= j < P + 1 - L
      ensures s'.r.queue[j] == Message(Slot(p.n, L + j), MessageHeader(p, s'.messages[L + j], L + j), s'.messages[L + j])
    {
      if j < P - L {
        assert s'.r.queue[j] == s.r.queue[j];
      }
    }
  }

  lemma SendWriterSide(p: Params, s: State)
    requires Inv(p, s) && s.w.pc.Sending? && s.w.free > 0
    ensures WriterInv(p, Send(p, s, s.w.pc.data)) && InFlight(p, Send(p, s, s.w.pc.data))
  {
    var s' := Send(p, s, s.w.pc.data);
    SlotNext(p.n, Sent(s));
    assert InFlight(p, s') by { SendInFlight(p, s, s'); }
  }

  /** Message P is sent, with a credit in hand and so to a free segment. */
  lemma SendInv(p: Params, s: State)
    requires Inv(p, s) && s.w.pc.Sending? && s.w.free > 0
    ensures Inv(p, Send(p, s, s.w.pc.data))
  {
    SendWriterSide(p, s);
    ConsumerSideFrame(p, s, Send(p, s, s.w.pc.data));
  }

  lemma CloseInv(p: Params, s: State)
    requires Inv(p, s) && s.w.pc == Idle && s.w.last.Some?
    ensures Inv(p, StartClose(p, s))
  {
    var s' := StartClose(p, s);
    ConsumerSideFrame(p, s, s');
  }

  /** A poll of the counter, or the end of a wait. */
  lemma WaitStepInv(p: Params, s: State)
    requires Inv(p, s) && !(s.w.pc.Sending? && s.w.free > 0)
    ensures Inv(p, WriterStep(p, s))
  {
    var s' := WriterStep(p, s);
    assert s'.r == s.r && s'.messages == s.messages;
    assert Window(p, s') && ConsumerInv(p, s') by { ConsumerSideFrame(p, s, s'); }
  }

  lemma WriterStepInv(p: Params, s: State)
    requires Inv(p, s)
    ensures Inv(p, WriterStep(p, s))
  {
    if s.w.pc.Sending? && s.w.free > 0 {
      SendInv(p, s);
    } else {
      WaitStepInv(p, s);
    }
  }

  // ---------------------------------------------------------------- network steps

  /** Landing changes one segment, which is not the held one; what next() has returned stays returned. */
  lemma LandConsumerInv(p: Params, s: State, s': State, k: nat)
    requires p.n > 0 && |s.r.mem| == |s'.r.mem| == p.n && k < p.n && ConsumerInv(p, s)
    requires s'.messages == s.messages && (Stamped(s) ==> Stamped(s'))
    requires s.r.landed <= s'.r.landed && (Stamped(s) ==> s'.r.landed == s.r.landed)
    requires s'.r == s.r.(mem := s'.r.mem, queue := s'.r.queue, landed := s'.r.landed)
    requires forall i :: 0 <= i < p.n && i != k ==> s'.r.mem[i] == s.r.mem[i]
    requires |s.r.delivered| > 0 && k == Slot(p.n, |s.r.delivered| - 1) && s.r.cpc != Taking ==> s'.r.mem[k].data == s.r.mem[k].data
    ensures ConsumerInv(p, s')
  {
    forall i | 0 <= i < |s.r.delivered|
      ensures Returned(p, s', i)
    {
      assert Returned(p, s, i);
    }
  }

  lemma LandMessageWindow(p: Params, s: State, s': State, seg: Segment)
    requires p.n > 0 && |s.r.mem| == p.n && Window(p, s) && s.r.landed < Sent(s) && s.r.landed < Released(p, s.r) + p.n
    requires s.r.cpc in {ClearConsumable, SetWriteable, ReturnCredit} ==> Released(p, s.r) < s.r.landed
    requires !Stamped(s) && !Stamped(s') && s'.w == s.w && s'.messages == s.messages
    requires s'.r == s.r.(mem := s.r.mem[Slot(p.n, s.r.landed) := seg], queue := s'.r.queue, landed := s.r.landed + 1)
    requires seg.h == MessageHeader(p, s.messages[s.r.landed], s.r.landed) && s.messages[s.r.landed] <= seg.data
    ensures Window(p, s')
  {
    var (L, R) := (s.r.landed, Released(p, s.r));
    SlotsApart(p.n, R, L);
    forall i: nat | R <= i < L + 1
      ensures Held(p, s', i)
    {
      if i < L {
        assert Held(p, s, i);
      }
    }
    forall i: nat | L + 1 <= i < R + p.n
      ensures Free(p, s'.r, i)
    {
      assert Free(p, s.r, i);
    }
  }

  lemma LandMessageInFlight(p: Params, s: State, s': State)
    requires p.n > 0 && s.r.landed <= Sent(s) && InFlight(p, s) && s.r.queue != [] && s.r.queue[0].Message?
    requires s'.w == s.w && s'.messages == s.messages && s'.r.queue == s.r.queue[1..] && s'.r.landed == s.r.landed + 1
    requires Stamped(s) ==> s.r.landed == Sent(s)
    ensures s'.r.landed <= Sent(s') && InFlight(p, s') && (Stamped(s') ==> s'.r.landed == Sent(s'))
    ensures s.r.queue[0] == Message(Slot(p.n, s.r.landed), MessageHeader(p, s.messages[s.r.landed], s.r.landed), s.messages[s.r.landed])
  {
    var (L, P) := (s.r.landed, Sent(s));
    forall j | 0 <= j < P - (L + 1)
      ensures s'.r.queue[j] == Message(Slot(p.n, L + 1 + j), MessageHeader(p, s'.messages[L + 1 + j], L + 1 + j), s'.messages[L + 1 + j])
    {
      assert s'.r.queue[j] == s.r.queue[j + 1];
    }
  }

  /** What the landing message is, and where it lands. */
  lemma LandMessageEffect(p: Params, s: State) returns (seg: Segment)
    requires Inv(p, s) && s.r.queue != [] && s.r.queue[0].Message?
    ensures seg.h == MessageHeader(p, s.messages[s.r.landed], s.r.landed) && s.r.landed < Sent(s) && s.messages[s.r.landed] <= seg.data
    ensures Apply(p, s, Land).r ==
            s.r.(mem := s.r.mem[Slot(p.n, s.r.landed) := seg], queue := s.r.queue[1..], landed := s.r.landed + 1)
    ensures !Stamped(s) && !Stamped(Apply(p, s, Land)) && InFlight(p, Apply(p, s, Land))
  {
    var L := s.r.landed;
    LandMessageInFlight(p, s, Apply(p, s, Land));
    var data := s.messages[L];
    seg := Segment(MessageHeader(p, s.messages[L], L), data + s.r.mem[Slot(p.n, L)].data[|data|..]);
  }

  lemma LandMessageInv(p: Params, s: State)
    requires Inv(p, s) && s.r.queue != [] && s.r.queue[0].Message?
    ensures Inv(p, Apply(p, s, Land))
  {
    var s' := Apply(p, s, Land);
    var seg := LandMessageEffect(p, s);
    assert Window(p, s') by { LandMessageWindow(p, s, s', seg); }
    assert ConsumerInv(p, s') by { LandMessageConsumer(p, s, s', seg); }
  }

  lemma LandMessageConsumer(p: Params, s: State, s': State, seg: Segment)
    requires p.n > 0 && |s.r.mem| == p.n && Sound(p, s) && Window(p, s) && ConsumerInv(p, s)
    requires s.r.landed < Released(p, s.r) + p.n && s'.messages == s.messages && !Stamped(s) && !Stamped(s')
    requires s'.r == s.r.(mem := s.r.mem[Slot(p.n, s.r.landed) := seg], queue := s'.r.queue, landed := s.r.landed + 1)
    ensures ConsumerInv(p, s')
  {
    SlotsApart(p.n, Released(p, s.r), s.r.landed);
    LandConsumerInv(p, s, s', Slot(p.n, s.r.landed));
  }

  /** Only close posts a stamp, for the last message, and it lands when every message has. */
  lemma StampInFlight(p: Params, s: State)
    requires p.n > 0 && s.r.landed <= Sent(s) && InFlight(p, s) && s.r.queue != [] && s.r.queue[0].Stamp?
    ensures s.w.pc == Closing && s.r.landed == Sent(s) == |s.messages| > 0 && |s.r.queue| == 1
    ensures s.r.queue[0] == Stamp(Slot(p.n, Sent(s) - 1), StampHeader(p, Sent(s) - 1))
  {
  }

  lemma StampHeld(p: Params, s: State, s': State, i: nat)
    requires p.n > 0 && |s.r.mem| == p.n && 0 <= Released(p, s.r) <= i < s.r.landed == |s.messages| <= Released(p, s.r) + p.n
    requires Held(p, s, i) && !Stamped(s) && Stamped(s') && s'.messages == s.messages
    requires var k := Slot(p.n, s.r.landed - 1);
             s'.r == s.r.(mem := s.r.mem[k := s.r.mem[k].(h := StampHeader(p, s.r.landed - 1))], queue := s'.r.queue)
    requires s.r.cpc in {ClearConsumable, SetWriteable, ReturnCredit} ==> Released(p, s.r) != s.r.landed - 1
    ensures Held(p, s', i)
  {
    SlotsApart(p.n, Released(p, s.r), s.r.landed - 1);
  }

  lemma LandStampWindow(p: Params, s: State)
    requires Inv(p, s) && s.r.queue != [] && s.r.queue[0].Stamp?
    ensures Window(p, Apply(p, s, Land))
  {
    var s' := Apply(p, s, Land);
    var (L, R) := (s.r.landed, Released(p, s.r));
    StampInFlight(p, s);
    SlotsApart(p.n, R, L - 1);
    forall i: nat | R <= i < L
      ensures Held(p, s', i)
    {
      assert Held(p, s, i);
      StampHeld(p, s, s', i);
    }
    forall i: nat | L <= i < R + p.n
      ensures Free(p, s'.r, i)
    {
      assert Free(p, s.r, i);
    }
  }

  /** The end stamp lands on the last message's segment, which is still the consumer's: taken or not, never released. */
  lemma LandStampInv(p: Params, s: State)
    requires Inv(p, s) && s.r.queue != [] && s.r.queue[0].Stamp?
    ensures Released(p, s.r) <= Sent(s) - 1 < s.r.landed
    ensures Inv(p, Apply(p, s, Land))
  {
    var s' := Apply(p, s, Land);
    StampInFlight(p, s);
    LandStampWindow(p, s);
    LandConsumerInv(p, s, s', Slot(p.n, Sent(s) - 1));
  }

  lemma LandInv(p: Params, s: State)
    requires Inv(p, s)
    ensures Inv(p, Apply(p, s, Land))
  {
    if s.r.queue != [] {
      if s.r.queue[0].Message? {
        LandMessageInv(p, s);
      } else {
        LandStampInv(p, s);
      }
    }
  }

  // ---------------------------------------------------------------- consumer steps

  /** has_next's tests are exact: consumable means landed and not taken, end means the stamped last message is taken. */
  lemma ConsumableMeansLanded(p: Params, s: State)
    requires Inv(p, s) && s.r.cpc != Taking
    ensures s.r.mem[s.r.iter].h.consumable <==> |s.r.delivered| < s.r.landed
    ensures PrevIsEnd(s.r) <==> Stamped(s) && |s.r.delivered| == s.r.landed
  {
    var T := |s.r.delivered|;
    if T < s.r.landed {
      assert Held(p, s, T);
    } else {
      assert Free(p, s.r, T);
    }
    if T > 0 {
      assert Held(p, s, T - 1);
    }
  }

  /** The writer's side of the invariant depends on the consumer only through the credit counter. */
  lemma WriterSideFrame(p: Params, s: State, s': State)
    requires p.n > 0 && s.r.landed <= Sent(s) && InFlight(p, s) && WriterInv(p, s)
    requires s'.w == s.w && s'.messages == s.messages && s'.r.queue == s.r.queue && s'.r.landed == s.r.landed
    ensures InFlight(p, s') && WriterInv(p, s')
  {
  }

  /** A store changes only the held segment's header; the credit step changes no segment. */
  lemma StoreEffect(p: Params, s: State)
    requires Inv(p, s) && s.r.cpc in {ZeroCounter, ClearConsumable, SetWriteable, ReturnCredit} && s.r.delivered != []
    ensures !PrevIsEnd(s.r) && s.r.prev == Some(Slot(p.n, Released(p, s.r)))
    ensures Released(p, s.r) < s.r.landed <= |s.messages| && StoredAt(p, s, Apply(p, s, Consume))
  {
    ConsumableMeansLanded(p, s);
    assert Held(p, s, Released(p, s.r));
  }

  /** What a step of the release does, seen from the segments: it moves the release of message R on, and leaves
      everything else alone. */
  ghost predicate StoredAt(p: Params, s: State, s': State)
    requires p.n > 0 && |s.r.mem| == p.n && 0 <= Released(p, s.r) < |s.messages|
  {
    var R := Released(p, s.r);
    var k := Slot(p.n, R);
    && |s'.r.mem| == p.n
    && s'.w == s.w && s'.messages == s.messages && s'.r.queue == s.r.queue && s'.r.landed == s.r.landed
    && (forall j :: 0 <= j < p.n && j != k ==> s'.r.mem[j] == s.r.mem[j])
    && s'.r.mem[k].data == s.r.mem[k].data
    && s.r.credit <= s'.r.credit && Released(p, s'.r) <= |s'.r.delivered| <= s.r.landed
    && if s.r.cpc == ReturnCredit then
         s'.r.cpc == Taking && Released(p, s'.r) == R + 1 && s'.r.mem[k].h == FreeHeader(Slot(p.n, R + 1))
       else
         Released(p, s'.r) == R && s'.r.mem[k].h == HeldHeader(p, s', R)
  }

  lemma StoreHeld(p: Params, s: State, s': State, i: nat)
    requires p.n > 0 && |s.r.mem| == p.n && 0 <= Released(p, s.r) < |s.messages| && s.r.landed <= Released(p, s.r) + p.n
    requires StoredAt(p, s, s') && Released(p, s'.r) <= i < s.r.landed && Held(p, s, i)
    ensures Held(p, s', i)
  {
    SlotsApart(p.n, Released(p, s.r), Released(p, s.r));
  }

  lemma StoreFree(p: Params, s: State, s': State, i: nat)
    requires p.n > 0 && |s.r.mem| == p.n && 0 <= Released(p, s.r) < |s.messages| && Released(p, s.r) < s.r.landed
    requires StoredAt(p, s, s')
    requires s.r.landed <= i < Released(p, s'.r) + p.n && (i < Released(p, s.r) + p.n ==> Free(p, s.r, i))
    ensures Free(p, s'.r, i)
  {
    var R := Released(p, s.r);
    if i < R + p.n {
      SlotsApart(p.n, R, R);
    } else {
      SlotPeriod(p.n, R);
      SlotPeriod(p.n, R + 1);
    }
  }

  lemma StoreWindow(p: Params, s: State, s': State)
    requires p.n > 0 && |s.r.mem| == p.n && 0 <= Released(p, s.r) < |s.messages| && Released(p, s.r) < s.r.landed
    requires Window(p, s) && StoredAt(p, s, s')
    ensures Window(p, s')
  {
    forall i: nat | Released(p, s'.r) <= i < s.r.landed
      ensures Held(p, s', i)
    {
      assert Held(p, s, i);
      StoreHeld(p, s, s', i);
    }
    forall i: nat | s.r.landed <= i < Released(p, s'.r) + p.n
      ensures Free(p, s'.r, i)
    {
      assert i < Released(p, s.r) + p.n ==> Free(p, s.r, i);
      StoreFree(p, s, s', i);
    }
  }

  lemma StoreConsumerInv(p: Params, s: State)
    requires Inv(p, s) && s.r.cpc in {ZeroCounter, ClearConsumable, SetWriteable, ReturnCredit} && s.r.delivered != []
    ensures ConsumerInv(p, Apply(p, s, Consume))
  {
    var s' := Apply(p, s, Consume);
    StoreEffect(p, s);
    forall i | 0 <= i < |s.r.delivered|
      ensures Returned(p, s', i)
    {
      assert Returned(p, s, i);
    }
  }

  lemma StoreInv(p: Params, s: State)
    requires Inv(p, s) && s.r.cpc in {ZeroCounter, ClearConsumable, SetWriteable, ReturnCredit} && s.r.delivered != []
    ensures Inv(p, Apply(p, s, Consume))
  {
    assert Window(p, Apply(p, s, Consume)) by {
      StoreEffect(p, s);
      StoreWindow(p, s, Apply(p, s, Consume));
    }
    StoreConsumerInv(p, s);
    WriterSideFrame(p, s, Apply(p, s, Consume));
  }

  /** A consumer step that stores nothing. */
  lemma WindowFrameConsumer(p: Params, s: State, s': State)
    requires p.n > 0 && |s.r.mem| == p.n && Window(p, s)
    requires s'.w == s.w && s'.messages == s.messages && s'.r.mem == s.r.mem && s'.r.queue == s.r.queue
    requires s'.r.landed == s.r.landed && s'.r.credit == s.r.credit
    requires Released(p, s.r) <= |s'.r.delivered| <= s.r.landed
    requires s.r.cpc !in {ClearConsumable, SetWriteable, ReturnCredit} && s'.r.cpc !in {ClearConsumable, SetWriteable, ReturnCredit}
    ensures Window(p, s')
  {
    forall i: nat | Released(p, s.r) <= i < s.r.landed
      ensures Held(p, s', i)
    {
      assert Held(p, s, i);
    }
    forall i: nat | s.r.landed <= i < Released(p, s.r) + p.n
      ensures Free(p, s'.r, i)
    {
      assert Free(p, s.r, i);
    }
  }

  lemma TakeInv(p: Params, s: State)
    requires Inv(p, s) && s.r.cpc == Taking && Sound(p, Apply(p, s, Consume))
    ensures Inv(p, Apply(p, s, Consume))
  {
    var s' := Apply(p, s, Consume);
    TakenConsumerInv(p, s);
    assert Window(p, s') by { WindowFrameConsumer(p, s, s'); }
    WriterSideFrame(p, s, s');
  }

  lemma TakenConsumerInv(p: Params, s: State)
    requires p.n > 0 && InBounds(p, s) && Window(p, s) && ConsumerInv(p, s) && s.r.cpc == Taking
    ensures ConsumerInv(p, Apply(p, s, Consume))
  {
    var s' := Apply(p, s, Consume);
    var T := |s.r.delivered|;
    assert Held(p, s, T);
    SlotNext(p.n, T);
    var seg := s.r.mem[s.r.iter];
    assert s.messages[T] <= seg.data[..seg.h.counter];
    forall i | 0 <= i < T + 1
      ensures Returned(p, s', i)
    {
      assert i < T ==> Returned(p, s, i);
    }
  }

  lemma ScanInv(p: Params, s: State)
    requires Inv(p, s) && (s.r.cpc == Scanning || (s.r.cpc == ZeroCounter && s.r.delivered == []))
    ensures Inv(p, Apply(p, s, Consume))
  {
    var s' := Apply(p, s, Consume);
    ScannedConsumerInv(p, s);
    assert Window(p, s') by { WindowFrameConsumer(p, s, s'); }
    WriterSideFrame(p, s, s');
  }

  lemma ScannedConsumerInv(p: Params, s: State)
    requires Inv(p, s) && (s.r.cpc == Scanning || (s.r.cpc == ZeroCounter && s.r.delivered == []))
    ensures ConsumerInv(p, Apply(p, s, Consume))
  {
    ConsumableMeansLanded(p, s);
    forall i | 0 <= i < |s.r.delivered|
      ensures Returned(p, Apply(p, s, Consume), i)
    {
      assert Returned(p, s, i);
    }
  }

  lemma ConsumeInv(p: Params, s: State)
    requires Inv(p, s) && Sound(p, Apply(p, s, Consume))
    ensures Inv(p, Apply(p, s, Consume))
  {
    match s.r.cpc {
      case Taking => TakeInv(p, s);
      case Scanning => ScanInv(p, s);
      case Retired =>
      case _ => if s.r.delivered == [] { ScanInv(p, s); } else { StoreInv(p, s); }
    }
  }

  // ---------------------------------------------------------------- every step, every run

  lemma StepInv(p: Params, s: State, step: Step)
    requires Inv(p, s) && Sound(p, Apply(p, s, step))
    ensures Inv(p, Apply(p, s, step))
  {
    match step {
      case Append(data) => if s.w.pc == Idle && |data| <= p.size { AppendInv(p, s, data); }
      case Close => if s.w.pc == Idle && s.w.last.Some? { CloseInv(p, s); }
      case Write => WriterStepInv(p, s);
      case Land => LandInv(p, s);
      case Consume => ConsumeInv(p, s);
    }
  }

  lemma SoundBefore(p: Params, s: State, step: Step)
    requires InBounds(p, s) && Sound(p, Apply(p, s, step))
    ensures Sound(p, s)
  {
  }

  lemma {:induction false} RunInv(p: Params, s: State, schedule: seq<Step>)
    requires Inv(p, s) && Sound(p, Run(p, s, schedule))
    ensures Inv(p, Run(p, s, schedule))
  {
    if schedule != [] {
      var k := |schedule| - 1;
      var before := Run(p, s, schedule[..k]);
      SoundBefore(p, before, schedule[k]);
      RunInv(p, s, schedule[..k]);
      StepInv(p, before, schedule[k]);
    }
  }
}
