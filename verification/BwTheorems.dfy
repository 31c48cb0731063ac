/** What the bandwidth-optimised ring promises its users, over every schedule. */
module BwTheorems {
  import opened Util
  import opened BwProtocol
  import opened BwInvariant
  import opened BwWriterSide

  /** The state a schedule leads to from a fresh ring. */
  function After(p: Params, schedule: seq<Step>): (s: State)
    requires p.Valid()
    ensures InBounds(p, s)
  {
    Run(p, Init(p), schedule)
  }

  lemma AfterInv(p: Params, schedule: seq<Step>)
    requires p.Valid() && Sound(p, After(p, schedule))
    ensures Inv(p, After(p, schedule))
  {
    InitInv(p);
    RunInv(p, Init(p), schedule);
  }

  /** Exactly once, in order, nothing lost: what next() has returned is always a prefix of what was appended, and
      is all of it once has_next retires the ring. */
  lemma DeliversTheStream(p: Params, schedule: seq<Step>)
    requires p.Valid() && Sound(p, After(p, schedule))
    ensures var s := After(p, schedule);
            && Flatten(s.r.delivered) <= s.appended
            && (s.r.cpc == Retired ==> Flatten(s.r.delivered) == s.appended && s.w.pc in {Closing, Closed})
  {
    AfterInv(p, schedule);
    var s := After(p, schedule);
    FlattenPrefix(s.r.published, |s.r.delivered|);
    if s.r.cpc == Retired {
      assert s.r.published[..|s.r.delivered|] == s.r.published;
      assert s.appended == Flatten(s.r.published) + [] + [] + [];
    }
  }

  /** The writer's side of every run, with any number of segments. */
  lemma WriterSide(p: Params, schedule: seq<Step>)
    requires p.Valid()
    ensures if p.n == 1 then OneSegmentInv(p, After(p, schedule)) else Inv(p, After(p, schedule))
  {
    if p.n == 1 {
      OneSegmentRun(p, schedule);
    } else {
      AfterInv(p, schedule);
    }
  }

  /** After close, the segments are the appended stream cut at the segment size, however append was called. */
  lemma PublishedIsCut(p: Params, schedule: seq<Step>)
    requires p.Valid() && After(p, schedule).w.pc == Closed
    ensures var s := After(p, schedule); s.r.published == Cut(p.size, s.appended)
  {
    WriterSide(p, schedule);
    var s := After(p, schedule);
    assert s.appended == Flatten(s.r.published);
    if p.n > 1 {
      assert Held(p, s, |s.r.published| - 1);
    }
    assert CutShape(p.size, s.r.published);
    CutUnique(p.size, s.r.published);
  }

  /** Between calls, every byte appended is in a published segment or in the one being filled. */
  lemma NothingIsPending(p: Params, schedule: seq<Step>)
    requires p.Valid() && After(p, schedule).w.pc == Idle
    ensures var s := After(p, schedule); s.appended == Flatten(s.r.published) + s.r.filled
  {
    WriterSide(p, schedule);
  }

  /** A writer left polling has run out of segments: all of the ring are published and not released. */
  lemma PollingMeansFull(p: Params, schedule: seq<Step>)
    requires p.Valid() && After(p, schedule).w.pc.Poll? && !After(p, schedule).r.mem[After(p, schedule).w.pc.next].h.writeable
    ensures p.n > 1 ==> var r := After(p, schedule).r; |r.published| == Released(r) + p.n
  {
    if p.n > 1 {
      AfterInv(p, schedule);
      WriteableMeansFree(p, After(p, schedule));
    }
  }

  /** The segment next() returned last, until the stores of the following next() have given it back. */
  predicate IsHeld(r: Remote, k: nat) {
    r.prev == Some(k) && r.cpc != Taking
  }

  /** The segment the writer is filling, until its header write has landed. */
  predicate IsFilled(s: State, k: nat) {
    s.w.cur == k && (s.w.pc in {Idle, Work} || s.w.pc.Flush? || (s.w.pc != Closed && !s.w.pc.Poll? && s.r.queue != []))
  }

  /** Exclusive ownership: no step of the writer or the network changes a consumable or held segment, and no step of
      the consumer changes the segment being filled. */
  lemma Ownership(p: Params, schedule: seq<Step>, step: Step, k: nat)
    requires p.Valid() && Sound(p, After(p, schedule)) && k < p.n
    ensures var (s, s') := (After(p, schedule), After(p, schedule + [step]));
            && (step != Consume && (s.r.mem[k].h.consumable || IsHeld(s.r, k)) ==> s'.r.mem[k] == s.r.mem[k])
            && (step == Consume && IsFilled(s, k) ==> s'.r.mem[k] == s.r.mem[k])
  {
    AfterInv(p, schedule);
    RunSnoc(p, Init(p), schedule, step);
    var s := After(p, schedule);
    if step == Land && (s.r.mem[k].h.consumable || IsHeld(s.r, k)) {
      LandsOnFree(p, s, k);
    } else if step == Consume && IsFilled(s, k) {
      StoresToHeld(p, s, k);
    }
  }

  lemma LandsOnFree(p: Params, s: State, k: nat)
    requires Inv(p, s) && k < p.n && (s.r.mem[k].h.consumable || IsHeld(s.r, k))
    ensures Apply(p, s, Land).r.mem[k] == s.r.mem[k]
  {
    if s.r.queue != [] {
      InFlightMeansFilling(p, s);
      assert PostIntact(s.w, s.r, 0);
      assert Free(p, s.r, |s.r.published|);
      SlotsApart(p.n, Released(s.r), |s.r.published|);
    }
  }

  lemma StoresToHeld(p: Params, s: State, k: nat)
    requires Inv(p, s) && k < p.n && IsFilled(s, k)
    ensures Apply(p, s, Consume).r.mem[k] == s.r.mem[k]
  {
    if s.r.cpc in {ZeroCounter, ClearConsumable, SetWriteable} && s.r.delivered != [] {
      SlotsApart(p.n, Released(s.r), Released(s.r));
      StoreEffect(p, s);
    }
  }

  /** Zero copy: the bytes behind the pointer next() returned are still the ones it returned, in every state until
      the following next() on the ring has released them. */
  lemma HeldBytesAreStable(p: Params, schedule: seq<Step>)
    requires p.Valid() && Sound(p, After(p, schedule))
    ensures var s := After(p, schedule);
            var T := |s.r.delivered|;
            T > 0 && s.r.cpc != Taking ==>
              && s.r.prev.Some?
              && s.r.delivered[T - 1] <= s.r.mem[s.r.prev.value].data
  {
    AfterInv(p, schedule);
    var s := After(p, schedule);
    var T := |s.r.delivered|;
    if T > 0 && s.r.cpc != Taking {
      assert Held(p, s, T - 1);
    }
  }

  lemma MiddleSlice<T>(a: seq<T>, b: seq<T>, c: seq<T>, lo: nat, hi: nat)
    requires lo <= hi <= |b|
    ensures (a + b + c)[|a| + lo..|a| + hi] == b[lo..hi]
  {
  }

  lemma StagedBytes(s: State, j: nat)
    requires InFlight(s.w, s.r) && StreamInv(s) && j < |s.r.queue| && s.r.queue[j].Data?
    ensures var Data(_, at, src, len) := s.r.queue[j];
            var done := |Flatten(s.r.published)|;
            && src + len <= |s.w.staging| && done + at + len <= |s.appended|
            && s.w.staging[src..src + len] == s.appended[done + at..done + at + len]
  {
    assert PostIntact(s.w, s.r, j);
    var Data(_, at, src, len) := s.r.queue[j];
    var done := Flatten(s.r.published);
    assert s.appended == done + s.r.filled + (s.w.chunk + s.w.rest);
    MiddleSlice(done, s.r.filled, s.w.chunk + s.w.rest, at, at + len);
  }

  /** Staging safety: every posted and uncompleted payload write still finds, in the staging buffer, the bytes of the
      stream it was posted for, at every step until it lands. */
  lemma StagedBytesSurvive(p: Params, schedule: seq<Step>, j: nat)
    requires p.Valid()
    requires j < |After(p, schedule).r.queue| && After(p, schedule).r.queue[j].Data?
    ensures var s := After(p, schedule);
            var Data(_, at, src, len) := s.r.queue[j];
            var done := |Flatten(s.r.published)|;
            && done + at + len <= |s.appended|
            && s.w.staging[src..src + len] == s.appended[done + at..done + at + len]
  {
    WriterSide(p, schedule);
    StagedInState(p, After(p, schedule), j);
  }

  lemma StagedInState(p: Params, s: State, j: nat)
    requires if p.n == 1 then OneSegmentInv(p, s) else Inv(p, s)
    requires j < |s.r.queue| && s.r.queue[j].Data?
    ensures var Data(_, at, src, len) := s.r.queue[j];
            var done := |Flatten(s.r.published)|;
            && src + len <= |s.w.staging| && done + at + len <= |s.appended|
            && s.w.staging[src..src + len] == s.appended[done + at..done + at + len]
  {
    if p.n > 1 {
      InFlightMeansFilling(p, s);
    }
    StagedBytes(s, j);
  }

  /** Links are preserved: every header the writer copies back carries the link it read. */
  lemma LinksArePreserved(p: Params, schedule: seq<Step>, k: nat)
    requires p.Valid() && k < p.n
    ensures After(p, schedule).r.mem[k].h.next == NextSlot(p.n, k)
  {
    if p.n > 1 {
      LinksInWindow(p, schedule, k);
    }
  }

  lemma LinksInWindow(p: Params, schedule: seq<Step>, k: nat)
    requires p.Valid() && Sound(p, After(p, schedule)) && k < p.n
    ensures After(p, schedule).r.mem[k].h.next == NextSlot(p.n, k)
  {
    AfterInv(p, schedule);
    var s := After(p, schedule);
    var i := SlotCover(p.n, Released(s.r), k);
    SlotNext(p.n, i);
    if i < |s.r.published| {
      assert Held(p, s, i);
    } else {
      assert Free(p, s.r, i);
    }
  }
}
