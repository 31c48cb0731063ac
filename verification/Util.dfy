/** Sequences, ring arithmetic and the small vocabulary every other module shares. */
module Util {

  newtype byte = x: int | 0 <= x < 256

  datatype Option<+T> = None | Some(value: T)

  /** The concatenation of a sequence of chunks, in order. */
  function Flatten<T>(chunks: seq<seq<T>>): (r: seq<T>) {
    if chunks == [] then [] else Flatten(chunks[..|chunks| - 1]) + chunks[|chunks| - 1]
  }

  lemma FlattenSnoc<T>(chunks: seq<seq<T>>, last: seq<T>)
    ensures Flatten(chunks + [last]) == Flatten(chunks) + last
  {
    assert (chunks + [last])[..|chunks|] == chunks;
  }

  lemma FlattenUpTo<T>(chunks: seq<seq<T>>, k: nat)
    requires k < |chunks|
    ensures Flatten(chunks[..k + 1]) == Flatten(chunks[..k]) + chunks[k]
  {
    assert chunks[..k + 1] == chunks[..k] + [chunks[k]];
    FlattenSnoc(chunks[..k], chunks[k]);
  }

  lemma {:induction false} FlattenPrefix<T>(chunks: seq<seq<T>>, k: nat)
    requires k <= |chunks|
    ensures Flatten(chunks[..k]) <= Flatten(chunks)
  {
    if k == |chunks| {
      assert chunks[..k] == chunks;
    } else {
      FlattenPrefix(chunks[..|chunks| - 1], k);
      assert chunks[..|chunks| - 1][..k] == chunks[..k];
    }
  }

  /** A stream cut at a fixed size: every piece is full except possibly the last; the empty stream is one empty piece. */
  function Cut<T>(size: nat, stream: seq<T>): (pieces: seq<seq<T>>)
    requires size > 0
    ensures |pieces| > 0
  {
    if |stream| <= size then [stream] else [stream[..size]] + Cut(size, stream[size..])
  }

  /** What a sequence of pieces must look like to be a cut: all but the last full, the last one not larger,
      and not empty unless it is the only one. */
  ghost predicate CutShape<T>(size: nat, pieces: seq<seq<T>>) {
    && |pieces| > 0
    && (forall i :: 0 <= i < |pieces| - 1 ==> |pieces[i]| == size)
    && |pieces[|pieces| - 1]| <= size
    && (|pieces| > 1 ==> |pieces[|pieces| - 1]| > 0)
  }

  lemma {:induction false} FlattenCons<T>(head: seq<T>, tail: seq<seq<T>>)
    ensures Flatten([head] + tail) == head + Flatten(tail)
  {
    if tail == [] {
      assert [head] + tail == [] + [head];
      FlattenSnoc([], head);
      assert head + Flatten<T>([]) == head;
    } else {
      var body, last := tail[..|tail| - 1], tail[|tail| - 1];
      assert tail == body + [last];
      assert [head] + tail == ([head] + body) + [last];
      FlattenSnoc([head] + body, last);
      FlattenCons(head, body);
    }
  }

  /** The shape determines the pieces: they are exactly the cut of their concatenation, however they were produced. */
  lemma {:induction false} CutUnique<T>(size: nat, pieces: seq<seq<T>>)
    requires size > 0 && CutShape(size, pieces)
    ensures pieces == Cut(size, Flatten(pieces))
  {
    assert pieces == [pieces[0]] + pieces[1..];
    FlattenCons(pieces[0], pieces[1..]);
    if |pieces| == 1 {
      assert Flatten(pieces) == pieces[0];
    } else {
      CutUnique(size, pieces[1..]);
      var tail := Flatten(pieces[1..]);
      assert |tail| > 0 by {
        var last := pieces[|pieces| - 1];
        assert pieces[1..] == pieces[1..][..|pieces| - 2] + [last];
        FlattenSnoc(pieces[1..][..|pieces| - 2], last);
      }
      assert Flatten(pieces)[..size] == pieces[0];
      assert Flatten(pieces)[size..] == tail;
    }
  }

  /** The ring position of the i-th segment use on a ring of n segments: i modulo n, by repeated subtraction. */
  function Slot(n: nat, i: nat): (k: nat)
    requires n > 0
    ensures k < n
  {
    if i < n then i else Slot(n, i - n)
  }

  /** The arithmetic successor used by the ring layout: the last position links back to the first. */
  function NextSlot(n: nat, k: nat): (k': nat) {
    if k + 1 == n then 0 else k + 1
  }

  lemma {:induction false} SlotNext(n: nat, i: nat)
    requires n > 0
    ensures Slot(n, i + 1) == NextSlot(n, Slot(n, i))
  {
    if i >= n {
      SlotNext(n, i - n);
    }
  }

  lemma SlotPeriod(n: nat, i: nat)
    requires n > 0
    ensures Slot(n, i + n) == Slot(n, i)
  {
  }

  lemma {:induction false} SlotDistinct(n: nat, i: nat, j: nat)
    requires n > 0 && i < j < i + n
    ensures Slot(n, i) != Slot(n, j)
  {
    if i >= n {
      SlotDistinct(n, i - n, j - n);
    }
  }

  /** Any n consecutive segment uses cover every slot. */
  lemma {:induction false} SlotCover(n: nat, lo: nat, k: nat) returns (i: nat)
    requires k < n
    ensures lo <= i < lo + n && Slot(n, i) == k
  {
    if lo == 0 {
      i := k;
    } else {
      i := SlotCover(n, lo - 1, k);
      if i == lo - 1 {
        SlotPeriod(n, i);
        i := i + n;
      }
    }
  }

  /** Among n consecutive uses only use k is in its slot. */
  lemma SlotsApart(n: nat, lo: nat, k: nat)
    requires n > 0 && lo <= k < lo + n
    ensures forall i: nat {:trigger Slot(n, i)} :: lo <= i < lo + n && i != k ==> Slot(n, i) != Slot(n, k)
  {
    forall i: nat | lo <= i < lo + n && i != k
      ensures Slot(n, i) != Slot(n, k)
    {
      SlotDistinct(n, if i < k then i else k, if i < k then k else i);
    }
  }
}
