/** Packing a thread's memory events into blobs of bounded size
    (core/components/MemAggregatorComponent.cpp, numTerminatedHandler, initialize_data, update_data). */
module MemBlobs {
  import opened Extents
  import MemMetrics

  datatype TimedEvent = TimedEvent(event: MemMetrics.MemEvent, startTime: Word, stopTime: Word)

  datatype Blob = Blob(timeBegin: Word, timeEnd: Word, events: seq<TimedEvent>)

  const THE_END: Word := 0xFFFF_FFFF_FFFF_FFFF

  // ---------------------------------------------------------------- the header interval

  function Begin(es: seq<TimedEvent>): Word {
    if es == [] then THE_END
    else
      var b, e := Begin(es[..|es| - 1]), es[|es| - 1];
      if e.startTime < b then e.startTime else b
  }

  /** One past the last stop time; the increment wraps. */
  function End(es: seq<TimedEvent>): Word {
    if es == [] then 0
    else
      var b, e := End(es[..|es| - 1]), es[|es| - 1];
      if e.stopTime >= b then Wrap(e.stopTime as int + 1) else b
  }

  lemma {:induction false} BeginIsLeast(es: seq<TimedEvent>)
    ensures forall i :: 0 <= i < |es| ==> Begin(es) <= es[i].startTime
    ensures es != [] ==> Begin(es) == THE_END || exists i :: 0 <= i < |es| && Begin(es) == es[i].startTime
  {
    if es != [] {
      var front := es[..|es| - 1];
      BeginIsLeast(front);
      if Begin(es) != Begin(front) {
        assert Begin(es) == es[|es| - 1].startTime;
      } else if front != [] && Begin(es) != THE_END {
        var i :| 0 <= i < |front| && Begin(front) == front[i].startTime;
        assert Begin(es) == es[i].startTime;
      }
    }
  }

  lemma {:induction false} EndIsPastLast(es: seq<TimedEvent>)
    requires forall i :: 0 <= i < |es| ==> es[i].stopTime < THE_END
    ensures forall i :: 0 <= i < |es| ==> es[i].stopTime < End(es)
    ensures es != [] ==> exists i :: 0 <= i < |es| && es[i].stopTime as int + 1 == End(es)
  {
    if es != [] {
      var front, e := es[..|es| - 1], es[|es| - 1];
      EndIsPastLast(front);
      assert forall i :: 0 <= i < |front| ==> front[i] == es[i];
      if e.stopTime >= End(front) {
        assert es[|es| - 1].stopTime as int + 1 == End(es);
      } else {
        var i :| 0 <= i < |front| && front[i].stopTime as int + 1 == End(front);
        assert es[i].stopTime as int + 1 == End(es);
      }
    }
  }

  ghost predicate Inside(b: Blob, t: Word) {
    b.timeBegin <= t < b.timeEnd
  }

  /** The header interval holds every start and stop time of the blob, exactly when no event stops
      at the last representable time. */
  lemma HeaderHoldsIff(b: Blob)
    requires b.timeBegin == Begin(b.events) && b.timeEnd == End(b.events)
    requires forall i :: 0 <= i < |b.events| ==> b.events[i].startTime <= b.events[i].stopTime
    ensures (forall i :: 0 <= i < |b.events| ==> Inside(b, b.events[i].startTime) && Inside(b, b.events[i].stopTime))
       <==> (forall i :: 0 <= i < |b.events| ==> b.events[i].stopTime < THE_END)
  {
    hide Begin, End;
    BeginIsLeast(b.events);
    if forall i :: 0 <= i < |b.events| ==> b.events[i].stopTime < THE_END {
      EndIsPastLast(b.events);
    }
  }

  // ---------------------------------------------------------------- packing

  function AllEvents(blobs: seq<Blob>): seq<TimedEvent> {
    if blobs == [] then [] else AllEvents(blobs[..|blobs| - 1]) + blobs[|blobs| - 1].events
  }

  lemma AllEventsSnoc(blobs: seq<Blob>, b: Blob)
    ensures AllEvents(blobs + [b]) == AllEvents(blobs) + b.events
  {
    assert (blobs + [b])[..|blobs|] == blobs;
  }

  ghost predicate GoodBlob(b: Blob, capacity: nat) {
    1 <= |b.events| <= capacity && b.timeBegin == Begin(b.events) && b.timeEnd == End(b.events)
  }

  ghost predicate AllGood(blobs: seq<Blob>, capacity: nat) {
    forall i :: 0 <= i < |blobs| ==> GoodBlob(blobs[i], capacity)
  }

  // ---------------------------------------------------------------- where the events are cut

  /** Position, among all events, just past those of blob k. */
  ghost function EndOf(blobs: seq<Blob>, k: nat): nat
    requires k < |blobs|
  {
    |AllEvents(blobs[..k + 1])|
  }

  /** No event of blob k but its last one has filled the stack buffer. */
  ghost predicate Unbroken(blobs: seq<Blob>, stackFull: seq<bool>, k: nat)
    requires k < |blobs|
  {
    var end := EndOf(blobs, k);
    end <= |stackFull| && forall i :: 0 <= i && end - |blobs[k].events| <= i < end - 1 ==> !stackFull[i]
  }

  /** Blob k has as many events as fit, or its last one has filled the stack buffer. */
  ghost predicate Filled(blobs: seq<Blob>, stackFull: seq<bool>, capacity: nat, k: nat)
    requires k < |blobs|
  {
    var end := EndOf(blobs, k);
    |blobs[k].events| == capacity || (0 < end <= |stackFull| && stackFull[end - 1])
  }

  /** Every blob but the last is filled before it is emitted. */
  ghost predicate Batched(blobs: seq<Blob>, stackFull: seq<bool>, capacity: nat) {
    && (forall k :: 0 <= k < |blobs| ==> Unbroken(blobs, stackFull, k))
    && (forall k :: 0 <= k < |blobs| - 1 ==> Filled(blobs, stackFull, capacity, k))
  }

  /** So far: every blob emitted is filled, and the events in the buffer have not filled the stack. */
  ghost predicate Packed(blobs: seq<Blob>, stackFull: seq<bool>, capacity: nat) {
    && (forall k :: 0 <= k < |blobs| ==> Unbroken(blobs, stackFull, k) && Filled(blobs, stackFull, capacity, k))
    && (forall i :: |AllEvents(blobs)| <= i < |stackFull| ==> !stackFull[i])
  }

  lemma EndsKept(blobs: seq<Blob>, b: Blob, stackFull: seq<bool>, more: seq<bool>, capacity: nat, k: nat)
    requires k < |blobs| && Unbroken(blobs, stackFull, k)
    ensures Unbroken(blobs, stackFull + more, k) && Unbroken(blobs + [b], stackFull, k)
    ensures Filled(blobs, stackFull, capacity, k) ==>
              Filled(blobs, stackFull + more, capacity, k) && Filled(blobs + [b], stackFull, capacity, k)
  {
    assert (blobs + [b])[..k + 1] == blobs[..k + 1];
  }

  lemma PackedMore(blobs: seq<Blob>, stackFull: seq<bool>, capacity: nat)
    requires Packed(blobs, stackFull, capacity)
    ensures Packed(blobs, stackFull + [false], capacity)
  {
    hide Unbroken, Filled, AllEvents;
    forall k | 0 <= k < |blobs|
      ensures Unbroken(blobs, stackFull + [false], k) && Filled(blobs, stackFull + [false], capacity, k)
    {
      EndsKept(blobs, blobs[k], stackFull, [false], capacity, k);
    }
  }

  lemma EndOfLast(blobs: seq<Blob>, b: Blob)
    ensures EndOf(blobs + [b], |blobs|) == |AllEvents(blobs)| + |b.events|
  {
    AllEventsSnoc(blobs, b);
    assert (blobs + [b])[..|blobs| + 1] == blobs + [b];
  }

  /** Emitting what is in the buffer. The last flag is that of the last event in it. */
  lemma PackedEmit(blobs: seq<Blob>, b: Blob, stackFull: seq<bool>, last: bool, capacity: nat)
    requires Packed(blobs, stackFull, capacity)
    requires |AllEvents(blobs)| + |b.events| == |stackFull| + 1 && b.events != []
    ensures Batched(blobs + [b], stackFull + [last], capacity)
    ensures last || |b.events| == capacity ==> Packed(blobs + [b], stackFull + [last], capacity)
  {
    hide AllEvents, EndOf;
    var flags := stackFull + [last];
    forall k | 0 <= k < |blobs|
      ensures Unbroken(blobs + [b], flags, k) && Filled(blobs + [b], flags, capacity, k)
    {
      EndsKept(blobs, b, stackFull, [last], capacity, k);
      EndsKept(blobs, b, flags, [], capacity, k);
    }
    EndOfLast(blobs, b);
    AllEventsSnoc(blobs, b);
    assert Unbroken(blobs + [b], flags, |blobs|);
  }

  /** Emitting what is left over at the end. */
  lemma BatchedRest(blobs: seq<Blob>, b: Blob, stackFull: seq<bool>, capacity: nat)
    requires Packed(blobs, stackFull, capacity) && |AllEvents(blobs)| + |b.events| == |stackFull|
    ensures Batched(blobs + [b], stackFull, capacity)
  {
    hide AllEvents, EndOf;
    forall k | 0 <= k < |blobs|
      ensures Unbroken(blobs + [b], stackFull, k) && Filled(blobs + [b], stackFull, capacity, k)
    {
      EndsKept(blobs, b, stackFull, [], capacity, k);
    }
    EndOfLast(blobs, b);
    assert Unbroken(blobs + [b], stackFull, |blobs|);
  }

  lemma PackedIsBatched(blobs: seq<Blob>, stackFull: seq<bool>, capacity: nat)
    requires Packed(blobs, stackFull, capacity)
    ensures Batched(blobs, stackFull, capacity)
  {
  }

  lemma {:induction false} EndsRise(blobs: seq<Blob>, j: nat, k: nat)
    requires j <= k <= |blobs|
    ensures |AllEvents(blobs[..j])| <= |AllEvents(blobs[..k])|
    ensures AllEvents(blobs[..j]) == AllEvents(blobs[..k])[..|AllEvents(blobs[..j])|]
    decreases k - j
  {
    if j < k {
      EndsRise(blobs, j, k - 1);
      assert blobs[..k][..k - 1] == blobs[..k - 1];
    }
  }

  /** What the blob k holds, as a stretch of all the events. */
  lemma StretchOf(blobs: seq<Blob>, k: nat)
    requires k < |blobs|
    ensures |AllEvents(blobs[..k])| + |blobs[k].events| == EndOf(blobs, k) <= |AllEvents(blobs)|
    ensures blobs[k].events == AllEvents(blobs)[|AllEvents(blobs[..k])|..EndOf(blobs, k)]
  {
    assert blobs[..k + 1] == blobs[..k] + [blobs[k]];
    AllEventsSnoc(blobs[..k], blobs[k]);
    EndsRise(blobs, k + 1, |blobs|);
    assert blobs[..|blobs|] == blobs;
  }

  ghost predicate Cut(blobs: seq<Blob>, es: seq<TimedEvent>, stackFull: seq<bool>, capacity: nat) {
    AllEvents(blobs) == es && AllGood(blobs, capacity) && Batched(blobs, stackFull, capacity)
  }

  /** Two cuts of the same events that agree so far agree on where the next blob ends. */
  lemma NextEndsNoLater(a: seq<Blob>, b: seq<Blob>, es: seq<TimedEvent>, stackFull: seq<bool>, capacity: nat, k: nat)
    requires Cut(a, es, stackFull, capacity) && Cut(b, es, stackFull, capacity) && |stackFull| == |es|
    requires k < |a| && k < |b| && a[..k] == b[..k]
    ensures EndOf(b, k) <= EndOf(a, k)
  {
    hide AllEvents, Begin, End, EndOf;
    StretchOf(a, k);
    StretchOf(b, k);
    WholeEnds(a);
    assert GoodBlob(b[k], capacity) && GoodBlob(a[k], capacity);
    assert Unbroken(b, stackFull, k);
    assert k < |a| - 1 ==> Filled(a, stackFull, capacity, k);
  }

  lemma WholeEnds(blobs: seq<Blob>)
    requires blobs != []
    ensures EndOf(blobs, |blobs| - 1) == |AllEvents(blobs)|
  {
    assert blobs[..|blobs|] == blobs;
  }

  lemma {:induction false} CutsAgree(a: seq<Blob>, b: seq<Blob>, es: seq<TimedEvent>, stackFull: seq<bool>,
                                     capacity: nat, k: nat)
    requires Cut(a, es, stackFull, capacity) && Cut(b, es, stackFull, capacity) && |stackFull| == |es|
    requires k <= |a|
    ensures k <= |b| && a[..k] == b[..k]
  {
    hide Batched, EndOf, AllEvents, Begin, End;
    if k > 0 {
      CutsAgree(a, b, es, stackFull, capacity, k - 1);
      StretchOf(a, k - 1);
      assert GoodBlob(a[k - 1], capacity);
      assert b[..|b|] == b;
      assert k - 1 < |b|;
      StretchOf(b, k - 1);
      NextEndsNoLater(a, b, es, stackFull, capacity, k - 1);
      NextEndsNoLater(b, a, es, stackFull, capacity, k - 1);
      assert GoodBlob(b[k - 1], capacity);
      assert a[k - 1] == b[k - 1];
      assert a[..k] == a[..k - 1] + [a[k - 1]] && b[..k] == b[..k - 1] + [b[k - 1]];
    }
  }

  /** There is only one way to cut the events into blobs that are filled before they are emitted. */
  lemma CutUnique(a: seq<Blob>, b: seq<Blob>, es: seq<TimedEvent>, stackFull: seq<bool>, capacity: nat)
    requires Cut(a, es, stackFull, capacity) && Cut(b, es, stackFull, capacity) && |stackFull| == |es|
    ensures a == b
  {
    hide Cut;
    CutsAgree(a, b, es, stackFull, capacity, |a|);
    CutsAgree(b, a, es, stackFull, capacity, |b|);
    assert a[..|a|] == a && b[..|b|] == b;
  }

  lemma {:induction false} FullBlobs(blobs: seq<Blob>, capacity: nat, k: nat)
    requires k <= |blobs| && forall j :: 0 <= j < k ==> |blobs[j].events| == capacity
    ensures |AllEvents(blobs[..k])| == k * capacity
  {
    if k > 0 {
      FullBlobs(blobs, capacity, k - 1);
      StretchOf(blobs, k - 1);
    }
  }

  /** Without a full stack buffer there are as many blobs as are needed and no more: the number of events
      divided by the capacity, rounded up. */
  lemma BlobCount(blobs: seq<Blob>, es: seq<TimedEvent>, stackFull: seq<bool>, capacity: nat)
    requires Cut(blobs, es, stackFull, capacity) && |stackFull| == |es| && capacity > 0
    requires forall i :: 0 <= i < |stackFull| ==> !stackFull[i]
    ensures (|blobs| - 1) * capacity < |es| <= |blobs| * capacity
  {
    hide AllEvents, Begin, End, EndOf;
    var n := |blobs|;
    if n > 0 {
      forall k | 0 <= k < n - 1
        ensures |blobs[k].events| == capacity
      {
        assert Filled(blobs, stackFull, capacity, k);
      }
      FullBlobs(blobs, capacity, n - 1);
      StretchOf(blobs, n - 1);
      WholeEnds(blobs);
      assert GoodBlob(blobs[n - 1], capacity);
    } else {
      NoBlobs(capacity);
    }
  }

  /** The event buffer, the header being filled, and the blobs emitted. */
  class MemAggregator {
    const events: array<TimedEvent>
    var eventsLen: nat
    var timeBegin: Word
    var timeEnd: Word
    var emitted: seq<Blob>

    ghost predicate Valid()
      reads this, events
    {
      && eventsLen <= events.Length
      && timeBegin == Begin(events[..eventsLen]) && timeEnd == End(events[..eventsLen])
      && AllGood(emitted, events.Length)
    }

    /** Everything taken in: what was emitted, and what is in the buffer. */
    ghost function Taken(): seq<TimedEvent>
      requires eventsLen <= events.Length
      reads this, events
    {
      AllEvents(emitted) + events[..eventsLen]
    }

    constructor (eventBufferSize: nat, blank: TimedEvent)
      requires eventBufferSize > 0
      ensures Valid() && Taken() == [] && emitted == [] && events.Length == eventBufferSize && fresh(events)
    {
      events := new TimedEvent[eventBufferSize](_ => blank);
      eventsLen, timeBegin, timeEnd, emitted := 0, THE_END, 0, [];
    }

    method InitializeData()
      requires eventsLen <= events.Length && AllGood(emitted, events.Length)
      modifies this`eventsLen, this`timeBegin, this`timeEnd
      ensures Valid() && eventsLen == 0
    {
      timeBegin, timeEnd, eventsLen := THE_END, 0, 0;
    }

    /** Whether the stack trace buffer has no room left is passed in. */
    method UpdateData(e: TimedEvent, stackFull: bool) returns (full: bool)
      requires Valid() && eventsLen < events.Length
      modifies this`eventsLen, this`timeBegin, this`timeEnd, events
      ensures Valid() && eventsLen == old(eventsLen) + 1 && Taken() == old(Taken()) + [e]
      ensures full <==> stackFull || eventsLen == events.Length
    {
      full := stackFull;
      if e.startTime < timeBegin {
        timeBegin := e.startTime;
      }
      if e.stopTime >= timeEnd {
        timeEnd := Wrap(e.stopTime as int + 1);
      }
      ghost var before := events[..eventsLen];
      events[eventsLen] := e;
      eventsLen := eventsLen + 1;
      assert events[..eventsLen] == before + [e] && (before + [e])[..|before|] == before;
      if eventsLen == events.Length {
        full := true;
      }
    }

    method Emit()
      requires Valid() && eventsLen > 0
      modifies this`emitted
      ensures Valid() && AllEvents(emitted) == old(Taken())
      ensures emitted == old(emitted) + [Blob(timeBegin, timeEnd, events[..eventsLen])]
    {
      var blob := Blob(timeBegin, timeEnd, events[..eventsLen]);
      AllEventsSnoc(emitted, blob);
      emitted := emitted + [blob];
    }

    /** One of the three loops over a thread's events. */
    method AddEvents(es: seq<TimedEvent>, stackFull: seq<bool>, emitNewData0: bool, ghost before: seq<bool>)
      returns (emitNewData: bool)
      requires Valid() && eventsLen < events.Length && (emitNewData0 ==> eventsLen == 0)
      requires |stackFull| == |es| && |before| == |Taken()| && Packed(emitted, before, events.Length)
      modifies this, events
      ensures Valid() && eventsLen < events.Length && (emitNewData ==> eventsLen == 0)
      ensures Taken() == old(Taken()) + es && Packed(emitted, before + stackFull, events.Length)
    {
      hide Begin, End, AllGood, AllEvents, Packed, Batched;
      emitNewData := emitNewData0;
      assert before + stackFull[..0] == before;
      for i := 0 to |es|
        invariant Valid() && eventsLen < events.Length && (emitNewData ==> eventsLen == 0)
        invariant Taken() == old(Taken()) + es[..i] && Packed(emitted, before + stackFull[..i], events.Length)
      {
        ghost var flags := before + stackFull[..i];
        emitNewData := UpdateData(es[i], stackFull[i]);
        assert es[..i + 1] == es[..i] + [es[i]];
        assert before + stackFull[..i + 1] == flags + [stackFull[i]];
        if emitNewData {
          PackedEmit(emitted, Blob(timeBegin, timeEnd, events[..eventsLen]), flags, stackFull[i], events.Length);
          Emit();
          InitializeData();
        } else {
          PackedMore(emitted, flags, events.Length);
        }
      }
      assert stackFull[..|es|] == stackFull;
    }

    /** All the blobs of one thread: their events are its interesting events, its unique call paths
        and its live allocations, in order; none is empty or over-full, and each but the last is filled
        before it is emitted. */
    method EmitThread(eventsOfInterest: seq<TimedEvent>, stackMemEvents: seq<TimedEvent>, addrMemEvent: seq<TimedEvent>,
                      stackFull: seq<bool>)
      requires |stackFull| == |eventsOfInterest| + |stackMemEvents| + |addrMemEvent|
      requires events.Length > 0 && eventsLen <= events.Length && emitted == []
      modifies this, events
      ensures Cut(emitted, eventsOfInterest + stackMemEvents + addrMemEvent, stackFull, events.Length)
    {
      hide AllEvents, AllGood, Begin, End, Batched, Packed;
      NoBlobs(events.Length);
      InitializeData();
      assert events[..0] == [];
      var a, b := |eventsOfInterest|, |eventsOfInterest| + |stackMemEvents|;
      var emitNewData := AddEvents(eventsOfInterest, stackFull[..a], false, []);
      assert [] + stackFull[..a] == stackFull[..a];
      emitNewData := AddEvents(stackMemEvents, stackFull[a..b], emitNewData, stackFull[..a]);
      assert stackFull[..a] + stackFull[a..b] == stackFull[..b];
      emitNewData := AddEvents(addrMemEvent, stackFull[b..], emitNewData, stackFull[..b]);
      assert stackFull[..b] + stackFull[b..] == stackFull;
      assert Taken() == eventsOfInterest + stackMemEvents + addrMemEvent;
      if !emitNewData && eventsLen > 0 {
        BatchedRest(emitted, Blob(timeBegin, timeEnd, events[..eventsLen]), stackFull, events.Length);
        Emit();
      } else {
        assert events[..eventsLen] == [];
        PackedIsBatched(emitted, stackFull, events.Length);
      }
    }
  }

  lemma NoBlobs(capacity: nat)
    ensures AllEvents([]) == [] && AllGood([], capacity) && Packed([], [], capacity)
  {
  }
}
