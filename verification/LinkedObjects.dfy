/** Collecting the linked objects of all threads, and dropping those without samples
    (core/components/LinkedObjectComponent.cpp). */
module LinkedObjects {
  import opened Extents
  import opened Options
  import opened Sequences
  import opened ThreadEvents

  datatype LinkedObject = LinkedObject(path: string, range: Interval)

  type AddressSpace = map<ThreadName, seq<LinkedObject>>

  // ---------------------------------------------------------------- the sample filter

  /** First position whose sample is not below a: equal_range(a).first. */
  function LowerBound(samples: seq<Word>, a: Word): (k: nat)
    requires Increasing(samples)
    ensures k <= |samples|
    ensures forall i :: 0 <= i < |samples| ==> (i < k <==> samples[i] < a)
  {
    if samples == [] || samples[0] >= a then 0 else 1 + LowerBound(samples[1..], a)
  }

  /** First position whose sample is above a: equal_range(a).second. */
  function UpperBound(samples: seq<Word>, a: Word): (k: nat)
    requires Increasing(samples)
    ensures k <= |samples|
    ensures forall i :: 0 <= i < |samples| ==> (i < k <==> samples[i] <= a)
  {
    if samples == [] || samples[0] > a then 0 else 1 + UpperBound(samples[1..], a)
  }

  ghost predicate Sampled(samples: seq<Word>, lo: int, hi: int) {
    exists i :: 0 <= i < |samples| && lo <= samples[i] < hi
  }

  /** The test of the filter: some sample lies from begin to end, end included. */
  predicate HasSample(samples: seq<Word>, range: Interval)
    requires Increasing(samples)
    ensures HasSample(samples, range) <==> Sampled(samples, range.begin, range.end + 1)
  {
    var lo, hi := LowerBound(samples, range.begin), UpperBound(samples, range.end);
    assert lo < hi ==> range.begin <= samples[lo] < range.end + 1;
    assert hi < |samples| ==> samples[hi] > range.end;
    lo != hi
  }

  /** With no counts at all everything is kept. */
  predicate Kept(samples: seq<Word>, o: LinkedObject)
    requires Increasing(samples)
  {
    HasSample(samples, o.range) || samples == []
  }

  function Filtered(samples: seq<Word>, objects: seq<LinkedObject>): seq<LinkedObject>
    requires Increasing(samples)
  {
    if objects == [] then []
    else
      var front, o := Filtered(samples, objects[..|objects| - 1]), objects[|objects| - 1];
      if Kept(samples, o) then front + [o] else front
  }

  /** What the filter is to keep: everything if nothing was sampled, and otherwise the objects with a
      sample from the beginning to the end of their range, the end included. */
  ghost predicate ToKeep(samples: seq<Word>, o: LinkedObject) {
    samples == [] || exists i :: 0 <= i < |samples| && o.range.begin <= samples[i] <= o.range.end
  }

  ghost predicate AllToKeep(samples: seq<Word>, objects: seq<LinkedObject>, ks: seq<nat>) {
    && Increasing(ks)
    && (forall i :: 0 <= i < |ks| ==> ks[i] < |objects|)
    && (forall k: nat :: k < |objects| ==> (k in ks <==> ToKeep(samples, objects[k])))
  }

  ghost predicate SomeToKeep(samples: seq<Word>, objects: seq<LinkedObject>) {
    exists k :: 0 <= k < |objects| && ToKeep(samples, objects[k])
  }

  lemma KeptIff(samples: seq<Word>, o: LinkedObject)
    requires Increasing(samples)
    ensures Kept(samples, o) <==> ToKeep(samples, o)
  {
    hide HasSample;
    if ToKeep(samples, o) && samples != [] {
      var i :| 0 <= i < |samples| && o.range.begin <= samples[i] <= o.range.end;
      assert Sampled(samples, o.range.begin, o.range.end + 1);
    }
    if Kept(samples, o) && samples != [] {
      var i :| 0 <= i < |samples| && o.range.begin <= samples[i] < o.range.end + 1;
    }
  }

  /** The objects kept are exactly those wanted, each as often as it was there and in the same order:
      ks is the list of their positions. */
  lemma {:induction false} FilteredAre(samples: seq<Word>, objects: seq<LinkedObject>) returns (ks: seq<nat>)
    requires Increasing(samples)
    ensures AllToKeep(samples, objects, ks) && |Filtered(samples, objects)| == |ks|
    ensures forall i :: 0 <= i < |ks| ==> Filtered(samples, objects)[i] == objects[ks[i]]
  {
    hide Kept, ToKeep;
    if objects == [] {
      ks := [];
    } else {
      var n := |objects| - 1;
      ks := FilteredAre(samples, objects[..n]);
      KeptIff(samples, objects[n]);
      ghost var ks0 := ks;
      if Kept(samples, objects[n]) {
        ks := ks + [n];
      }
      forall k: nat | k < |objects|
        ensures k in ks <==> ToKeep(samples, objects[k])
      {
        assert k in ks <==> k in ks0 || (k == n && Kept(samples, objects[n]));
        if k < n {
          assert objects[..n][k] == objects[k];
        }
      }
    }
  }

  lemma FilteredIff(samples: seq<Word>, objects: seq<LinkedObject>, o: LinkedObject)
    requires Increasing(samples)
    ensures o in Filtered(samples, objects) <==> o in objects && ToKeep(samples, o)
  {
    hide ToKeep, Filtered;
    var ks := FilteredAre(samples, objects);
    if o in objects && ToKeep(samples, o) {
      var k: nat :| k < |objects| && objects[k] == o;
      assert k in ks;
      var i :| 0 <= i < |ks| && ks[i] == k;
      assert Filtered(samples, objects)[i] == o;
    }
    if o in Filtered(samples, objects) {
      var i :| 0 <= i < |ks| && Filtered(samples, objects)[i] == o;
      assert ks[i] in ks;
    }
  }

  /** No object with a sample in its range is dropped. */
  lemma SampledIsKept(samples: seq<Word>, objects: seq<LinkedObject>, o: LinkedObject)
    requires Increasing(samples) && o in objects && Sampled(samples, o.range.begin, o.range.end)
    ensures o in Filtered(samples, objects)
  {
    FilteredIff(samples, objects, o);
  }

  /** The filter is meant to keep only objects with a sample in their half-open range. It keeps an
      object beyond that, when there are counts, exactly if the only samples are at its end. */
  lemma KeptWithoutSampleIff(samples: seq<Word>, objects: seq<LinkedObject>, o: LinkedObject)
    requires Increasing(samples) && samples != [] && !Sampled(samples, o.range.begin, o.range.end) && o in objects
    ensures o in Filtered(samples, objects) <==> o.range.end in samples
  {
    FilteredIff(samples, objects, o);
    if ToKeep(samples, o) {
      var i :| 0 <= i < |samples| && o.range.begin <= samples[i] <= o.range.end;
      assert samples[i] == o.range.end;
    }
  }

  /** Something is left exactly if there is an object to keep. */
  lemma LeftIff(samples: seq<Word>, objects: seq<LinkedObject>)
    requires Increasing(samples)
    ensures Filtered(samples, objects) != [] <==> SomeToKeep(samples, objects)
  {
    hide ToKeep, Filtered;
    var ks := FilteredAre(samples, objects);
    if ks != [] {
      assert ks[0] in ks && ToKeep(samples, objects[ks[0]]);
    }
  }

  /** Threads with an object left. */
  function Found(samples: seq<Word>, space: AddressSpace): AddressSpace
    requires Increasing(samples)
  {
    map t | t in space && Filtered(samples, space[t]) != [] :: Filtered(samples, space[t])
  }

  method FilterObjects(samples: seq<Word>, objects: seq<LinkedObject>) returns (tmp: seq<LinkedObject>)
    requires Increasing(samples)
    ensures tmp == Filtered(samples, objects)
  {
    tmp := [];
    for k := 0 to |objects|
      invariant tmp == Filtered(samples, objects[..k])
    {
      assert objects[..k + 1][..k] == objects[..k];
      var hasSample := HasSample(samples, objects[k].range);
      if hasSample || |samples| == 0 {
        tmp := tmp + [objects[k]];
      }
    }
    assert objects[..|objects|] == objects;
  }

  method FilterSpace(samples: seq<Word>, space: AddressSpace) returns (found: AddressSpace)
    requires Increasing(samples)
    ensures found == Found(samples, space)
  {
    hide Filtered;
    found := map[];
    var left := space.Keys;
    while left != {}
      invariant left <= space.Keys
      invariant forall t :: t in found <==> t in space && t !in left && Filtered(samples, space[t]) != []
      invariant forall t :: t in found ==> found[t] == Filtered(samples, space[t])
    {
      var t :| t in left;
      left := left - {t};
      var tmp := FilterObjects(samples, space[t]);
      if |tmp| > 0 {
        found := found[t := tmp];
      }
    }
    assert found.Keys == Found(samples, space).Keys;
  }

  // ---------------------------------------------------------------- messages

  datatype Message = Group(thread: ThreadName, objects: seq<LinkedObject>) | Ends(count: nat)

  datatype State = State(numTerminated: nat, space: AddressSpace)

  /** One handler call, once the thread list of n names is known. A leaf does not emit on a group. */
  function Handle(leaf: bool, n: nat, samples: seq<Word>, s: State, m: Message): (State, Option<AddressSpace>)
    requires Increasing(samples)
  {
    match m
    case Group(t, objects) =>
      var space := if t in s.space then s.space else s.space[t := objects];
      (State(s.numTerminated, space),
       if !leaf && |space| == n && s.numTerminated == n then Some(space) else None)
    case Ends(k) =>
      var ended := s.numTerminated + k;
      (State(ended, s.space), if ended == n && |s.space| == n then Some(Found(samples, s.space)) else None)
  }

  class LinkedObjectComponent {
    const isLeafCP: bool
    var numTerminated: nat
    var threadnames: seq<ThreadName>
    var numThreads: nat
    var addressspace: AddressSpace
    var abuffer: seq<Word>

    ghost predicate Valid()
      reads this
    {
      numThreads == |threadnames| && Increasing(abuffer)
    }

    function Current(): State
      reads this
    {
      State(numTerminated, addressspace)
    }

    constructor (leaf: bool)
      ensures Valid() && isLeafCP == leaf && Current() == State(0, map[]) && threadnames == [] && abuffer == []
    {
      isLeafCP, numTerminated, threadnames, numThreads, addressspace, abuffer := leaf, 0, [], 0, map[], [];
    }

    method ThreadnamesHandler(names: seq<ThreadName>)
      requires Valid()
      modifies this
      ensures Valid() && threadnames == names && Current() == old(Current()) && abuffer == old(abuffer)
    {
      threadnames := names;
      numThreads := |threadnames|;
    }

    method AddressBufferHandler(samples: seq<Word>)
      requires Valid() && Increasing(samples)
      modifies this
      ensures Valid() && abuffer == samples && Current() == old(Current()) && threadnames == old(threadnames)
    {
      abuffer := samples;
    }

    method NumTerminatedHandler(count: nat) returns (emitted: Option<AddressSpace>)
      requires Valid()
      modifies this
      ensures Valid() && threadnames == old(threadnames) && abuffer == old(abuffer)
      ensures (Current(), emitted) == Handle(isLeafCP, |threadnames|, abuffer, old(Current()), Ends(count))
    {
      numTerminated := numTerminated + count;
      emitted := None;
      if numTerminated == numThreads && |addressspace| == numThreads {
        var found := FilterSpace(abuffer, addressspace);
        emitted := Some(found);
      }
    }

    method GroupHandler(thread: ThreadName, objects: seq<LinkedObject>) returns (emitted: Option<AddressSpace>)
      requires Valid()
      modifies this
      ensures Valid() && threadnames == old(threadnames) && abuffer == old(abuffer)
      ensures (Current(), emitted) == Handle(isLeafCP, |threadnames|, abuffer, old(Current()), Group(thread, objects))
    {
      if thread !in addressspace {
        addressspace := addressspace[thread := objects];
      }
      emitted := None;
      if !isLeafCP && |addressspace| == |threadnames| && numTerminated == |threadnames| {
        emitted := Some(addressspace);
      }
    }
  }

  // ---------------------------------------------------------------- exactly one emission

  ghost function After(ms: seq<Message>): State {
    if ms == [] then State(0, map[])
    else Handle(true, 0, [], After(ms[..|ms| - 1]), ms[|ms| - 1]).0
  }

  /** What the i-th handler call emits. */
  ghost function EmitsAt(leaf: bool, n: nat, samples: seq<Word>, ms: seq<Message>, i: nat): Option<AddressSpace>
    requires Increasing(samples) && i < |ms|
  {
    Handle(leaf, n, samples, After(ms[..i]), ms[i]).1
  }

  function GroupCount(ms: seq<Message>): nat {
    if ms == [] then 0 else GroupCount(ms[..|ms| - 1]) + if ms[|ms| - 1].Group? then 1 else 0
  }

  function Ended(ms: seq<Message>): nat {
    if ms == [] then 0 else Ended(ms[..|ms| - 1]) + if ms[|ms| - 1].Ends? then ms[|ms| - 1].count else 0
  }

  ghost predicate DistinctThreads(ms: seq<Message>) {
    forall i, j :: 0 <= i < j < |ms| && ms[i].Group? && ms[j].Group? ==> ms[i].thread != ms[j].thread
  }

  ghost predicate Positive(ms: seq<Message>) {
    forall i :: 0 <= i < |ms| && ms[i].Ends? ==> ms[i].count > 0
  }

  /** One group for each of n threads, and counts above zero that add up to n, in any order. */
  ghost predicate Complete(ms: seq<Message>, n: nat) {
    DistinctThreads(ms) && Positive(ms) && GroupCount(ms) == n && Ended(ms) == n
  }

  ghost predicate Arrived(ms: seq<Message>, t: ThreadName, objects: seq<LinkedObject>) {
    exists i :: 0 <= i < |ms| && ms[i] == Group(t, objects)
  }

  /** Exactly what came in. */
  ghost predicate Gathers(ms: seq<Message>, space: AddressSpace) {
    && (forall t :: t in space ==> Arrived(ms, t, space[t]))
    && (forall i :: 0 <= i < |ms| && ms[i].Group? ==> ms[i].thread in space && space[ms[i].thread] == ms[i].objects)
  }

  lemma GathersMore(ms: seq<Message>, m: Message, s: State)
    requires DistinctThreads(ms + [m]) && Gathers(ms, s.space)
    ensures Gathers(ms + [m], Handle(true, 0, [], s, m).0.space)
    ensures m.Group? ==> m.thread !in s.space
  {
    hide Found, Filtered, DistinctThreads;
    var more, space := ms + [m], Handle(true, 0, [], s, m).0.space;
    assert more[|ms|] == m;
    assert forall i :: 0 <= i < |ms| ==> more[i] == ms[i];
    if m.Group? && m.thread in s.space {
      var i :| 0 <= i < |ms| && ms[i] == Group(m.thread, s.space[m.thread]);
      SameThreadTwice(more, i, |ms|);
      assert false;
    }
    forall t | t in space
      ensures Arrived(more, t, space[t])
    {
      if t in s.space {
        var i :| 0 <= i < |ms| && ms[i] == Group(t, s.space[t]);
        assert more[i] == Group(t, space[t]);
      } else {
        assert more[|ms|] == Group(t, space[t]);
      }
    }
  }

  lemma SameThreadTwice(ms: seq<Message>, i: nat, j: nat)
    requires i < j < |ms| && ms[i].Group? && ms[j].Group? && ms[i].thread == ms[j].thread
    ensures !DistinctThreads(ms)
  {
  }

  lemma {:induction false} AfterFacts(ms: seq<Message>)
    requires DistinctThreads(ms)
    ensures var s := After(ms);
            s.numTerminated == Ended(ms) && |s.space| == GroupCount(ms) && Gathers(ms, s.space)
  {
    hide Gathers, Found;
    if ms == [] {
      GathersNothing();
    } else {
      var front, m := ms[..|ms| - 1], ms[|ms| - 1];
      assert ms == front + [m];
      AfterFacts(front);
      GathersMore(front, m, After(front));
    }
  }

  lemma GathersNothing()
    ensures Gathers([], map[])
  {
  }

  /** Whatever comes, a thread is there once a group of it has come, with the objects of the first one. */
  lemma {:induction false} FirstGroupStays(ms: seq<Message>, t: ThreadName) returns (i: nat)
    requires exists j :: 0 <= j < |ms| && ms[j].Group? && ms[j].thread == t
    ensures i < |ms| && t in After(ms).space && ms[i] == Group(t, After(ms).space[t])
    ensures forall j :: 0 <= j < i && ms[j].Group? ==> ms[j].thread != t
  {
    hide Found;
    var n := |ms| - 1;
    var front := ms[..n];
    if j :| 0 <= j < n && ms[j].Group? && ms[j].thread == t {
      assert front[j] == ms[j];
      i := FirstGroupStays(front, t);
      assert forall k :: 0 <= k < n ==> front[k] == ms[k];
    } else {
      i := n;
      NoGroupNoThread(front, t);
    }
  }

  lemma {:induction false} NoGroupNoThread(ms: seq<Message>, t: ThreadName)
    requires forall j :: 0 <= j < |ms| && ms[j].Group? ==> ms[j].thread != t
    ensures t !in After(ms).space
  {
    hide Found;
    if ms != [] {
      NoGroupNoThread(ms[..|ms| - 1], t);
    }
  }

  /** Every message moves one of the two counts on. */
  lemma {:induction false} CountsRise(ms: seq<Message>, k: nat)
    requires k <= |ms| && Positive(ms)
    ensures GroupCount(ms[..k]) + Ended(ms[..k]) + (|ms| - k) <= GroupCount(ms) + Ended(ms)
    ensures GroupCount(ms[..k]) <= GroupCount(ms) && Ended(ms[..k]) <= Ended(ms)
  {
    if k == |ms| {
      assert ms[..k] == ms;
    } else {
      var front := ms[..|ms| - 1];
      CountsRise(front, k);
      assert front[..k] == ms[..k];
    }
  }

  /** A call that leaves n groups and n endings emits, unless it is a group at a leaf. */
  lemma EmitsWhenFull(leaf: bool, n: nat, samples: seq<Word>, ms: seq<Message>, i: nat)
    requires Increasing(samples) && i < |ms|
    ensures var s := After(ms[..i + 1]);
            EmitsAt(leaf, n, samples, ms, i).Some?
            <==> s.numTerminated == n && |s.space| == n && (leaf ==> ms[i].Ends?)
  {
    hide Found;
    assert ms[..i + 1][..i] == ms[..i];
  }

  /** Nothing is emitted before the last message, and by the last one if all groups are there. */
  lemma EmitsIff(leaf: bool, n: nat, samples: seq<Word>, ms: seq<Message>, i: nat)
    requires Increasing(samples) && DistinctThreads(ms) && Positive(ms) && i < |ms|
    requires GroupCount(ms) <= n && Ended(ms) == n
    ensures EmitsAt(leaf, n, samples, ms, i).Some?
            <==> i == |ms| - 1 && GroupCount(ms) == n && (leaf ==> ms[i].Ends?)
  {
    hide After, EmitsAt, Gathers, GroupCount, Ended;
    EmitsWhenFull(leaf, n, samples, ms, i);
    AfterFacts(ms[..i + 1]);
    CountsRise(ms, i + 1);
    if i == |ms| - 1 {
      assert ms[..i + 1] == ms;
    }
  }

  /** At a node above the leaves the linked objects are emitted once, by the last message whatever
      it is, and they are the groups of all threads. */
  lemma EmitsOnce(n: nat, samples: seq<Word>, ms: seq<Message>)
    requires Increasing(samples) && Complete(ms, n) && n >= 1
    ensures ms != [] && forall i: nat :: i < |ms| ==> (EmitsAt(false, n, samples, ms, i).Some? <==> i == |ms| - 1)
    ensures Gathers(ms, After(ms).space)
    ensures var last := EmitsAt(false, n, samples, ms, |ms| - 1);
            last == Some(if ms[|ms| - 1].Group? then After(ms).space else Found(samples, After(ms).space))
  {
    hide Found, Gathers;
    assert ms != [];
    forall i: nat | i < |ms|
      ensures EmitsAt(false, n, samples, ms, i).Some? <==> i == |ms| - 1
    {
      EmitsIff(false, n, samples, ms, i);
    }
    AfterFacts(ms);
    EmitsIff(false, n, samples, ms, |ms| - 1);
  }

  /** A leaf emits them once or never: once exactly if the last message is a count. */
  lemma LeafEmitsIffCountIsLast(n: nat, samples: seq<Word>, ms: seq<Message>)
    requires Increasing(samples) && Complete(ms, n) && ms != []
    ensures (exists i: nat :: i < |ms| && EmitsAt(true, n, samples, ms, i).Some?) <==> ms[|ms| - 1].Ends?
    ensures forall i: nat :: i < |ms| - 1 ==> EmitsAt(true, n, samples, ms, i).None?
  {
    hide Found, EmitsAt, DistinctThreads, Positive;
    forall i: nat | i < |ms|
      ensures EmitsAt(true, n, samples, ms, i).Some? <==> i == |ms| - 1 && ms[i].Ends?
    {
      EmitsIff(true, n, samples, ms, i);
    }
    assert ms[|ms| - 1].Ends? ==> EmitsAt(true, n, samples, ms, |ms| - 1).Some?;
  }
}
