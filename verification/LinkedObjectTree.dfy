/** The linked objects of a whole tree: when they reach the front end, and what arrives there
    (core/components/LinkedObjectComponent.cpp). */
module LinkedObjectTree {
  import opened Extents
  import opened LinkedObjects
  import opened Options
  import opened Sequences
  import opened ThreadEvents

  type Samples = s: seq<Word> | Increasing(s)

  /** The messages every node handled. Only leaves have samples to filter by. */
  datatype History =
    | LeafRun(n: nat, samples: Samples, messages: seq<Message>)
    | NodeRun(kids: seq<History>, messages: seq<Message>)

  ghost function Threads(h: History): nat {
    match h
    case LeafRun(n, _, _) => n
    case NodeRun(kids, _) => ThreadsOf(kids)
  }

  ghost function ThreadsOf(kids: seq<History>): nat {
    if kids == [] then 0 else ThreadsOf(kids[..|kids| - 1]) + Threads(kids[|kids| - 1])
  }

  /** What the last message makes a node emit. */
  ghost function Output(leaf: bool, n: nat, samples: Samples, ms: seq<Message>): Option<AddressSpace> {
    if ms == [] then None else EmitsAt(leaf, n, samples, ms, |ms| - 1)
  }

  ghost function Sent(h: History): Option<AddressSpace> {
    match h
    case LeafRun(n, samples, ms) => Output(true, n, samples, ms)
    case NodeRun(_, ms) => Output(false, Threads(h), [], ms)
  }

  /** Every thread below the node with its objects as its leaf filters them. */
  ghost function Wanted(h: History): AddressSpace {
    match h
    case LeafRun(_, samples, ms) =>
      var space := After(ms).space;
      map t | t in space :: Filtered(samples, space[t])
    case NodeRun(kids, _) => WantedOf(kids)
  }

  ghost function WantedOf(kids: seq<History>): AddressSpace {
    if kids == [] then map[] else WantedOf(kids[..|kids| - 1]) + Wanted(kids[|kids| - 1])
  }

  ghost predicate SentBy(h: History, t: ThreadName, objects: seq<LinkedObject>) {
    Sent(h).Some? && t in Sent(h).value && Sent(h).value[t] == objects
  }

  ghost predicate SentBySome(kids: seq<History>, t: ThreadName, objects: seq<LinkedObject>) {
    exists k :: 0 <= k < |kids| && SentBy(kids[k], t, objects)
  }

  ghost predicate NoSharedThread(kids: seq<History>) {
    forall i, j :: 0 <= i < j < |kids| ==> Wanted(kids[i]).Keys !! Wanted(kids[j]).Keys
  }

  /** A leaf hears of every thread once; the groups a node handles are those its children emit, in
      any order, and its counts add up to the threads below it. */
  ghost predicate Consistent(h: History) {
    match h
    case LeafRun(n, samples, ms) => n >= 1 && Complete(ms, n)
    case NodeRun(kids, ms) =>
      && kids != [] && NoSharedThread(kids) && (forall k :: 0 <= k < |kids| ==> Consistent(kids[k]))
      && DistinctThreads(ms) && Positive(ms) && Ended(ms) == Threads(h)
      && forall t, objects :: Arrived(ms, t, objects) <==> SentBySome(kids, t, objects)
  }

  /** Every group has an object with a sample in its range, or there are no samples and it has one. */
  ghost predicate AllKeepSomething(samples: Samples, ms: seq<Message>) {
    forall i :: 0 <= i < |ms| && ms[i].Group? ==> SomeToKeep(samples, ms[i].objects)
  }

  /** At every leaf a count comes last and every thread keeps an object. */
  ghost predicate EveryLeafComplete(h: History) {
    match h
    case LeafRun(_, samples, ms) => ms != [] && ms[|ms| - 1].Ends? && AllKeepSomething(samples, ms)
    case NodeRun(kids, _) => forall k :: 0 <= k < |kids| ==> EveryLeafComplete(kids[k])
  }

  // ---------------------------------------------------------------- merging children

  lemma {:induction false} WantedOfFrom(kids: seq<History>, t: ThreadName) returns (k: nat)
    requires t in WantedOf(kids)
    ensures k < |kids| && t in Wanted(kids[k]) && WantedOf(kids)[t] == Wanted(kids[k])[t]
  {
    k := |kids| - 1;
    if t !in Wanted(kids[k]) {
      k := WantedOfFrom(kids[..k], t);
    }
  }

  lemma {:induction false} WantedOfHas(kids: seq<History>, k: nat, t: ThreadName)
    requires k < |kids| && NoSharedThread(kids) && t in Wanted(kids[k])
    ensures t in WantedOf(kids) && WantedOf(kids)[t] == Wanted(kids[k])[t]
  {
    var last := |kids| - 1;
    if k < last {
      assert t !in Wanted(kids[last]).Keys;
      WantedOfHas(kids[..last], k, t);
    }
  }

  lemma {:induction false} WantedCount(h: History)
    requires Consistent(h)
    ensures |Wanted(h)| == Threads(h) >= 1
    decreases h
  {
    match h
    case LeafRun(n, samples, ms) =>
      AfterFacts(ms);
      assert Wanted(h).Keys == After(ms).space.Keys;
    case NodeRun(kids, ms) =>
      WantedOfCount(kids);
  }

  lemma {:induction false} WantedOfCount(kids: seq<History>)
    requires NoSharedThread(kids) && forall k :: 0 <= k < |kids| ==> Consistent(kids[k])
    ensures |WantedOf(kids)| == ThreadsOf(kids) >= |kids|
    decreases kids
  {
    if kids != [] {
      var last := |kids| - 1;
      WantedCount(kids[last]);
      WantedOfCount(kids[..last]);
      var front, back := WantedOf(kids[..last]), Wanted(kids[last]);
      forall t | t in front
        ensures t !in back
      {
        var k := WantedOfFrom(kids[..last], t);
        assert t in Wanted(kids[k]).Keys;
      }
      assert WantedOf(kids).Keys == front.Keys + back.Keys && front.Keys !! back.Keys;
    }
  }

  // ---------------------------------------------------------------- one node

  lemma {:induction false} NoSamplesKeepAll(objects: seq<LinkedObject>)
    ensures Filtered([], objects) == objects
  {
    if objects != [] {
      NoSamplesKeepAll(objects[..|objects| - 1]);
    }
  }

  lemma FoundWithoutSamples(space: AddressSpace)
    requires forall t :: t in space ==> space[t] != []
    ensures Found([], space) == space
  {
    forall t | t in space
      ensures Filtered([], space[t]) == space[t]
    {
      NoSamplesKeepAll(space[t]);
    }
  }

  /** What a node emits with its last message. */
  lemma LastOutput(leaf: bool, n: nat, samples: Samples, ms: seq<Message>)
    requires Output(leaf, n, samples, ms).Some?
    ensures Output(leaf, n, samples, ms).value
            == if ms[|ms| - 1].Group? then After(ms).space else Found(samples, After(ms).space)
  {
    hide Found;
  }

  /** Part of the wanted map, with no empty group. */
  ghost predicate PartOf(space: AddressSpace, wanted: AddressSpace) {
    forall t :: t in space ==> space[t] != [] && t in wanted && space[t] == wanted[t]
  }

  ghost predicate SentPart(h: History) {
    Sent(h).Some? ==> PartOf(Sent(h).value, Wanted(h))
  }

  lemma PartIsWhole(space: AddressSpace, wanted: AddressSpace)
    requires PartOf(space, wanted)
    ensures |space| <= |wanted|
    ensures |space| == |wanted| <==> space == wanted
  {
    SubsetCard(space.Keys, wanted.Keys);
    if |space| == |wanted| {
      assert space.Keys == wanted.Keys;
    }
  }

  lemma SubsetCard<T>(a: set<T>, b: set<T>)
    requires a <= b
    ensures |a| <= |b| && (|a| == |b| ==> a == b)
  {
    assert b == a + (b - a);
    assert |b - a| == 0 ==> b - a == {};
  }

  ghost predicate NoneEmpty(space: AddressSpace) {
    forall t :: t in space ==> space[t] != []
  }

  /** On the groups gathered: every thread keeps an object exactly if every group has one to keep. */
  lemma KeepSomethingIff(h: History)
    requires h.LeafRun? && Consistent(h)
    ensures AllKeepSomething(h.samples, h.messages) <==> NoneEmpty(Wanted(h))
  {
    hide After, Filtered, GroupCount, Ended, Positive, SomeToKeep, Found;
    var ms, space, wanted := h.messages, After(h.messages).space, Wanted(h);
    AfterFacts(ms);
    assert wanted.Keys == space.Keys;
    forall t | t in wanted
      ensures wanted[t] != [] <==> SomeToKeep(h.samples, space[t])
    {
      LeftIff(h.samples, space[t]);
    }
    if AllKeepSomething(h.samples, ms) {
      forall t | t in wanted
        ensures wanted[t] != []
      {
        assert Arrived(ms, t, space[t]);
      }
    }
    if NoneEmpty(wanted) {
      forall i | 0 <= i < |ms| && ms[i].Group?
        ensures SomeToKeep(h.samples, ms[i].objects)
      {
        assert ms[i].thread in wanted;
      }
    }
  }

  lemma LeafSends(h: History)
    requires h.LeafRun? && Consistent(h)
    ensures SentPart(h)
    ensures Sent(h) == Some(Wanted(h)) <==> EveryLeafComplete(h)
  {
    hide After, EmitsAt, Gathers, GroupCount, Ended, Filtered, DistinctThreads, Positive, AllKeepSomething;
    KeepSomethingIff(h);
    var LeafRun(n, samples, ms) := h;
    if ms == [] {
      NothingCounted();
    }
    EmitsIff(true, n, samples, ms, |ms| - 1);
    if Sent(h).Some? {
      LastOutput(true, n, samples, ms);
      var found := Found(samples, After(ms).space);
      assert found.Keys <= Wanted(h).Keys;
      if EveryLeafComplete(h) {
        assert found.Keys == Wanted(h).Keys;
        assert found == Wanted(h);
      }
    }
  }

  lemma NothingCounted()
    ensures GroupCount([]) == 0 && Ended([]) == 0
  {
  }

  lemma ConsistentNode(h: History)
    requires h.NodeRun? && Consistent(h)
    ensures NoSharedThread(h.kids) && forall k :: 0 <= k < |h.kids| ==> Consistent(h.kids[k])
  {
  }

  lemma GatheredFrom(h: History, t: ThreadName) returns (k: nat)
    requires h.NodeRun? && Consistent(h) && t in After(h.messages).space
    ensures k < |h.kids| && SentBy(h.kids[k], t, After(h.messages).space[t])
  {
    hide After, GroupCount, Ended, SentBy, Threads, NoSharedThread;
    AfterFacts(h.messages);
    var objects := After(h.messages).space[t];
    assert Arrived(h.messages, t, objects);
    k :| 0 <= k < |h.kids| && SentBy(h.kids[k], t, objects);
  }

  lemma GatheredHas(h: History, k: nat, t: ThreadName, objects: seq<LinkedObject>)
    requires h.NodeRun? && Consistent(h) && k < |h.kids| && SentBy(h.kids[k], t, objects)
    ensures t in After(h.messages).space && After(h.messages).space[t] == objects
  {
    hide After, GroupCount, Ended, SentBy, Threads, NoSharedThread;
    AfterFacts(h.messages);
    assert SentBySome(h.kids, t, objects);
    assert Arrived(h.messages, t, objects);
  }

  /** The groups a node has gathered are its children's. */
  lemma GatheredPart(h: History)
    requires h.NodeRun? && Consistent(h) && forall k :: 0 <= k < |h.kids| ==> SentPart(h.kids[k])
    ensures PartOf(After(h.messages).space, Wanted(h))
  {
    hide After, Consistent, Sent, Wanted, NoSharedThread;
    ConsistentNode(h);
    var space := After(h.messages).space;
    forall t | t in space
      ensures space[t] != [] && t in WantedOf(h.kids) && space[t] == WantedOf(h.kids)[t]
    {
      var k := GatheredFrom(h, t);
      WantedOfHas(h.kids, k, t);
    }
    NodeWanted(h);
  }

  lemma NodeWanted(h: History)
    requires h.NodeRun?
    ensures Wanted(h) == WantedOf(h.kids) && Threads(h) == ThreadsOf(h.kids)
  {
  }

  /** All groups are there exactly if every child sends all it should. */
  lemma GatheredAllIff(h: History)
    requires h.NodeRun? && Consistent(h) && forall k :: 0 <= k < |h.kids| ==> SentPart(h.kids[k])
    ensures After(h.messages).space == Wanted(h)
            <==> forall k :: 0 <= k < |h.kids| ==> Sent(h.kids[k]) == Some(Wanted(h.kids[k]))
  {
    hide After, Consistent, Sent, Wanted, NoSharedThread, SentPart;
    NodeWanted(h);
    GatheredPart(h);
    var space := After(h.messages).space;
    if space == Wanted(h) {
      forall k | 0 <= k < |h.kids|
        ensures Sent(h.kids[k]) == Some(Wanted(h.kids[k]))
      {
        GatheredFromKid(h, k);
      }
    }
    if forall k :: 0 <= k < |h.kids| ==> Sent(h.kids[k]) == Some(Wanted(h.kids[k])) {
      forall t | t in Wanted(h)
        ensures t in space
      {
        var k := WantedOfFrom(h.kids, t);
        GatheredHas(h, k, t, Wanted(h.kids[k])[t]);
      }
      assert space.Keys == Wanted(h).Keys;
      assert space == Wanted(h);
    }
  }

  lemma GatheredFromKid(h: History, k: nat)
    requires h.NodeRun? && Consistent(h) && forall l :: 0 <= l < |h.kids| ==> SentPart(h.kids[l])
    requires After(h.messages).space == Wanted(h) && k < |h.kids|
    ensures Sent(h.kids[k]) == Some(Wanted(h.kids[k]))
  {
    hide After, Consistent, Sent, Wanted;
    ConsistentNode(h);
    NodeWanted(h);
    var space, kid := After(h.messages).space, h.kids[k];
    forall t | t in Wanted(kid)
      ensures SentBy(kid, t, Wanted(kid)[t])
    {
      WantedOfHas(h.kids, k, t);
      var l := GatheredFrom(h, t);
      assert t in Wanted(h.kids[l]).Keys && t in Wanted(kid).Keys;
      assert l == k;
    }
    WantedCount(kid);
    assert Wanted(kid).Keys != {};
    var t :| t in Wanted(kid).Keys;
    assert SentBy(kid, t, Wanted(kid)[t]);
    assert SentPart(kid);
    assert Sent(kid).value.Keys == Wanted(kid).Keys;
    assert Sent(kid).value == Wanted(kid);
  }

  /** A node emits exactly if all groups are there, and then it emits them all. */
  lemma NodeSends(h: History)
    requires h.NodeRun? && Consistent(h) && forall k :: 0 <= k < |h.kids| ==> SentPart(h.kids[k])
    ensures SentPart(h)
    ensures Sent(h).Some? <==> After(h.messages).space == Wanted(h)
    ensures Sent(h).Some? ==> Sent(h) == Some(Wanted(h))
  {
    hide After, EmitsAt, GroupCount, Ended, Wanted, Found, Threads;
    var ms, space := h.messages, After(h.messages).space;
    AfterFacts(ms);
    GatheredPart(h);
    WantedCount(h);
    PartIsWhole(space, Wanted(h));
    if ms == [] {
      NothingCounted();
    }
    EmitsIff(false, Threads(h), [], ms, |ms| - 1);
    if Sent(h).Some? {
      LastOutput(false, Threads(h), [], ms);
      FoundWithoutSamples(space);
    }
  }

  /** In every tree: a node emits all threads' filtered objects exactly if at every leaf below it a
      count comes last and every thread keeps an object; and above the leaves it emits nothing
      otherwise. */
  lemma {:induction false} ReachesFrontEndIff(h: History)
    requires Consistent(h)
    ensures SentPart(h)
    ensures Sent(h) == Some(Wanted(h)) <==> EveryLeafComplete(h)
    ensures h.NodeRun? ==> (Sent(h).Some? <==> EveryLeafComplete(h))
    decreases h
  {
    hide Sent, Wanted, SentPart;
    match h
    case LeafRun(_, _, _) => LeafSends(h);
    case NodeRun(kids, _) =>
      forall k | 0 <= k < |kids|
        ensures SentPart(kids[k]) && (Sent(kids[k]) == Some(Wanted(kids[k])) <==> EveryLeafComplete(kids[k]))
      {
        ReachesFrontEndIff(kids[k]);
      }
      NodeSends(h);
      GatheredAllIff(h);
  }

  /** No node emits before its last message. */
  lemma OnlyTheLastEmits(h: History, i: nat)
    requires h.NodeRun? && Consistent(h) && i + 1 < |h.messages|
    ensures EmitsAt(false, Threads(h), [], h.messages, i).None?
  {
    hide Sent, Wanted, EmitsAt, GroupCount, Ended, Threads, SentPart;
    forall k | 0 <= k < |h.kids|
      ensures SentPart(h.kids[k])
    {
      ReachesFrontEndIff(h.kids[k]);
    }
    AfterFacts(h.messages);
    GatheredPart(h);
    WantedCount(h);
    PartIsWhole(After(h.messages).space, Wanted(h));
    EmitsIff(false, Threads(h), [], h.messages, i);
  }
}
