/** Address counts merged up the tree (core/src/AddressBuffer.cpp,
    core/components/AddressAggregatorComponent.cpp). */
module AddressAggregation {
  import opened Extents
  import opened Gather
  import opened GatherExact
  import opened Options

  /** Counts are 64-bit unsigned and wrap around. */
  type Count = Word

  function Plus(x: Count, y: Count): Count {
    Wrap(x as int + y as int)
  }

  type Counts = map<nat, Count>

  function At(m: Counts, a: nat): Count {
    if a in m then m[a] else 0
  }

  /** Pointwise sum: what merging one buffer into another amounts to. */
  function Merged(m: Counts, buf: Counts): Counts {
    map a | a in m.Keys + buf.Keys :: Plus(At(m, a), At(buf, a))
  }

  /** The merge above the leaves goes through the single-address update, which drops address 0. */
  function MergedUp(m: Counts, buf: Counts): Counts {
    Merged(m, buf - {0})
  }

  /** Add to one address, or insert it. */
  function Bump(m: Counts, a: nat, c: Count): Counts {
    m[a := Plus(At(m, a), c)]
  }

  lemma PlusZero(c: Count)
    ensures Plus(c, 0) == c
  {
  }

  lemma MergedOneMore(m: Counts, done: Counts, a: nat, c: Count)
    requires a !in done
    ensures Bump(Merged(m, done), a, c) == Merged(m, done[a := c])
  {
    hide Plus;
    var l, r := Bump(Merged(m, done), a, c), Merged(m, done[a := c]);
    assert l.Keys == r.Keys;
    PlusZero(At(m, a));
    forall x | x in l ensures l[x] == r[x] {
      if x != a {
        assert At(done[a := c], x) == At(done, x);
      }
    }
  }

  lemma MergedNothing(m: Counts)
    ensures Merged(m, map[]) == m
  {
  }

  class AddressBuffer {
    var counts: Counts

    constructor ()
      ensures counts == map[]
    {
      counts := map[];
    }

    method UpdateOne(pc: nat, count: Count)
      modifies this
      ensures counts == if pc == 0 then old(counts) else Bump(old(counts), pc, count)
    {
      if pc == 0 {
        return;
      }
      if pc in counts {
        counts := counts[pc := Plus(counts[pc], count)];
      } else {
        counts := counts[pc := count];
      }
    }

    method UpdateFrom(buf: Counts)
      modifies this
      ensures counts == Merged(old(counts), buf)
    {
      hide Merged;
      var rest := buf.Keys;
      MergedNothing(counts);
      assert buf - rest == map[];
      while rest != {}
        invariant rest <= buf.Keys
        invariant counts == Merged(old(counts), buf - rest)
      {
        var a :| a in rest;
        MergedOneMore(old(counts), buf - rest, a, buf[a]);
        assert (buf - rest)[a := buf[a]] == buf - (rest - {a});
        if a in counts {
          counts := counts[a := Plus(counts[a], buf[a])];
        } else {
          counts := counts[a := buf[a]];
        }
        rest := rest - {a};
      }
      assert buf - rest == buf;
    }
  }

  // ---------------------------------------------------------------- the component

  /** What a leaf's aggregator hears: decoded data blobs, the local thread list, and the
      number of threads that have terminated. */
  datatype Event = Blob(buf: Counts) | ThreadsKnown(threads: nat) | Terminated(threads: nat)

  datatype LeafState = LeafState(buffer: Counts, threads: nat, terminated: nat)

  const NEW_LEAF := LeafState(map[], 0, 0)

  function LeafStep(s: LeafState, e: Event): (LeafState, Option<Counts>) {
    match e
    case Blob(buf) => (s.(buffer := Merged(s.buffer, buf)), None)
    case ThreadsKnown(n) => (s.(threads := n), None)
    case Terminated(n) =>
      var s' := s.(terminated := s.terminated + n);
      (s', if s'.terminated == s'.threads then Some(s'.buffer) else None)
  }

  class AddressAggregator {
    const role: Role
    const numChildren: nat
    const abuffer: AddressBuffer
    var threads: nat
    var numTerminated: nat
    var handledBuffers: nat

    constructor (role: Role, numChildren: nat)
      ensures this.role == role && this.numChildren == numChildren
      ensures fresh(abuffer) && Leaf() == NEW_LEAF && handledBuffers == 0
    {
      this.role, this.numChildren := role, numChildren;
      abuffer := new AddressBuffer();
      threads, numTerminated, handledBuffers := 0, 0, 0;
    }

    function Leaf(): LeafState
      reads this, abuffer
    {
      LeafState(abuffer.counts, threads, numTerminated)
    }

    /** Only a leaf decodes a blob; other nodes pass it on. */
    method BlobHandler(buf: Counts)
      modifies abuffer
      ensures role == LeafCP ==> (Leaf(), None) == LeafStep(old(Leaf()), Blob(buf))
      ensures role != LeafCP ==> Leaf() == old(Leaf())
    {
      if role == LeafCP {
        abuffer.UpdateFrom(buf);
      }
    }

    method ThreadNamesHandler(n: nat)
      modifies this`threads
      ensures (Leaf(), None) == LeafStep(old(Leaf()), ThreadsKnown(n))
    {
      threads := n;
    }

    method NumTerminatedHandler(n: nat) returns (out: Option<Counts>)
      modifies this`numTerminated
      ensures role == LeafCP ==> (Leaf(), out) == LeafStep(old(Leaf()), Terminated(n))
      ensures role != LeafCP ==> out == None && Leaf() == old(Leaf()).(terminated := old(numTerminated) + n)
    {
      numTerminated := numTerminated + n;
      out := if role == LeafCP && numTerminated == threads then Some(abuffer.counts) else None;
    }

    method AddressBufferHandler(buf: Counts) returns (out: Option<Counts>)
      modifies this`handledBuffers, abuffer
      ensures role != LeafCP ==>
                (abuffer.counts, handledBuffers, out)
                == Receive(MergedUp, numChildren, old(abuffer.counts), old(handledBuffers), buf)
      ensures role == LeafCP ==> out == None && abuffer.counts == MergedUp(old(abuffer.counts), buf)
    {
      hide Merged;
      handledBuffers := handledBuffers + 1;
      var rest := buf.Keys;
      MergedNothing(abuffer.counts);
      assert buf - rest - {0} == map[];
      while rest != {}
        invariant rest <= buf.Keys
        invariant abuffer.counts == MergedUp(old(abuffer.counts), buf - rest)
        modifies abuffer
      {
        var a :| a in rest;
        MergedUpOneMore(old(abuffer.counts), buf, rest, a);
        abuffer.UpdateOne(a, buf[a]);
        rest := rest - {a};
      }
      assert buf - rest == buf;
      out := if role != LeafCP && handledBuffers == numChildren then Some(abuffer.counts) else None;
    }
  }

  lemma MergedUpOneMore(m: Counts, buf: Counts, rest: set<nat>, a: nat)
    requires a in rest && a in buf
    ensures MergedUp(m, buf - (rest - {a}))
         == if a == 0 then MergedUp(m, buf - rest) else Bump(MergedUp(m, buf - rest), a, buf[a])
  {
    var done := buf - rest - {0};
    if a == 0 {
      assert buf - (rest - {a}) - {0} == done;
    } else {
      assert buf - (rest - {a}) - {0} == done[a := buf[a]];
      MergedOneMore(m, done, a, buf[a]);
    }
  }

  // ---------------------------------------------------------------- what a buffer stands for

  /** A buffer as a bag of addresses: each as many times as it was counted. */
  ghost function Bag(buf: Counts): multiset<nat> {
    if buf == map[] then multiset{}
    else
      var a :| a in buf;
      Bag(buf - {a})[a := buf[a]]
  }

  lemma {:induction false} BagAt(buf: Counts, x: nat)
    ensures Bag(buf)[x] == At(buf, x)
  {
    if buf != map[] {
      var a :| a in buf && Bag(buf) == Bag(buf - {a})[a := buf[a]];
      BagAt(buf - {a}, x);
    }
  }

  ghost function BagOf(events: seq<Event>): multiset<nat> {
    if events == [] then multiset{}
    else
      var e := events[|events| - 1];
      BagOf(events[..|events| - 1]) + if e.Blob? then Bag(e.buf) else multiset{}
  }

  /** On every address but 0 the buffer holds the bag's multiplicity, modulo 2^64. */
  ghost predicate Stands(v: Counts, m: multiset<nat>) {
    forall a: nat :: a != 0 ==> At(v, a) == Wrap(m[a])
  }

  ghost function StandsFor(): (Counts, multiset<nat>) -> bool {
    (v, m) => Stands(v, m)
  }

  lemma WrapAdd(x: nat, y: nat)
    ensures Wrap(Wrap(x) + Wrap(y)) == Wrap(x + y)
  {
  }

  lemma MergedAt(v: Counts, w: Counts, a: nat)
    ensures At(Merged(v, w), a) == Plus(At(v, a), At(w, a))
  {
  }

  lemma MergeStandsFor(v: Counts, x: multiset<nat>, w: Counts, y: multiset<nat>)
    requires Stands(v, x) && Stands(w, y)
    ensures Stands(MergedUp(v, w), x + y) && Stands(Merged(v, w), x + y)
  {
    hide Wrap, At, Merged, MergedUp;
    forall a: nat | a != 0
      ensures At(MergedUp(v, w), a) == Wrap((x + y)[a]) && At(Merged(v, w), a) == Wrap((x + y)[a])
    {
      MergeStandsAt(v, x, w, y, a);
    }
  }

  lemma MergeStandsAt(v: Counts, x: multiset<nat>, w: Counts, y: multiset<nat>, a: nat)
    requires a != 0 && At(v, a) == Wrap(x[a]) && At(w, a) == Wrap(y[a])
    ensures At(MergedUp(v, w), a) == Wrap((x + y)[a]) && At(Merged(v, w), a) == Wrap((x + y)[a])
  {
    hide Wrap, Merged, At;
    WrapAdd(x[a], y[a]);
    MergedAt(v, w, a);
    MergedAt(v, w - {0}, a);
    AtWithoutZero(w, a);
    assert (x + y)[a] == x[a] + y[a];
    assert Plus(At(v, a), At(w, a)) == Wrap(x[a] + y[a]);
  }

  lemma AtWithoutZero(w: Counts, a: nat)
    requires a != 0
    ensures At(w - {0}, a) == At(w, a)
  {
  }

  lemma EmptyStands()
    ensures Stands(map[], multiset{})
  {
  }

  lemma BagStands(buf: Counts)
    ensures Stands(buf, Bag(buf))
  {
    forall a: nat ensures Bag(buf)[a] == At(buf, a) {
      BagAt(buf, a);
    }
  }

  lemma MergeRespects()
    ensures Respects(MergedUp, StandsFor(), map[])
  {
    forall v: Counts, x: multiset<nat>, w: Counts, y: multiset<nat> | StandsFor()(v, x) && StandsFor()(w, y)
      ensures StandsFor()(MergedUp(v, w), x + y)
    {
      MergeStandsFor(v, x, w, y);
    }
  }

  // ---------------------------------------------------------------- leaves

  function LeafAfter(events: seq<Event>): LeafState {
    if events == [] then NEW_LEAF
    else LeafStep(LeafAfter(events[..|events| - 1]), events[|events| - 1]).0
  }

  function LeafTrace(events: seq<Event>): (t: seq<Option<Counts>>)
    ensures |t| == |events|
  {
    seq(|events|, k requires 0 <= k < |events| => LeafStep(LeafAfter(events[..k]), events[k]).1)
  }

  /** Threads reported terminated, and threads known, after the given events. */
  ghost function Ended(events: seq<Event>): nat {
    if events == [] then 0
    else
      var e := events[|events| - 1];
      Ended(events[..|events| - 1]) + if e.Terminated? then e.threads else 0
  }

  ghost function Known(events: seq<Event>): nat {
    if events == [] then 0
    else
      var e := events[|events| - 1];
      if e.ThreadsKnown? then e.threads else Known(events[..|events| - 1])
  }

  ghost predicate Ready(events: seq<Event>, k: nat)
    requires k < |events|
  {
    events[k].Terminated? && Ended(events[..k + 1]) == Known(events[..k + 1])
  }

  /** All known threads have terminated at the leaf's last event and not before. */
  ghost predicate ReadyAtEndOnly(events: seq<Event>) {
    events != [] && Ready(events, |events| - 1) && forall k: nat :: k < |events| - 1 ==> !Ready(events, k)
  }

  lemma {:induction false} LeafFacts(events: seq<Event>)
    ensures LeafAfter(events).threads == Known(events) && LeafAfter(events).terminated == Ended(events)
    ensures Stands(LeafAfter(events).buffer, BagOf(events))
  {
    hide Merged, Stands, Bag;
    if events == [] {
      assert Stands(map[], multiset{}) by { EmptyStands(); }
    } else {
      var front, e := events[..|events| - 1], events[|events| - 1];
      LeafFacts(front);
      if e.Blob? {
        BagStands(e.buf);
        MergeStandsFor(LeafAfter(front).buffer, BagOf(front), e.buf, Bag(e.buf));
      } else {
        assert BagOf(front) + multiset{} == BagOf(front);
      }
    }
  }

  lemma TraceAt(events: seq<Event>, k: nat)
    requires k < |events|
    ensures LeafTrace(events)[k].Some? <==> Ready(events, k)
    ensures Ready(events, k) ==> Stands(LeafTrace(events)[k].value, BagOf(events[..k + 1]))
  {
    LeafFacts(events[..k + 1]);
    LeafFacts(events[..k]);
    assert events[..k + 1][..k] == events[..k];
  }

  /** A leaf emits its buffer exactly once, as its last act and with every blob merged in, if and
      only if its threads are all reported terminated at its last event and not before. */
  lemma LeafEmitsOnceIff(events: seq<Event>)
    ensures OnlyLastEmits(LeafTrace(events)) <==> ReadyAtEndOnly(events)
    ensures GoodTrace(StandsFor(), BagOf(events), LeafTrace(events)) <==> ReadyAtEndOnly(events)
  {
    forall k: nat | k < |events| ensures LeafTrace(events)[k].Some? <==> Ready(events, k) {
      TraceAt(events, k);
    }
    if events != [] {
      TraceAt(events, |events| - 1);
      assert events[..|events|] == events;
    }
  }

  // ---------------------------------------------------------------- the whole tree

  /** What all the leaves' blobs counted for one address. */
  ghost function LeafTotal(events: seq<Event>, a: nat): nat {
    if events == [] then 0
    else
      var e := events[|events| - 1];
      LeafTotal(events[..|events| - 1], a) + if e.Blob? then At(e.buf, a) else 0
  }

  ghost function Total(ls: seq<seq<Event>>, a: nat): nat {
    if ls == [] then 0 else LeafTotal(ls[0], a) + Total(ls[1..], a)
  }

  lemma {:induction false} LeafTotalIsBag(events: seq<Event>, a: nat)
    ensures BagOf(events)[a] == LeafTotal(events, a)
  {
    if events != [] {
      LeafTotalIsBag(events[..|events| - 1], a);
      if events[|events| - 1].Blob? {
        BagAt(events[|events| - 1].buf, a);
      }
    }
  }

  lemma {:induction false} TotalIsSum(ls: seq<seq<Event>>, a: nat)
    ensures SumItems(BagOf, ls)[a] == Total(ls, a)
  {
    if ls != [] {
      LeafTotalIsBag(ls[0], a);
      TotalIsSum(ls[1..], a);
    }
  }

  /** For every process tree and every arrival order, the front end emits at most one buffer; on
      every non-zero address it holds the sum over all blobs of all leaves, modulo 2^64; every
      node has then emitted exactly once; and a run that cannot continue has emitted. */
  lemma BufferAtFrontEnd(t: Tree<seq<Event>>, moves: seq<Move>)
    requires Proper(t) && forall l :: l in Leaves(t) ==> ReadyAtEndOnly(l)
    ensures var end := Run(MergedUp, Start(BagOf, LeafTrace, map[], t), moves);
            && |end.sent| <= 1
            && (end.sent != [] ==>
                  && (forall a: nat :: a != 0 ==> At(end.sent[0], a) == Wrap(Total(Leaves(t), a)))
                  && AllSentOnce(end) && LeavesDone(end))
            && (Stuck(MergedUp, end) ==> end.sent != [])
  {
    MergeRespects();
    forall l | l in Leaves(t) ensures GoodTrace(StandsFor(), BagOf(l), LeafTrace(l)) {
      LeafEmitsOnceIff(l);
    }
    FrontEnd(MergedUp, StandsFor(), map[], BagOf, LeafTrace, t, moves);
    forall a: nat ensures SumItems(BagOf, Leaves(t))[a] == Total(Leaves(t), a) {
      TotalIsSum(Leaves(t), a);
    }
  }

  /** For every process tree: every schedule gives a single complete buffer, after every leaf is done,
      if and only if at every leaf the threads are all reported terminated at its last event and not
      before. */
  lemma DeliversIffReadyAtEndOnly(t: Tree<seq<Event>>)
    requires Proper(t)
    ensures AllDeliver(MergedUp, StandsFor(), SumItems(BagOf, Leaves(t)), Start(BagOf, LeafTrace, map[], t))
            <==> forall l :: l in Leaves(t) ==> ReadyAtEndOnly(l)
  {
    hide AllDeliver, ReadyAtEndOnly, Proper, Respects;
    MergeRespects();
    forall l: seq<Event>
      ensures OnlyLastEmits(LeafTrace(l)) <==> ReadyAtEndOnly(l)
      ensures OnlyLastEmits(LeafTrace(l)) ==> GoodTrace(StandsFor(), BagOf(l), LeafTrace(l))
    {
      LeafEmitsOnceIff(l);
    }
    DeliversIff(MergedUp, StandsFor(), map[], BagOf, LeafTrace, t);
  }

  /** A node above the leaves has nothing at address 0. */
  ghost predicate NothingAtZero(net: Net<Counts, nat>) {
    net.Node? && 0 !in net.acc && forall v :: v in net.sent ==> 0 !in v
  }

  lemma {:induction false} ZeroIsDropped(net: Net<Counts, nat>, moves: seq<Move>)
    requires NothingAtZero(net)
    ensures NothingAtZero(Run(MergedUp, net, moves))
    decreases |moves|
  {
    if moves != [] {
      ZeroStaysOut(net, moves[0]);
      ZeroIsDropped(Step(MergedUp, net, moves[0]), moves[1..]);
    }
  }

  lemma ZeroStaysOut(net: Net<Counts, nat>, m: Move)
    requires NothingAtZero(net)
    ensures NothingAtZero(Step(MergedUp, net, m))
  {
  }

  /** Samples at address 0, which a leaf still counts, are gone above the leaves. */
  lemma NoZeroAtFrontEnd(t: Tree<seq<Event>>, moves: seq<Move>)
    requires t.Fork?
    ensures var end := Run(MergedUp, Start(BagOf, LeafTrace, map[], t), moves);
            forall v :: v in end.sent ==> 0 !in v
  {
    ZeroIsDropped(Start(BagOf, LeafTrace, map[], t), moves);
  }
}
