/** When a reduction tree delivers: the condition on the leaves that is enough for every schedule is
    also needed. */
module GatherExact {
  import opened Gather
  import opened Options

  // ---------------------------------------------------------------- the statement

  ghost predicate CanEmit<V, E>(merge: (V, V) -> V, net: Net<V, E>) {
    exists more :: Run(merge, net, more).sent != []
  }

  /** What is wanted of the root after any schedule: one emission at most, that one complete, after
      every leaf is done and with every node having emitted once; and one that can still come. */
  ghost predicate Delivers<V, E>(merge: (V, V) -> V, rel: (V, multiset<E>) -> bool, all: multiset<E>, end: Net<V, E>) {
    && |end.sent| <= 1
    && (end.sent != [] ==> rel(end.sent[0], all) && LeavesDone(end) && AllSentOnce(end))
    && CanEmit(merge, end)
  }

  // ---------------------------------------------------------------- schedules

  lemma {:induction false} RunConcat<V, E>(merge: (V, V) -> V, net: Net<V, E>, a: seq<Move>, b: seq<Move>)
    ensures Run(merge, net, a + b) == Run(merge, Run(merge, net, a), b)
    decreases |a|
  {
    if a == [] {
      assert a + b == b;
    } else {
      assert (a + b)[1..] == a[1..] + b;
      RunConcat(merge, Step(merge, net, a[0]), a[1..], b);
    }
  }

  lemma RunOne<V, E>(merge: (V, V) -> V, net: Net<V, E>, m: Move)
    ensures Run(merge, net, [m]) == Step(merge, net, m)
  {
    assert [m][1..] == [];
  }

  ghost function Downs(i: nat, moves: seq<Move>): seq<Move> {
    if moves == [] then [] else [Down(i, moves[0])] + Downs(i, moves[1..])
  }

  /** A schedule of a child is one of its parent that touches nothing else. */
  lemma {:induction false} RunDowns<V, E>(merge: (V, V) -> V, net: Net<V, E>, i: nat, moves: seq<Move>)
    requires net.Node? && i < |net.kids|
    ensures Run(merge, net, Downs(i, moves)) == net.(kids := net.kids[i := Run(merge, net.kids[i], moves)])
    decreases |moves|
  {
    if moves == [] {
      assert net.kids[i := net.kids[i]] == net.kids;
    } else {
      var next := Step(merge, net, Down(i, moves[0]));
      assert Downs(i, moves)[1..] == Downs(i, moves[1..]);
      RunDowns(merge, next, i, moves[1..]);
      var last := Run(merge, net.kids[i], moves);
      assert next.kids[i := last] == net.kids[i := last];
    }
  }

  /** From a state in which the invariant holds, some schedule makes the root emit. */
  lemma {:induction false} Extend<V(!new), E(!new)>(merge: (V, V) -> V, rel: (V, multiset<E>) -> bool, zero: V,
                                                    net: Net<V, E>)
    requires Respects(merge, rel, zero) && Inv(rel, net)
    ensures CanEmit(merge, net)
    decreases Weight(net)
  {
    hide Respects, Inv, Step;
    if net.sent != [] {
      assert Run(merge, net, []).sent != [];
    } else {
      var m := SomeMove(merge, rel, net);
      var next := Step(merge, net, m);
      StepWeight(merge, rel, net, m);
      InvStep(merge, rel, zero, net, m);
      Extend(merge, rel, zero, next);
      var more :| Run(merge, next, more).sent != [];
      assert ([m] + more)[1..] == more;
      assert Run(merge, net, [m] + more).sent != [];
    }
  }

  // ---------------------------------------------------------------- leaves that never emit

  ghost predicate EmitsSome<V>(trace: seq<Option<V>>) {
    exists k :: 0 <= k < |trace| && trace[k].Some?
  }

  /** Leaves follow their traces. */
  ghost predicate Follows<L, V, E>(trace: L -> seq<Option<V>>, t: Tree<L>, net: Net<V, E>) {
    match t
    case Tip(l) => net.Leaf? && net.trace == trace(l) && (net.sent != [] ==> EmitsSome(trace(l)))
    case Fork(kids) =>
      net.Node? && |net.kids| == |kids| && forall i :: 0 <= i < |kids| ==> Follows(trace, kids[i], net.kids[i])
  }

  lemma {:induction false} StartFollows<L, V, E>(items: L -> multiset<E>, trace: L -> seq<Option<V>>, zero: V,
                                                 t: Tree<L>)
    ensures Follows(trace, t, Start(items, trace, zero, t))
  {
    if t.Fork? {
      forall i | 0 <= i < |t.kids|
        ensures Follows(trace, t.kids[i], Start(items, trace, zero, t.kids[i]))
      {
        StartFollows(items, trace, zero, t.kids[i]);
      }
    }
  }

  lemma FollowsIgnoresTaken<L, V, E>(trace: L -> seq<Option<V>>, t: Tree<L>, net: Net<V, E>, n: nat)
    requires Follows(trace, t, net)
    ensures Follows(trace, t, net.(taken := n))
  {
  }

  lemma {:induction false} StepFollows<L, V, E>(merge: (V, V) -> V, trace: L -> seq<Option<V>>, t: Tree<L>,
                                                net: Net<V, E>, m: Move)
    requires Follows(trace, t, net)
    ensures Follows(trace, t, Step(merge, net, m))
    decreases m
  {
    match m
    case Act =>
    case Take(i) =>
      if net.Node? && i < |net.kids| {
        FollowsIgnoresTaken(trace, t.kids[i], net.kids[i], net.kids[i].taken + 1);
      }
    case Down(i, k) =>
      if net.Node? && i < |net.kids| {
        StepFollows(merge, trace, t.kids[i], net.kids[i], k);
      }
  }

  lemma {:induction false} RunFollows<L, V, E>(merge: (V, V) -> V, trace: L -> seq<Option<V>>, t: Tree<L>,
                                               net: Net<V, E>, moves: seq<Move>)
    requires Follows(trace, t, net)
    ensures Follows(trace, t, Run(merge, net, moves))
    decreases |moves|
  {
    if moves != [] {
      StepFollows(merge, trace, t, net, moves[0]);
      RunFollows(merge, trace, t, Step(merge, net, moves[0]), moves[1..]);
    }
  }

  lemma {:induction false} LeafOfKid<L>(kids: seq<Tree<L>>, l: L) returns (i: nat)
    requires l in LeavesOf(kids)
    ensures i < |kids| && l in Leaves(kids[i])
  {
    if l in Leaves(kids[0]) {
      i := 0;
    } else {
      var j := LeafOfKid(kids[1..], l);
      i := j + 1;
    }
  }

  lemma {:induction false} SentOnceEmits<L, V, E>(trace: L -> seq<Option<V>>, t: Tree<L>, net: Net<V, E>, l: L)
    requires Follows(trace, t, net) && AllSentOnce(net) && l in Leaves(t)
    ensures EmitsSome(trace(l))
  {
    if t.Fork? {
      var i := LeafOfKid(t.kids, l);
      SentOnceEmits(trace, t.kids[i], net.kids[i], l);
    }
  }

  // ---------------------------------------------------------------- leaves that emit early

  ghost function Acts(n: nat): seq<Move> {
    seq(n, _ => Act)
  }

  lemma {:induction false} RunActs<V, E>(merge: (V, V) -> V, net: Net<V, E>, k: nat)
    requires net.Leaf? && net.pos + k < |net.trace| && net.trace[net.pos + k].Some?
    requires forall j :: net.pos <= j < net.pos + k ==> net.trace[j].None?
    ensures Run(merge, net, Acts(k + 1))
            == net.(pos := net.pos + k + 1, sent := net.sent + [net.trace[net.pos + k].value])
    decreases k
  {
    var next := Step(merge, net, Act);
    assert Acts(k + 1)[1..] == Acts(k);
    if k > 0 {
      RunActs(merge, next, k - 1);
    }
  }

  lemma {:induction false} FirstEmission<V>(trace: seq<Option<V>>) returns (k: nat)
    requires EmitsSome(trace)
    ensures k < |trace| && trace[k].Some? && forall j :: 0 <= j < k ==> trace[j].None?
  {
    if trace[0].Some? {
      k := 0;
    } else {
      var i :| 0 <= i < |trace| && trace[i].Some?;
      assert trace[1..][i - 1].Some?;
      var j := FirstEmission(trace[1..]);
      k := j + 1;
      assert forall m :: 1 <= m < k ==> trace[m] == trace[1..][m - 1];
    }
  }

  /** If the leaves are all done then each has emitted in its last call alone. */
  ghost predicate DoneMeansLast<L, V, E>(trace: L -> seq<Option<V>>, t: Tree<L>, net: Net<V, E>) {
    LeavesDone(net) ==> forall l :: l in Leaves(t) ==> OnlyLastEmits(trace(l))
  }

  /** Let every leaf run up to its first message only: that is enough for the root to emit. */
  lemma {:induction false} EarlyRun<L, V, E>(merge: (V, V) -> V, items: L -> multiset<E>, trace: L -> seq<Option<V>>,
                                             zero: V, t: Tree<L>)
    returns (moves: seq<Move>)
    requires Proper(t) && forall l :: l in Leaves(t) ==> EmitsSome(trace(l))
    ensures var end := Run(merge, Start(items, trace, zero, t), moves);
            |end.sent| == 1 && end.taken == 0 && DoneMeansLast(trace, t, end)
    decreases t, if t.Fork? then |t.kids| + 1 else 0
  {
    match t
    case Tip(l) =>
      assert l in Leaves(t);
      var k := FirstEmission(trace(l));
      moves := Acts(k + 1);
      RunActs(merge, Start(items, trace, zero, t), k);
    case Fork(kids) =>
      ghost var nets, acc;
      moves, nets, acc := EarlyKids(merge, items, trace, zero, t, |kids|);
      NodeDoneMeansLast(trace, t, Run(merge, Start(items, trace, zero, t), moves));
  }

  lemma NodeDoneMeansLast<L, V, E>(trace: L -> seq<Option<V>>, t: Tree<L>, net: Net<V, E>)
    requires t.Fork? && net.Node? && |net.kids| == |t.kids|
    requires forall j :: 0 <= j < |t.kids| ==> DoneMeansLast(trace, t.kids[j], net.kids[j])
    ensures DoneMeansLast(trace, t, net)
  {
    if LeavesDone(net) {
      forall l | l in Leaves(t)
        ensures OnlyLastEmits(trace(l))
      {
        var i := LeafOfKid(t.kids, l);
        assert DoneMeansLast(trace, t.kids[i], net.kids[i]);
      }
    }
  }

  /** The first i children have run and been heard. */
  ghost predicate Heard<L, V, E>(items: L -> multiset<E>, trace: L -> seq<Option<V>>, zero: V,
                                 kids: seq<Tree<L>>, nets: seq<Net<V, E>>, i: nat)
  {
    && |nets| == |kids| && i <= |kids|
    && (forall j :: i <= j < |kids| ==> nets[j] == Start(items, trace, zero, kids[j]))
    && forall j :: 0 <= j < i ==> DoneMeansLast(trace, kids[j], nets[j])
  }

  lemma {:induction false} EarlyKids<L, V, E>(merge: (V, V) -> V, items: L -> multiset<E>, trace: L -> seq<Option<V>>,
                                              zero: V, t: Tree<L>, i: nat)
    returns (moves: seq<Move>, nets: seq<Net<V, E>>, acc: V)
    requires t.Fork? && Proper(t) && i <= |t.kids| && forall l :: l in Leaves(t) ==> EmitsSome(trace(l))
    ensures Heard(items, trace, zero, t.kids, nets, i)
    ensures Run(merge, Start(items, trace, zero, t), moves)
            == Node(nets, acc, i, if i == |t.kids| then [acc] else [], 0)
    decreases t, i
  {
    hide DoneMeansLast;
    if i == 0 {
      moves, nets, acc := [], StartOf(items, trace, zero, t.kids), zero;
    } else {
      var before, nets0, acc0 := EarlyKids(merge, items, trace, zero, t, i - 1);
      forall l | l in Leaves(t.kids[i - 1])
        ensures EmitsSome(trace(l))
      {
        KidLeaves(t.kids, i - 1, l);
      }
      var inside := EarlyRun(merge, items, trace, zero, t.kids[i - 1]);
      moves := before + (Downs(i - 1, inside) + [Take(i - 1)]);
      RunConcat(merge, Start(items, trace, zero, t), before, Downs(i - 1, inside) + [Take(i - 1)]);
      nets, acc := HearOne(merge, trace, t.kids[i - 1], nets0, acc0, i - 1, inside);
    }
  }

  lemma HearOne<L, V, E>(merge: (V, V) -> V, trace: L -> seq<Option<V>>, t: Tree<L>, nets0: seq<Net<V, E>>, acc0: V,
                         i: nat, inside: seq<Move>)
    returns (nets: seq<Net<V, E>>, acc: V)
    requires i < |nets0|
    requires var kid := Run(merge, nets0[i], inside); |kid.sent| == 1 && kid.taken == 0 && DoneMeansLast(trace, t, kid)
    ensures |nets| == |nets0| && nets == nets0[i := nets[i]] && DoneMeansLast(trace, t, nets[i])
    ensures Run(merge, Node(nets0, acc0, i, [], 0), Downs(i, inside) + [Take(i)])
            == Node(nets, acc, i + 1, if i + 1 == |nets0| then [acc] else [], 0)
  {
    var net, kid := Node(nets0, acc0, i, [], 0), Run(merge, nets0[i], inside);
    RunConcat(merge, net, Downs(i, inside), [Take(i)]);
    RunDowns(merge, net, i, inside);
    var mid := Node(nets0[i := kid], acc0, i, [], 0);
    RunOne(merge, mid, Take(i));
    acc := merge(acc0, kid.sent[0]);
    nets := nets0[i := kid.(taken := 1)];
    assert nets0[i := kid][i := kid.(taken := 1)] == nets;
    DoneIgnoresTaken(kid, 1);
  }

  lemma DoneIgnoresTaken<V, E>(net: Net<V, E>, n: nat)
    ensures LeavesDone(net.(taken := n)) == LeavesDone(net)
  {
  }

  // ---------------------------------------------------------------- exactness

  lemma GoodLeavesDeliver<L, V(!new), E(!new)>(merge: (V, V) -> V, rel: (V, multiset<E>) -> bool, zero: V,
                                               items: L -> multiset<E>, trace: L -> seq<Option<V>>, t: Tree<L>,
                                               moves: seq<Move>)
    requires Respects(merge, rel, zero) && Proper(t)
    requires forall l :: l in Leaves(t) ==> GoodTrace(rel, items(l), trace(l))
    ensures Delivers(merge, rel, SumItems(items, Leaves(t)), Run(merge, Start(items, trace, zero, t), moves))
  {
    hide Respects, GoodTrace, Proper, Inv;
    var start := Start(items, trace, zero, t);
    FrontEnd(merge, rel, zero, items, trace, t, moves);
    StartInitial(rel, items, trace, zero, t);
    RespectsZero(merge, rel, zero);
    InitialInv(rel, zero, start);
    InvRun(merge, rel, zero, start, moves);
    Extend(merge, rel, zero, Run(merge, start, moves));
  }

  lemma DeliveredLeaves<L, V, E>(merge: (V, V) -> V, items: L -> multiset<E>, trace: L -> seq<Option<V>>, zero: V,
                                 t: Tree<L>, moves: seq<Move>)
    requires AllSentOnce(Run(merge, Start(items, trace, zero, t), moves))
    ensures forall l :: l in Leaves(t) ==> EmitsSome(trace(l))
  {
    hide EmitsSome;
    var start := Start(items, trace, zero, t);
    StartFollows(items, trace, zero, t);
    RunFollows(merge, trace, t, start, moves);
    forall l | l in Leaves(t)
      ensures EmitsSome(trace(l))
    {
      SentOnceEmits(trace, t, Run(merge, start, moves), l);
    }
  }

  ghost predicate AllDeliver<V, E>(merge: (V, V) -> V, rel: (V, multiset<E>) -> bool, all: multiset<E>,
                                   start: Net<V, E>)
  {
    forall moves :: Delivers(merge, rel, all, Run(merge, start, moves))
  }

  lemma DeliveryAt<V, E>(merge: (V, V) -> V, rel: (V, multiset<E>) -> bool, all: multiset<E>, start: Net<V, E>,
                         moves: seq<Move>)
    requires AllDeliver(merge, rel, all, start)
    ensures Delivers(merge, rel, all, Run(merge, start, moves))
  {
  }

  lemma DeliveryNeedsGoodLeaves<L, V, E>(merge: (V, V) -> V, rel: (V, multiset<E>) -> bool, zero: V,
                                         items: L -> multiset<E>, trace: L -> seq<Option<V>>, all: multiset<E>,
                                         t: Tree<L>)
    requires Proper(t) && AllDeliver(merge, rel, all, Start(items, trace, zero, t))
    ensures forall l :: l in Leaves(t) ==> OnlyLastEmits(trace(l))
  {
    hide OnlyLastEmits, Proper, EmitsSome, AllDeliver, Start;
    var start := Start(items, trace, zero, t);
    DeliveryAt(merge, rel, all, start, []);
    assert Run(merge, start, []) == start;
    var more :| Run(merge, start, more).sent != [];
    DeliveryAt(merge, rel, all, start, more);
    DeliveredLeaves(merge, items, trace, zero, t, more);
    var early := EarlyRun(merge, items, trace, zero, t);
    DeliveryAt(merge, rel, all, start, early);
  }

  /** EXACTNESS. For every process tree whose leaves, if they emit in their last call alone, emit what
      stands for their items: every schedule delivers if and only if every leaf emits exactly once, in
      its last call. */
  lemma DeliversIff<L, V(!new), E(!new)>(merge: (V, V) -> V, rel: (V, multiset<E>) -> bool, zero: V,
                                         items: L -> multiset<E>, trace: L -> seq<Option<V>>, t: Tree<L>)
    requires Respects(merge, rel, zero) && Proper(t)
    requires forall l :: l in Leaves(t) && OnlyLastEmits(trace(l)) ==> GoodTrace(rel, items(l), trace(l))
    ensures AllDeliver(merge, rel, SumItems(items, Leaves(t)), Start(items, trace, zero, t))
            <==> forall l :: l in Leaves(t) ==> OnlyLastEmits(trace(l))
  {
    hide Respects, GoodTrace, OnlyLastEmits, Proper, Start, Delivers;
    var all := SumItems(items, Leaves(t));
    var start := Start(items, trace, zero, t);
    if forall l :: l in Leaves(t) ==> OnlyLastEmits(trace(l)) {
      forall moves
        ensures Delivers(merge, rel, all, Run(merge, start, moves))
      {
        GoodLeavesDeliver(merge, rel, zero, items, trace, t, moves);
      }
    }
    if AllDeliver(merge, rel, all, start) {
      DeliveryNeedsGoodLeaves(merge, rel, zero, items, trace, all, t);
    }
  }
}
