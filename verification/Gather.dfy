/** The reduction tree. Every component that merges data on its way to the front end
    does it the same way: a non-leaf node merges each message from a child into its
    accumulator, counts it, and emits the accumulator when the count reaches the number
    of children. This module is that protocol over an arbitrary tree and an arbitrary
    delivery schedule; the component modules say what is merged and what leaves send. */
module Gather {
  import opened Options

  /** Where in the tree a process is. */
  datatype Role = LeafCP | NonLeafCP | Frontend

  /** A process tree with the state of its nodes.
      Leaf: items it has to contribute, and the trace of its local handler calls, each with
      the message it emits upward, if any; pos calls have happened.
      Node: children, merged value, number of messages handled.
      Both: the messages sent so far and how many of them the parent has taken. */
  datatype Net<V, !E> =
    | Leaf(items: multiset<E>, trace: seq<Option<V>>, pos: nat, sent: seq<V>, taken: nat)
    | Node(kids: seq<Net<V, E>>, acc: V, handled: nat, sent: seq<V>, taken: nat)

  /** One scheduling choice: a leaf runs its next handler, a node takes the next message
      of child i, or the choice is made inside child i. */
  datatype Move = Act | Take(i: nat) | Down(i: nat, m: Move)

  /** What a non-leaf node does with one message: the new accumulator and count, and what
      it emits. */
  function Receive<V>(merge: (V, V) -> V, children: nat, acc: V, handled: nat, msg: V): (V, nat, Option<V>) {
    var acc' := merge(acc, msg);
    (acc', handled + 1, if handled + 1 == children then Some(acc') else None)
  }

  function Emit<V>(sent: seq<V>, out: Option<V>): seq<V> {
    if out.Some? then sent + [out.value] else sent
  }

  /** Perform a move; a move that is not possible changes nothing. */
  ghost function Step<V, E>(merge: (V, V) -> V, net: Net<V, E>, m: Move): (net': Net<V, E>)
    ensures net'.taken == net.taken
    decreases m
  {
    match m
    case Act =>
      if net.Leaf? && net.pos < |net.trace|
      then net.(pos := net.pos + 1, sent := Emit(net.sent, net.trace[net.pos]))
      else net
    case Take(i) =>
      if net.Node? && i < |net.kids| && net.kids[i].taken < |net.kids[i].sent|
      then
        var kid := net.kids[i];
        var (acc, handled, out) := Receive(merge, |net.kids|, net.acc, net.handled, kid.sent[kid.taken]);
        net.(kids := net.kids[i := kid.(taken := kid.taken + 1)], acc := acc, handled := handled,
             sent := Emit(net.sent, out))
      else net
    case Down(i, k) =>
      if net.Node? && i < |net.kids| then net.(kids := net.kids[i := Step(merge, net.kids[i], k)]) else net
  }

  /** The state after a whole schedule. */
  ghost function Run<V, E>(merge: (V, V) -> V, net: Net<V, E>, moves: seq<Move>): Net<V, E>
    decreases |moves|
  {
    if moves == [] then net else Run(merge, Step(merge, net, moves[0]), moves[1..])
  }

  // ---------------------------------------------------------------- what is promised

  /** Everything the leaves below contribute. */
  ghost function Items<V, E>(net: Net<V, E>): multiset<E>
    decreases net, 1
  {
    match net
    case Leaf(items, _, _, _, _) => items
    case Node(kids, _, _, _, _) => ItemsOf(kids)
  }

  ghost function ItemsOf<V, E>(kids: seq<Net<V, E>>): multiset<E>
    decreases kids, 0
  {
    if kids == [] then multiset{} else Items(kids[0]) + ItemsOf(kids[1..])
  }

  /** A single message, emitted in the last handler call. */
  ghost predicate OnlyLastEmits<V>(trace: seq<Option<V>>) {
    && trace != [] && trace[|trace| - 1].Some?
    && forall k :: 0 <= k < |trace| - 1 ==> trace[k].None?
  }

  /** A leaf emits exactly once, in its last handler call, and what it emits stands for its items. */
  ghost predicate GoodTrace<V, E>(rel: (V, multiset<E>) -> bool, items: multiset<E>, trace: seq<Option<V>>) {
    OnlyLastEmits(trace) && rel(trace[|trace| - 1].value, items)
  }

  /** Nothing has happened yet, every leaf trace is good and every non-leaf node has a child. */
  ghost predicate Initial<V, E>(rel: (V, multiset<E>) -> bool, zero: V, net: Net<V, E>) {
    net.sent == [] && net.taken == 0 &&
    match net
    case Leaf(items, trace, pos, _, _) => pos == 0 && GoodTrace(rel, items, trace)
    case Node(kids, acc, handled, _, _) =>
      kids != [] && acc == zero && handled == 0 && forall i :: 0 <= i < |kids| ==> Initial(rel, zero, kids[i])
  }

  /** Every leaf has made all its handler calls. */
  ghost predicate LeavesDone<V, E>(net: Net<V, E>) {
    match net
    case Leaf(_, trace, pos, _, _) => pos == |trace|
    case Node(kids, _, _, _, _) => forall i :: 0 <= i < |kids| ==> LeavesDone(kids[i])
  }

  /** Every node has emitted exactly one message. */
  ghost predicate AllSentOnce<V, E>(net: Net<V, E>) {
    |net.sent| == 1 && (net.Node? ==> forall i :: 0 <= i < |net.kids| ==> AllSentOnce(net.kids[i]))
  }

  /** The merge respects what a value stands for. */
  ghost predicate Respects<V(!new), E(!new)>(merge: (V, V) -> V, rel: (V, multiset<E>) -> bool, zero: V) {
    && rel(zero, multiset{})
    && forall a, x, b, y :: rel(a, x) && rel(b, y) ==> rel(merge(a, b), x + y)
  }

  // ---------------------------------------------------------------- the invariant

  ghost function TakenOf<V, E>(kids: seq<Net<V, E>>): nat {
    if kids == [] then 0 else kids[0].taken + TakenOf(kids[1..])
  }

  /** Items of the children whose message has been taken. */
  ghost function ItemsTaken<V, E>(kids: seq<Net<V, E>>): multiset<E> {
    if kids == [] then multiset{}
    else (if kids[0].taken > 0 then Items(kids[0]) else multiset{}) + ItemsTaken(kids[1..])
  }

  ghost predicate Inv<V, E>(rel: (V, multiset<E>) -> bool, net: Net<V, E>) {
    net.taken <= |net.sent| &&
    match net
    case Leaf(items, trace, pos, sent, _) =>
      && GoodTrace(rel, items, trace) && pos <= |trace|
      && sent == if pos == |trace| then [trace[pos - 1].value] else []
    case Node(kids, acc, handled, sent, _) =>
      && kids != [] && (forall i :: 0 <= i < |kids| ==> Inv(rel, kids[i]))
      && handled == TakenOf(kids) && rel(acc, ItemsTaken(kids))
      && sent == if handled == |kids| then [acc] else []
  }

  lemma InvAtMostOnce<V, E>(rel: (V, multiset<E>) -> bool, net: Net<V, E>)
    requires Inv(rel, net)
    ensures |net.sent| <= 1 && net.taken <= 1
  {
  }

  lemma {:induction false} TakenUpdate<V, E>(kids: seq<Net<V, E>>, i: nat, kid: Net<V, E>)
    requires i < |kids| && Items(kid) == Items(kids[i])
    ensures TakenOf(kids[i := kid]) == TakenOf(kids) - kids[i].taken + kid.taken
    ensures ItemsOf(kids[i := kid]) == ItemsOf(kids)
    ensures kid.taken == kids[i].taken ==> ItemsTaken(kids[i := kid]) == ItemsTaken(kids)
    ensures kid.taken == 1 && kids[i].taken == 0 ==> ItemsTaken(kids[i := kid]) == ItemsTaken(kids) + Items(kid)
  {
    if i > 0 {
      TakenUpdate(kids[1..], i - 1, kid);
      assert kids[i := kid][1..] == kids[1..][i - 1 := kid];
    } else {
      assert kids[i := kid][1..] == kids[1..];
    }
  }

  /** With at most one message per child, the count reaches the number of children exactly
      when every child's message is in. */
  lemma {:induction false} AllTaken<V, E>(kids: seq<Net<V, E>>)
    requires forall i :: 0 <= i < |kids| ==> kids[i].taken <= 1
    ensures TakenOf(kids) <= |kids|
    ensures TakenOf(kids) == |kids| ==>
              ItemsTaken(kids) == ItemsOf(kids) && forall i :: 0 <= i < |kids| ==> kids[i].taken == 1
  {
    if kids != [] {
      AllTaken(kids[1..]);
      assert forall i :: 0 < i < |kids| ==> kids[i] == kids[1..][i - 1];
    }
  }

  /** A node's message stands for everything below it. */
  lemma SentStandsForItems<V, E>(rel: (V, multiset<E>) -> bool, net: Net<V, E>)
    requires Inv(rel, net) && net.sent != []
    ensures |net.sent| == 1 && rel(net.sent[0], Items(net))
    ensures net.Node? ==> forall i :: 0 <= i < |net.kids| ==> net.kids[i].taken == 1 && net.kids[i].sent != []
  {
    if net.Node? {
      forall i | 0 <= i < |net.kids| ensures net.kids[i].taken <= 1 {
        InvAtMostOnce(rel, net.kids[i]);
      }
      AllTaken(net.kids);
      assert forall i :: 0 <= i < |net.kids| ==> Inv(rel, net.kids[i]);
    }
  }

  lemma {:induction false} StepKeepsItems<V, E>(merge: (V, V) -> V, net: Net<V, E>, m: Move)
    ensures Items(Step(merge, net, m)) == Items(net)
    decreases m
  {
    match m
    case Act =>
    case Take(i) =>
      if net.Node? && i < |net.kids| && net.kids[i].taken < |net.kids[i].sent| {
        var kid := net.kids[i].(taken := net.kids[i].taken + 1);
        ItemsIgnoreTaken(net.kids[i], kid.taken);
        TakenUpdate(net.kids, i, kid);
      }
    case Down(i, k) =>
      if net.Node? && i < |net.kids| {
        StepKeepsItems(merge, net.kids[i], k);
        TakenUpdate(net.kids, i, Step(merge, net.kids[i], k));
      }
  }

  lemma ItemsIgnoreTaken<V, E>(net: Net<V, E>, t: nat)
    ensures Items(net.(taken := t)) == Items(net)
  {
  }

  lemma {:induction false} InvStep<V(!new), E(!new)>(merge: (V, V) -> V, rel: (V, multiset<E>) -> bool, zero: V,
                                                     net: Net<V, E>, m: Move)
    requires Respects(merge, rel, zero) && Inv(rel, net)
    ensures Inv(rel, Step(merge, net, m))
    decreases m
  {
    hide Respects, Items, ItemsOf;
    match m
    case Act =>
    case Take(i) =>
      if net.Node? && i < |net.kids| && net.kids[i].taken < |net.kids[i].sent| {
        InvTake(merge, rel, zero, net, i);
      }
    case Down(i, k) =>
      if net.Node? && i < |net.kids| {
        var kid := Step(merge, net.kids[i], k);
        InvStep(merge, rel, zero, net.kids[i], k);
        StepKeepsItems(merge, net.kids[i], k);
        TakenUpdate(net.kids, i, kid);
      }
  }

  lemma InvTake<V(!new), E(!new)>(merge: (V, V) -> V, rel: (V, multiset<E>) -> bool, zero: V, net: Net<V, E>, i: nat)
    requires Respects(merge, rel, zero) && Inv(rel, net)
    requires net.Node? && i < |net.kids| && net.kids[i].taken < |net.kids[i].sent|
    ensures Inv(rel, Step(merge, net, Take(i)))
  {
    hide Respects, Items, ItemsOf, ItemsTaken, Inv;
    var kid := net.kids[i];
    InvParts(rel, net, i);
    MergeStands(merge, rel, zero, net.acc, ItemsTaken(net.kids), kid.sent[0], Items(kid));
    TakeOne(rel, net, i, merge(net.acc, kid.sent[0]));
  }

  lemma InvParts<V, E>(rel: (V, multiset<E>) -> bool, net: Net<V, E>, i: nat)
    requires Inv(rel, net) && net.Node? && i < |net.kids|
    ensures rel(net.acc, ItemsTaken(net.kids)) && Inv(rel, net.kids[i])
    ensures net.kids[i].sent != [] ==> |net.kids[i].sent| == 1 && rel(net.kids[i].sent[0], Items(net.kids[i]))
  {
    if net.kids[i].sent != [] {
      SentStandsForItems(rel, net.kids[i]);
    }
  }

  lemma TakeOne<V, E>(rel: (V, multiset<E>) -> bool, net: Net<V, E>, i: nat, acc: V)
    requires Inv(rel, net) && net.Node? && i < |net.kids|
    requires |net.kids[i].sent| == 1 && net.kids[i].taken == 0
    requires rel(acc, ItemsTaken(net.kids) + Items(net.kids[i]))
    ensures var sent := if net.handled + 1 == |net.kids| then net.sent + [acc] else net.sent;
            Inv(rel, Node(net.kids[i := net.kids[i].(taken := 1)], acc, net.handled + 1, sent, net.taken))
  {
    hide Items, ItemsOf, ItemsTaken, TakenOf, GoodTrace;
    var kids := net.kids[i := net.kids[i].(taken := 1)];
    InvNode(rel, net);
    ItemsIgnoreTaken(net.kids[i], 1);
    TakenUpdate(net.kids, i, kids[i]);
    KidsTake(rel, net.kids, i);
    AllTaken(kids);
    MakeNode(rel, kids, acc, net.handled + 1, net.taken);
  }

  lemma InvNode<V, E>(rel: (V, multiset<E>) -> bool, net: Net<V, E>)
    requires Inv(rel, net) && net.Node?
    ensures net.kids != [] && (forall i :: 0 <= i < |net.kids| ==> Inv(rel, net.kids[i]))
    ensures net.handled == TakenOf(net.kids) && net.taken <= |net.sent|
    ensures net.sent == if net.handled == |net.kids| then [net.acc] else []
  {
  }

  lemma MakeNode<V, E>(rel: (V, multiset<E>) -> bool, kids: seq<Net<V, E>>, acc: V, handled: nat, taken: nat)
    requires kids != [] && (forall i :: 0 <= i < |kids| ==> Inv(rel, kids[i]))
    requires handled == TakenOf(kids) && rel(acc, ItemsTaken(kids)) && taken == 0
    ensures Inv(rel, Node(kids, acc, handled, if handled == |kids| then [acc] else [], taken))
  {
  }

  lemma MergeStands<V(!new), E(!new)>(merge: (V, V) -> V, rel: (V, multiset<E>) -> bool, zero: V,
                                      a: V, x: multiset<E>, b: V, y: multiset<E>)
    requires Respects(merge, rel, zero) && rel(a, x) && rel(b, y)
    ensures rel(merge(a, b), x + y)
  {
  }

  lemma KidsTake<V, E>(rel: (V, multiset<E>) -> bool, kids: seq<Net<V, E>>, i: nat)
    requires forall j :: 0 <= j < |kids| ==> Inv(rel, kids[j])
    requires i < |kids| && kids[i].sent != []
    ensures var kids' := kids[i := kids[i].(taken := 1)];
            forall j :: 0 <= j < |kids'| ==> Inv(rel, kids'[j]) && kids'[j].taken <= 1
  {
    var kids' := kids[i := kids[i].(taken := 1)];
    forall j | 0 <= j < |kids'| ensures Inv(rel, kids'[j]) && kids'[j].taken <= 1 {
      InvAtMostOnce(rel, kids[j]);
    }
  }

  lemma {:induction false} InitialInv<V, E>(rel: (V, multiset<E>) -> bool, zero: V, net: Net<V, E>)
    requires Initial(rel, zero, net) && rel(zero, multiset{})
    ensures Inv(rel, net)
  {
    if net.Node? {
      forall i | 0 <= i < |net.kids| ensures Inv(rel, net.kids[i]) && net.kids[i].taken == 0 {
        InitialInv(rel, zero, net.kids[i]);
      }
      NoneTaken(net.kids);
    }
  }

  lemma {:induction false} NoneTaken<V, E>(kids: seq<Net<V, E>>)
    requires forall i :: 0 <= i < |kids| ==> kids[i].taken == 0
    ensures TakenOf(kids) == 0 && ItemsTaken(kids) == multiset{}
  {
    if kids != [] {
      NoneTaken(kids[1..]);
    }
  }

  lemma {:induction false} InvRun<V(!new), E(!new)>(merge: (V, V) -> V, rel: (V, multiset<E>) -> bool, zero: V,
                                                    net: Net<V, E>, moves: seq<Move>)
    requires Respects(merge, rel, zero) && Inv(rel, net)
    ensures Inv(rel, Run(merge, net, moves)) && Items(Run(merge, net, moves)) == Items(net)
    decreases |moves|
  {
    if moves != [] {
      InvStep(merge, rel, zero, net, moves[0]);
      StepKeepsItems(merge, net, moves[0]);
      InvRun(merge, rel, zero, Step(merge, net, moves[0]), moves[1..]);
    }
  }

  lemma {:induction false} SentMeansDone<V, E>(rel: (V, multiset<E>) -> bool, net: Net<V, E>)
    requires Inv(rel, net) && net.sent != []
    ensures LeavesDone(net) && AllSentOnce(net)
  {
    SentStandsForItems(rel, net);
    if net.Node? {
      forall i | 0 <= i < |net.kids| ensures LeavesDone(net.kids[i]) && AllSentOnce(net.kids[i]) {
        SentMeansDone(rel, net.kids[i]);
      }
    }
  }

  /** SAFETY. In every schedule, once the root has emitted anything, it has emitted exactly
      one message, that message stands for all the leaves' items together, every leaf has
      finished its own work and every node has emitted exactly once. */
  lemma RootEmission<V(!new), E(!new)>(merge: (V, V) -> V, rel: (V, multiset<E>) -> bool, zero: V, net: Net<V, E>,
                                       moves: seq<Move>)
    requires Respects(merge, rel, zero) && Initial(rel, zero, net)
    ensures var end := Run(merge, net, moves);
            && |end.sent| <= 1
            && (end.sent != [] ==> rel(end.sent[0], Items(net)) && LeavesDone(end) && AllSentOnce(end))
  {
    InitialInv(rel, zero, net);
    InvRun(merge, rel, zero, net, moves);
    var end := Run(merge, net, moves);
    InvAtMostOnce(rel, end);
    if end.sent != [] {
      SentStandsForItems(rel, end);
      SentMeansDone(rel, end);
    }
  }

  // ---------------------------------------------------------------- progress

  /** Handler calls and deliveries still to come. */
  ghost function Weight<V, E>(net: Net<V, E>): nat
    decreases net, 1
  {
    match net
    case Leaf(_, trace, pos, _, _) => if pos <= |trace| then |trace| - pos else 0
    case Node(kids, _, _, _, _) => WeightOf(kids)
  }

  ghost function WeightOf<V, E>(kids: seq<Net<V, E>>): nat
    decreases kids, 0
  {
    if kids == [] then 0
    else Weight(kids[0]) + (if kids[0].taken == 0 then 1 else 0) + WeightOf(kids[1..])
  }

  lemma {:induction false} WeightUpdate<V, E>(kids: seq<Net<V, E>>, i: nat, kid: Net<V, E>)
    requires i < |kids|
    ensures WeightOf(kids[i := kid]) == WeightOf(kids)
              - Weight(kids[i]) - (if kids[i].taken == 0 then 1 else 0)
              + Weight(kid) + (if kid.taken == 0 then 1 else 0)
  {
    if i > 0 {
      WeightUpdate(kids[1..], i - 1, kid);
      assert kids[i := kid][1..] == kids[1..][i - 1 := kid];
    } else {
      assert kids[i := kid][1..] == kids[1..];
    }
  }

  lemma WeightIgnoresTaken<V, E>(net: Net<V, E>, t: nat)
    ensures Weight(net.(taken := t)) == Weight(net)
  {
  }

  /** TERMINATION. A move either changes nothing or uses up one unit of weight, so no
      schedule has more effective moves than the initial weight. */
  lemma {:induction false} StepWeight<V, E>(merge: (V, V) -> V, rel: (V, multiset<E>) -> bool, net: Net<V, E>, m: Move)
    requires Inv(rel, net)
    ensures Step(merge, net, m) == net || Weight(Step(merge, net, m)) + 1 == Weight(net)
    decreases m
  {
    match m
    case Act =>
    case Take(i) =>
      if net.Node? && i < |net.kids| && net.kids[i].taken < |net.kids[i].sent| {
        InvAtMostOnce(rel, net.kids[i]);
        WeightIgnoresTaken(net.kids[i], 1);
        WeightUpdate(net.kids, i, net.kids[i].(taken := 1));
      }
    case Down(i, k) =>
      if net.Node? && i < |net.kids| {
        StepWeight(merge, rel, net.kids[i], k);
        var kid := Step(merge, net.kids[i], k);
        if kid == net.kids[i] {
          assert net.kids[i := kid] == net.kids;
        } else {
          WeightUpdate(net.kids, i, kid);
        }
      }
  }

  /** PROGRESS. As long as the root has not emitted, some move changes the state. */
  lemma {:induction false} SomeMove<V, E>(merge: (V, V) -> V, rel: (V, multiset<E>) -> bool, net: Net<V, E>)
    returns (m: Move)
    requires Inv(rel, net) && net.sent == []
    ensures Step(merge, net, m) != net
  {
    if net.Leaf? {
      m := Act;
    } else {
      var i := Untaken(net.kids);
      assert Inv(rel, net.kids[i]);
      if net.kids[i].sent != [] {
        m := Take(i);
        assert Step(merge, net, m).handled == net.handled + 1;
      } else {
        var k := SomeMove(merge, rel, net.kids[i]);
        m := Down(i, k);
        assert Step(merge, net, m).kids[i] != net.kids[i];
      }
    }
  }

  lemma {:induction false} Untaken<V, E>(kids: seq<Net<V, E>>) returns (i: nat)
    requires TakenOf(kids) != |kids|
    requires forall j :: 0 <= j < |kids| ==> kids[j].taken <= 1
    ensures i < |kids| && kids[i].taken == 0
  {
    if kids[0].taken == 0 {
      i := 0;
    } else {
      var j := Untaken(kids[1..]);
      i := j + 1;
    }
  }

  ghost predicate Stuck<V, E>(merge: (V, V) -> V, net: Net<V, E>) {
    forall m :: Step(merge, net, m) == net
  }

  /** LIVENESS. A schedule that cannot be continued has delivered the result to the root. */
  lemma CompleteRunEmits<V(!new), E(!new)>(merge: (V, V) -> V, rel: (V, multiset<E>) -> bool, zero: V, net: Net<V, E>,
                                           moves: seq<Move>)
    requires Respects(merge, rel, zero) && Initial(rel, zero, net)
    requires Stuck(merge, Run(merge, net, moves))
    ensures var end := Run(merge, net, moves);
            |end.sent| == 1 && rel(end.sent[0], Items(net))
  {
    RootEmission(merge, rel, zero, net, moves);
    var end := Run(merge, net, moves);
    if end.sent == [] {
      InitialInv(rel, zero, net);
      InvRun(merge, rel, zero, net, moves);
      var m := SomeMove(merge, rel, end);
      assert false;
    }
  }

  // ---------------------------------------------------------------- process trees

  /** The shape of a process tree with what each leaf process will see. */
  datatype Tree<L> = Tip(leaf: L) | Fork(kids: seq<Tree<L>>)

  /** Every non-leaf process has a child. */
  ghost predicate Proper<L>(t: Tree<L>) {
    t.Fork? ==> t.kids != [] && forall i :: 0 <= i < |t.kids| ==> Proper(t.kids[i])
  }

  ghost function Leaves<L>(t: Tree<L>): seq<L>
    decreases t, 1
  {
    match t
    case Tip(l) => [l]
    case Fork(kids) => LeavesOf(kids)
  }

  ghost function LeavesOf<L>(kids: seq<Tree<L>>): seq<L>
    decreases kids, 0
  {
    if kids == [] then [] else Leaves(kids[0]) + LeavesOf(kids[1..])
  }

  /** The tree before anything has happened. */
  ghost function Start<L, V, E>(items: L -> multiset<E>, trace: L -> seq<Option<V>>, zero: V, t: Tree<L>): Net<V, E>
    decreases t, 1
  {
    match t
    case Tip(l) => Leaf(items(l), trace(l), 0, [], 0)
    case Fork(kids) => Node(StartOf(items, trace, zero, kids), zero, 0, [], 0)
  }

  ghost function StartOf<L, V, E>(items: L -> multiset<E>, trace: L -> seq<Option<V>>, zero: V,
                                  kids: seq<Tree<L>>): (nets: seq<Net<V, E>>)
    ensures |nets| == |kids|
    ensures forall i :: 0 <= i < |kids| ==> nets[i] == Start(items, trace, zero, kids[i])
    decreases kids, 0
  {
    if kids == [] then [] else [Start(items, trace, zero, kids[0])] + StartOf(items, trace, zero, kids[1..])
  }

  ghost function SumItems<L, E>(items: L -> multiset<E>, ls: seq<L>): multiset<E> {
    if ls == [] then multiset{} else items(ls[0]) + SumItems(items, ls[1..])
  }

  lemma {:induction false} SumItemsConcat<L, E>(items: L -> multiset<E>, a: seq<L>, b: seq<L>)
    ensures SumItems(items, a + b) == SumItems(items, a) + SumItems(items, b)
  {
    if a == [] {
      assert a + b == b;
    } else {
      assert (a + b)[1..] == a[1..] + b;
      SumItemsConcat(items, a[1..], b);
    }
  }

  lemma {:induction false} StartItems<L, V, E>(items: L -> multiset<E>, trace: L -> seq<Option<V>>, zero: V, t: Tree<L>)
    ensures Items(Start(items, trace, zero, t)) == SumItems(items, Leaves(t))
    decreases t, 1
  {
    match t
    case Tip(l) =>
      assert [l][1..] == [];
    case Fork(kids) =>
      StartItemsOf(items, trace, zero, kids);
  }

  lemma {:induction false} StartItemsOf<L, V, E>(items: L -> multiset<E>, trace: L -> seq<Option<V>>, zero: V,
                                                 kids: seq<Tree<L>>)
    ensures ItemsOf(StartOf(items, trace, zero, kids)) == SumItems(items, LeavesOf(kids))
    decreases kids, 0
  {
    if kids != [] {
      var nets := StartOf(items, trace, zero, kids);
      StartItems(items, trace, zero, kids[0]);
      StartItemsOf(items, trace, zero, kids[1..]);
      assert nets[1..] == StartOf(items, trace, zero, kids[1..]);
      SumItemsConcat(items, Leaves(kids[0]), LeavesOf(kids[1..]));
    }
  }

  lemma {:induction false} KidLeaves<L>(kids: seq<Tree<L>>, i: nat, l: L)
    requires i < |kids| && l in Leaves(kids[i])
    ensures l in LeavesOf(kids)
  {
    if i > 0 {
      KidLeaves(kids[1..], i - 1, l);
    }
  }

  lemma {:induction false} StartInitial<L, V, E>(rel: (V, multiset<E>) -> bool, items: L -> multiset<E>,
                                                 trace: L -> seq<Option<V>>, zero: V, t: Tree<L>)
    requires Proper(t) && forall l :: l in Leaves(t) ==> GoodTrace(rel, items(l), trace(l))
    ensures Initial(rel, zero, Start(items, trace, zero, t))
  {
    if t.Tip? {
      assert t.leaf in Leaves(t);
    } else {
      var kids := t.kids;
      forall i | 0 <= i < |kids| ensures Initial(rel, zero, Start(items, trace, zero, kids[i])) {
        forall l | l in Leaves(kids[i]) ensures GoodTrace(rel, items(l), trace(l)) {
          KidLeaves(kids, i, l);
        }
        StartInitial(rel, items, trace, zero, kids[i]);
      }
    }
  }

  /** FRONT END EQUALS FLAT REDUCTION. For every process tree, whatever the order in which
      leaves run and messages arrive: the root emits at most once, and if it emits, its value
      stands for the leaves' items put together, every leaf is done and every node has emitted
      exactly once; and a run that cannot continue has emitted. */
  lemma FrontEnd<L, V(!new), E(!new)>(merge: (V, V) -> V, rel: (V, multiset<E>) -> bool, zero: V,
                                      items: L -> multiset<E>, trace: L -> seq<Option<V>>, t: Tree<L>, moves: seq<Move>)
    requires Respects(merge, rel, zero) && Proper(t)
    requires forall l :: l in Leaves(t) ==> GoodTrace(rel, items(l), trace(l))
    ensures var end := Run(merge, Start(items, trace, zero, t), moves);
            && |end.sent| <= 1
            && (end.sent != [] ==>
                  rel(end.sent[0], SumItems(items, Leaves(t))) && LeavesDone(end) && AllSentOnce(end))
            && (Stuck(merge, end) ==> end.sent != [])
  {
    hide Respects, Stuck;
    var net := Start(items, trace, zero, t);
    StartInitial(rel, items, trace, zero, t);
    StartItems(items, trace, zero, t);
    RootEmission(merge, rel, zero, net, moves);
    if Stuck(merge, Run(merge, net, moves)) {
      CompleteRunEmits(merge, rel, zero, net, moves);
    }
  }

  // ---------------------------------------------------------------- every node

  /** The node found by going down the given children. */
  ghost predicate PathIn<L>(t: Tree<L>, path: seq<nat>)
    decreases path
  {
    path == [] || (t.Fork? && path[0] < |t.kids| && PathIn(t.kids[path[0]], path[1..]))
  }

  ghost function TreeAt<L>(t: Tree<L>, path: seq<nat>): Tree<L>
    requires PathIn(t, path)
    decreases path
  {
    if path == [] then t else TreeAt(t.kids[path[0]], path[1..])
  }

  /** The state of that node, if there is one. */
  ghost function NetAt<V, E>(net: Net<V, E>, path: seq<nat>): Option<Net<V, E>>
    decreases path
  {
    if path == [] then Some(net)
    else if net.Node? && path[0] < |net.kids| then NetAt(net.kids[path[0]], path[1..])
    else None
  }

  /** The state has the shape of the tree and its leaves contribute what the tree's leaves do. */
  ghost predicate Matches<L, V, E>(items: L -> multiset<E>, t: Tree<L>, net: Net<V, E>) {
    match t
    case Tip(l) => net.Leaf? && net.items == items(l)
    case Fork(kids) =>
      net.Node? && |net.kids| == |kids| && forall i :: 0 <= i < |kids| ==> Matches(items, kids[i], net.kids[i])
  }

  lemma {:induction false} StartMatches<L, V, E>(items: L -> multiset<E>, trace: L -> seq<Option<V>>, zero: V,
                                                 t: Tree<L>)
    ensures Matches(items, t, Start(items, trace, zero, t))
  {
    if t.Fork? {
      forall i | 0 <= i < |t.kids| ensures Matches(items, t.kids[i], Start(items, trace, zero, t.kids[i])) {
        StartMatches(items, trace, zero, t.kids[i]);
      }
    }
  }

  lemma {:induction false} StepMatches<L, V, E>(merge: (V, V) -> V, items: L -> multiset<E>, t: Tree<L>,
                                                net: Net<V, E>, m: Move)
    requires Matches(items, t, net)
    ensures Matches(items, t, Step(merge, net, m))
    decreases m
  {
    match m
    case Act =>
    case Take(i) =>
      if net.Node? && i < |net.kids| {
        MatchesIgnoresTaken(items, t.kids[i], net.kids[i], net.kids[i].taken + 1);
      }
    case Down(i, k) =>
      if net.Node? && i < |net.kids| {
        StepMatches(merge, items, t.kids[i], net.kids[i], k);
      }
  }

  lemma MatchesIgnoresTaken<L, V, E>(items: L -> multiset<E>, t: Tree<L>, net: Net<V, E>, n: nat)
    requires Matches(items, t, net)
    ensures Matches(items, t, net.(taken := n))
  {
  }

  lemma {:induction false} RunMatches<L, V, E>(merge: (V, V) -> V, items: L -> multiset<E>, t: Tree<L>, net: Net<V, E>,
                                               moves: seq<Move>)
    requires Matches(items, t, net)
    ensures Matches(items, t, Run(merge, net, moves))
    decreases |moves|
  {
    if moves != [] {
      StepMatches(merge, items, t, net, moves[0]);
      RunMatches(merge, items, t, Step(merge, net, moves[0]), moves[1..]);
    }
  }

  lemma {:induction false} MatchesItems<L, V, E>(items: L -> multiset<E>, t: Tree<L>, net: Net<V, E>)
    requires Matches(items, t, net)
    ensures Items(net) == SumItems(items, Leaves(t))
    decreases t, 1
  {
    match t
    case Tip(l) =>
      assert [l][1..] == [];
    case Fork(kids) =>
      MatchesItemsOf(items, kids, net.kids);
  }

  lemma {:induction false} MatchesItemsOf<L, V, E>(items: L -> multiset<E>, kids: seq<Tree<L>>, nets: seq<Net<V, E>>)
    requires |nets| == |kids| && forall i :: 0 <= i < |kids| ==> Matches(items, kids[i], nets[i])
    ensures ItemsOf(nets) == SumItems(items, LeavesOf(kids))
    decreases kids, 0
  {
    if kids != [] {
      MatchesItems(items, kids[0], nets[0]);
      MatchesItemsOf(items, kids[1..], nets[1..]);
      SumItemsConcat(items, Leaves(kids[0]), LeavesOf(kids[1..]));
    }
  }

  /** What holds of a node that stands for tree t. */
  ghost predicate NodeOk<L, V, E>(rel: (V, multiset<E>) -> bool, items: L -> multiset<E>, t: Tree<L>, net: Net<V, E>) {
    && |net.sent| <= 1
    && (net.sent != [] ==> rel(net.sent[0], SumItems(items, Leaves(t))) && LeavesDone(net) && AllSentOnce(net))
  }

  lemma {:induction false} NodeEmission<L, V, E>(rel: (V, multiset<E>) -> bool, items: L -> multiset<E>, t: Tree<L>,
                                                 net: Net<V, E>, path: seq<nat>)
    requires Inv(rel, net) && Matches(items, t, net) && PathIn(t, path)
    ensures NetAt(net, path).Some? && NodeOk(rel, items, TreeAt(t, path), NetAt(net, path).value)
    decreases path
  {
    if path == [] {
      InvAtMostOnce(rel, net);
      if net.sent != [] {
        SentStandsForItems(rel, net);
        SentMeansDone(rel, net);
        MatchesItems(items, t, net);
      }
    } else {
      NodeEmission(rel, items, t.kids[path[0]], net.kids[path[0]], path[1..]);
    }
  }

  /** EVERY NODE EQUALS ITS FLAT REDUCTION. Not only the root: in every schedule every node emits at
      most once, and what it emits stands for the items of the leaves below it. */
  lemma EveryNode<L, V(!new), E(!new)>(merge: (V, V) -> V, rel: (V, multiset<E>) -> bool, zero: V,
                                       items: L -> multiset<E>, trace: L -> seq<Option<V>>, t: Tree<L>,
                                       moves: seq<Move>, path: seq<nat>)
    requires Respects(merge, rel, zero) && Proper(t) && PathIn(t, path)
    requires forall l :: l in Leaves(t) ==> GoodTrace(rel, items(l), trace(l))
    ensures var node := NetAt(Run(merge, Start(items, trace, zero, t), moves), path);
            node.Some? && NodeOk(rel, items, TreeAt(t, path), node.value)
  {
    hide Respects, NodeOk, Inv, Matches;
    var net := Start(items, trace, zero, t);
    StartInitial(rel, items, trace, zero, t);
    RespectsZero(merge, rel, zero);
    InitialInv(rel, zero, net);
    InvRun(merge, rel, zero, net, moves);
    StartMatches(items, trace, zero, t);
    RunMatches(merge, items, t, net, moves);
    NodeEmission(rel, items, t, Run(merge, net, moves), path);
  }

  lemma RespectsZero<V(!new), E(!new)>(merge: (V, V) -> V, rel: (V, multiset<E>) -> bool, zero: V)
    requires Respects(merge, rel, zero)
    ensures rel(zero, multiset{})
  {
  }
}
