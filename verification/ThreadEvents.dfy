/** Thread events on their way to the front end (core/components/ThreadEventComponent.cpp). */
module ThreadEvents {
  import opened Gather
  import opened GatherExact
  import opened Options

  datatype ThreadName = ThreadName(host: string, pid: int, tid: int, rank: int, ompTid: int)

  type Names = seq<ThreadName>

  /** What a leaf hears from its back ends. */
  datatype Event = Attached(names: Names) | Terminated

  function Append(a: Names, b: Names): Names {
    a + b
  }

  // ---------------------------------------------------------------- leaf handlers

  datatype LeafState = LeafState(attached: nat, finished: nat, names: Names)

  const NEW_LEAF := LeafState(0, 0, [])

  /** One handler call at a leaf, and the thread list it emits upward, if any. The same call
      emits "finished" exactly when it emits the list. */
  function LeafStep(s: LeafState, e: Event): (LeafState, Option<Names>) {
    match e
    case Attached(names) => (s.(attached := s.attached + 1, names := s.names + names), None)
    case Terminated =>
      var s' := s.(finished := s.finished + 1);
      (s', if s'.finished == s'.attached then Some(s'.names) else None)
  }

  /** A leaf's state after the given handler calls. */
  function LeafAfter(events: seq<Event>): LeafState {
    if events == [] then NEW_LEAF
    else LeafStep(LeafAfter(events[..|events| - 1]), events[|events| - 1]).0
  }

  /** What each of a leaf's handler calls emits: the thread list ... */
  function LeafTrace(events: seq<Event>): (t: seq<Option<Names>>)
    ensures |t| == |events|
  {
    seq(|events|, k requires 0 <= k < |events| => LeafStep(LeafAfter(events[..k]), events[k]).1)
  }

  /** ... and the "finished" message. */
  function FinishTrace(events: seq<Event>): (t: seq<Option<bool>>)
    ensures |t| == |events|
  {
    seq(|events|, k requires 0 <= k < |events| => if LeafTrace(events)[k].Some? then Some(true) else None)
  }

  // ---------------------------------------------------------------- the component

  class ThreadEventComponent {
    const role: Role
    const numChildren: nat
    var threadsAttached: nat
    var threadsFinished: nat
    var finishedMsgs: nat
    var isFinished: bool
    var names: Names

    constructor (role: Role, numChildren: nat)
      ensures this.role == role && this.numChildren == numChildren
      ensures Leaf() == NEW_LEAF && finishedMsgs == 0 && !isFinished
    {
      this.role, this.numChildren := role, numChildren;
      threadsAttached, threadsFinished, finishedMsgs, isFinished, names := 0, 0, 0, false, [];
    }

    function Leaf(): LeafState
      reads this
    {
      LeafState(threadsAttached, threadsFinished, names)
    }

    /** A leaf only records; any other node is a gate that opens on the message of its last child. */
    method ThreadsHandler(msg: Names) returns (up: Option<Names>, numTerminated: Option<nat>)
      modifies this`threadsAttached, this`names
      ensures role == LeafCP ==> (Leaf(), up) == LeafStep(old(Leaf()), Attached(msg))
      ensures role != LeafCP ==>
                (names, threadsAttached, up) == Receive(Append, numChildren, old(names), old(threadsAttached), msg)
      ensures numTerminated == if up.Some? then Some(|up.value|) else None
    {
      threadsAttached := threadsAttached + 1;
      var send := role != LeafCP && numChildren == threadsAttached;
      var i := 0;
      while i < |msg|
        invariant i <= |msg| && names == old(names) + msg[..i] && threadsAttached == old(threadsAttached) + 1
      {
        names := names + [msg[i]];
        i := i + 1;
      }
      assert msg[..i] == msg && names == Append(old(names), msg);
      up := if send then Some(names) else None;
      numTerminated := if send then Some(|names|) else None;
    }

    method ThreadStateHandler() returns (up: Option<Names>, numTerminated: Option<nat>, finished: bool)
      modifies this`threadsFinished, this`isFinished
      ensures role == LeafCP ==> (Leaf(), up) == LeafStep(old(Leaf()), Terminated)
      ensures role != LeafCP ==> up == None && threadsFinished == old(threadsFinished) + 1
      ensures finished == up.Some? && isFinished == (old(isFinished) || finished)
      ensures numTerminated == if up.Some? then Some(threadsFinished) else None
    {
      threadsFinished := threadsFinished + 1;
      up, numTerminated, finished := None, None, false;
      if role == LeafCP && threadsFinished == threadsAttached {
        up, numTerminated, finished := Some(names), Some(threadsFinished), true;
        isFinished := true;
      }
    }

    method FinishedHandler() returns (up: Option<bool>)
      modifies this`finishedMsgs, this`isFinished
      ensures role == LeafCP ==> up == None && finishedMsgs == old(finishedMsgs) && isFinished == old(isFinished)
      ensures role != LeafCP ==>
                (true, finishedMsgs, up)
                   == Receive((a: bool, b: bool) => true, numChildren, true, old(finishedMsgs), true)
      ensures role != LeafCP ==> isFinished == (old(isFinished) || up.Some?)
    {
      up := None;
      if role == LeafCP {
        return;
      }
      finishedMsgs := finishedMsgs + 1;
      if finishedMsgs == numChildren {
        up := Some(true);
        isFinished := true;
      }
    }
  }

  // ---------------------------------------------------------------- leaf traces

  ghost function Attaches(events: seq<Event>): nat {
    if events == [] then 0 else (if events[0].Attached? then 1 else 0) + Attaches(events[1..])
  }

  ghost function Terminations(events: seq<Event>): nat {
    if events == [] then 0 else (if events[0].Terminated? then 1 else 0) + Terminations(events[1..])
  }

  ghost function AllNames(events: seq<Event>): Names {
    if events == [] then [] else (if events[0].Attached? then events[0].names else []) + AllNames(events[1..])
  }

  /** Event k is a termination that brings terminations level with attachments. */
  ghost predicate Level(events: seq<Event>, k: nat)
    requires k < |events|
  {
    events[k].Terminated? && Terminations(events[..k + 1]) == Attaches(events[..k + 1])
  }

  /** The race the source warns of does not happen: terminations draw level with attachments
      at the leaf's last event and at no earlier termination. */
  ghost predicate RaceFree(events: seq<Event>) {
    events != [] && Level(events, |events| - 1) && forall k: nat :: k < |events| - 1 ==> !Level(events, k)
  }

  lemma {:induction false} CountsSnoc(events: seq<Event>, e: Event)
    ensures Attaches(events + [e]) == Attaches(events) + if e.Attached? then 1 else 0
    ensures Terminations(events + [e]) == Terminations(events) + if e.Terminated? then 1 else 0
    ensures AllNames(events + [e]) == AllNames(events) + if e.Attached? then e.names else []
  {
    if events == [] {
      assert events + [e] == [e] && [e][1..] == [];
    } else {
      assert (events + [e])[1..] == events[1..] + [e];
      CountsSnoc(events[1..], e);
    }
  }

  lemma {:induction false} LeafCounts(events: seq<Event>)
    ensures LeafAfter(events) == LeafState(Attaches(events), Terminations(events), AllNames(events))
  {
    if events != [] {
      var front := events[..|events| - 1];
      LeafCounts(front);
      assert events == front + [events[|events| - 1]];
      CountsSnoc(front, events[|events| - 1]);
    }
  }

  lemma TraceAt(events: seq<Event>, k: nat)
    requires k < |events|
    ensures LeafTrace(events)[k] == if Level(events, k) then Some(AllNames(events[..k + 1])) else None
  {
    LeafCounts(events[..k]);
    assert events[..k + 1] == events[..k] + [events[k]];
    CountsSnoc(events[..k], events[k]);
    assert AllNames(events[..k]) + [] == AllNames(events[..k]);
  }

  ghost function NamesBag(): (Names, multiset<ThreadName>) -> bool {
    (v, m) => multiset(v) == m
  }

  ghost function Contributed(): seq<Event> -> multiset<ThreadName> {
    events => multiset(AllNames(events))
  }

  /** A leaf emits its list exactly once, with all its threads in it and as its last act,
      if and only if it is free of the race. */
  lemma LeafEmitsOnceIffRaceFree(events: seq<Event>)
    ensures OnlyLastEmits(LeafTrace(events)) <==> RaceFree(events)
    ensures GoodTrace(NamesBag(), Contributed()(events), LeafTrace(events)) <==> RaceFree(events)
  {
    forall k: nat | k < |events|
      ensures LeafTrace(events)[k] == if Level(events, k) then Some(AllNames(events[..k + 1])) else None
    {
      TraceAt(events, k);
    }
    if events != [] {
      assert events[..|events|] == events;
    }
  }

  // ---------------------------------------------------------------- the whole tree

  /** For every process tree of race-free leaves and every schedule: the front end emits its
      thread list at most once, and then it is a permutation of all the leaves' threads; every
      node below has emitted exactly once; and a run that cannot continue has emitted. */
  lemma ThreadListAtFrontEnd(t: Tree<seq<Event>>, moves: seq<Move>)
    requires Proper(t) && forall l :: l in Leaves(t) ==> RaceFree(l)
    ensures var end := Run(Append, Start(Contributed(), LeafTrace, [], t), moves);
            && |end.sent| <= 1
            && (end.sent != [] ==>
                  multiset(end.sent[0]) == SumItems(Contributed(), Leaves(t)) && AllSentOnce(end))
            && (Stuck(Append, end) ==> end.sent != [])
  {
    assert Respects(Append, NamesBag(), []);
    forall l | l in Leaves(t) ensures GoodTrace(NamesBag(), Contributed()(l), LeafTrace(l)) {
      LeafEmitsOnceIffRaceFree(l);
    }
    FrontEnd(Append, NamesBag(), [], Contributed(), LeafTrace, t, moves);
  }

  /** The race is all that can go wrong: for every process tree, every schedule gives a single complete
      thread list, after every leaf is done, if and only if every leaf is free of the race. */
  lemma DeliversIffRaceFree(t: Tree<seq<Event>>)
    requires Proper(t)
    ensures AllDeliver(Append, NamesBag(), SumItems(Contributed(), Leaves(t)), Start(Contributed(), LeafTrace, [], t))
            <==> forall l :: l in Leaves(t) ==> RaceFree(l)
  {
    hide AllDeliver, RaceFree, Proper;
    assert Respects(Append, NamesBag(), []);
    forall l: seq<Event>
      ensures OnlyLastEmits(LeafTrace(l)) <==> RaceFree(l)
      ensures OnlyLastEmits(LeafTrace(l)) ==> GoodTrace(NamesBag(), Contributed()(l), LeafTrace(l))
    {
      LeafEmitsOnceIffRaceFree(l);
    }
    DeliversIff(Append, NamesBag(), [], Contributed(), LeafTrace, t);
  }

  function Both(a: bool, b: bool): bool {
    true
  }

  ghost function Anything(): (bool, multiset<ThreadName>) -> bool {
    (v, m) => true
  }

  /** The front end says "finished" at most once, and only after every leaf has handled its last
      event, that is, after it has seen a termination for every attached thread. */
  lemma FinishedOnlyAfterAll(t: Tree<seq<Event>>, moves: seq<Move>)
    requires Proper(t) && forall l :: l in Leaves(t) ==> RaceFree(l)
    ensures var end := Run(Both, Start(Contributed(), FinishTrace, true, t), moves);
            && |end.sent| <= 1
            && (end.sent != [] ==> LeavesDone(end))
            && (Stuck(Both, end) ==> end.sent != [])
    ensures forall l :: l in Leaves(t) ==> Terminations(l) == Attaches(l)
  {
    forall l | l in Leaves(t)
      ensures GoodTrace(Anything(), Contributed()(l), FinishTrace(l)) && Terminations(l) == Attaches(l)
    {
      LeafEmitsOnceIffRaceFree(l);
      assert l[..|l|] == l;
      assert LeafTrace(l)[|l| - 1].Some?;
    }
    FrontEnd(Both, Anything(), true, Contributed(), FinishTrace, t, moves);
  }

  lemma FinishTraceIff(events: seq<Event>)
    ensures OnlyLastEmits(FinishTrace(events)) <==> RaceFree(events)
  {
    hide RaceFree;
    LeafEmitsOnceIffRaceFree(events);
    assert forall k :: 0 <= k < |events| ==> (FinishTrace(events)[k].Some? <==> LeafTrace(events)[k].Some?);
  }

  /** For "finished" too the race is all that can go wrong. */
  lemma FinishedIffRaceFree(t: Tree<seq<Event>>)
    requires Proper(t)
    ensures AllDeliver(Both, Anything(), SumItems(Contributed(), Leaves(t)), Start(Contributed(), FinishTrace, true, t))
            <==> forall l :: l in Leaves(t) ==> RaceFree(l)
  {
    hide AllDeliver, RaceFree, Proper;
    forall l: seq<Event>
      ensures OnlyLastEmits(FinishTrace(l)) <==> RaceFree(l)
    {
      FinishTraceIff(l);
    }
    DeliversIff(Both, Anything(), true, Contributed(), FinishTrace, t);
  }

  /** The events of a leaf whose first thread ends before its second attaches. */
  function RacyEvents(a: ThreadName, b: ThreadName): seq<Event> {
    [Attached([a]), Terminated, Attached([b]), Terminated]
  }

  lemma RacyTrace(a: ThreadName, b: ThreadName)
    ensures LeafTrace(RacyEvents(a, b))[0] == None
    ensures LeafTrace(RacyEvents(a, b))[1] == Some([a])
  {
    var events := RacyEvents(a, b);
    assert events[..0] == [] && events[..1] == [Attached([a])] && events[..1][..0] == [];
    assert LeafAfter(events[..1]) == LeafState(1, 0, [a]);
  }

  /** One child that emits in its second of four calls: the parent emits on that message. */
  lemma ParentActsOnFirstMessage(items: multiset<ThreadName>, trace: seq<Option<Names>>, v: Names)
    requires |trace| == 4 && trace[0] == None && trace[1] == Some(v)
    ensures var net := Node([Leaf(items, trace, 0, [], 0)], [], 0, [], 0);
            var end := Run(Append, net, [Down(0, Act), Down(0, Act), Take(0)]);
            end.sent == [v] && !LeavesDone(end)
  {
    var leaf2 := Leaf(items, trace, 2, [v], 0);
    var s0 := Node([Leaf(items, trace, 0, [], 0)], [], 0, [], 0);
    var s1 := Node([Leaf(items, trace, 1, [], 0)], [], 0, [], 0);
    var s2 := Node([leaf2], [], 0, [], 0);
    var s3 := Node([Leaf(items, trace, 2, [v], 1)], v, 1, [v], 0);
    assert Step(Append, s0, Down(0, Act)) == s1;
    assert Step(Append, s1.kids[0], Act) == leaf2;
    assert Step(Append, s1, Down(0, Act)) == s2;
    assert [] + v == v;
    assert Step(Append, s2, Take(0)) == s3;
    var moves := [Down(0, Act), Down(0, Act), Take(0)];
    assert moves[1..] == [Down(0, Act), Take(0)] && moves[1..][1..] == [Take(0)] && [Take(0)][1..] == [];
    assert Run(Append, s0, moves) == Run(Append, s1, moves[1..]) == Run(Append, s2, [Take(0)]) == Run(Append, s3, []);
    assert !LeavesDone(s3.kids[0]);
  }

  /** With the race, the promise fails: the front end emits a list without the second thread,
      before the leaf has even heard of it. */
  lemma RaceLosesThread(a: ThreadName, b: ThreadName)
    ensures !RaceFree(RacyEvents(a, b))
    ensures var t := Fork([Tip(RacyEvents(a, b))]);
            var end := Run(Append, Start(Contributed(), LeafTrace, [], t), [Down(0, Act), Down(0, Act), Take(0)]);
            end.sent == [[a]] && !LeavesDone(end)
  {
    var events := RacyEvents(a, b);
    RacyTrace(a, b);
    TraceAt(events, 1);
    assert Level(events, 1);
    var t := Fork([Tip(events)]);
    assert t.kids[1..] == [];
    assert Start(Contributed(), LeafTrace, [], t)
           == Node([Leaf(Contributed()(events), LeafTrace(events), 0, [], 0)], [], 0, [], 0);
    ParentActsOnFirstMessage(Contributed()(events), LeafTrace(events), [a]);
  }
}
