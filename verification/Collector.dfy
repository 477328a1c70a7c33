/** The messages a process with many threads sends: attached, data, linked objects, terminated
    (services/collector/collector.c). */
module Collector {
  import LinkedObjects

  type Thread = nat

  /** Performance data, which is passed on as it is. */
  type Blob = seq<bv8>

  datatype Message =
    | Attached(thread: Thread)
    | Data(thread: Thread, data: Blob)
    | Objects(thread: Thread, group: seq<LinkedObjects.LinkedObject>)
    | Terminated(thread: Thread)

  /** The thread-local state; stopped once cbtf_timer_service_stop_sampling has run to its end. */
  datatype Tls = Tls(sent: bool, hasOmpt: bool, omptFinished: bool, stopped: bool)

  /** The network is down once the last thread has left: it waits there for the front end to end the
      session, holding the lock that a starting thread needs, and deletes the network. */
  datatype State =
    State(connected: bool, numThreads: int, down: bool, tls: map<Thread, Tls>, wire: seq<Message>)

  const INITIAL := State(false, 0, false, map[], [])

  /** What a thread may do, in any interleaving with the others. */
  datatype Call =
    | Start(thread: Thread)
    | Connect(thread: Thread)
    | SendAttached(thread: Thread)
    | Send(thread: Thread, data: Blob)
    | SetOmpt(thread: Thread, has: bool, finished: bool)
    | Stop(thread: Thread, groups: seq<seq<LinkedObjects.LinkedObject>>)

  /** A thread starts once, and then calls until it has stopped. */
  predicate Enabled(s: State, c: Call) {
    if c.Start? then c.thread !in s.tls && !s.down else c.thread in s.tls && !s.tls[c.thread].stopped
  }

  function Attach(s: State, t: Thread): State
    requires t in s.tls
  {
    if s.connected && !s.tls[t].sent
    then s.(tls := s.tls[t := s.tls[t].(sent := true)], wire := s.wire + [Attached(t)])
    else s
  }

  function AddObjects(wire: seq<Message>, t: Thread, groups: seq<seq<LinkedObjects.LinkedObject>>): seq<Message> {
    if groups == [] then wire
    else AddObjects(wire, t, groups[..|groups| - 1]) + [Objects(t, groups[|groups| - 1])]
  }

  /** A program without MPI connects in its first thread; with MPI a monitor callback connects. */
  function Step(mpi: bool, s: State, c: Call): State
    requires Enabled(s, c)
  {
    var t := c.thread;
    match c
    case Start(_) =>
      var n := s.numThreads + 1;
      var connected := if !mpi && n == 1 then true else s.connected;
      var s' := State(connected, n, s.down, s.tls[t := Tls(false, false, false, false)], s.wire);
      if mpi then s' else Attach(s', t)
    case Connect(_) => s.(connected := true)
    case SendAttached(_) => Attach(s, t)
    case Send(_, data) =>
      if s.connected then var s' := Attach(s, t); s'.(wire := s'.wire + [Data(t, data)]) else s
    case SetOmpt(_, has, finished) => s.(tls := s.tls[t := s.tls[t].(hasOmpt := has, omptFinished := finished)])
    case Stop(_, groups) =>
      if s.tls[t].hasOmpt && !s.tls[t].omptFinished then s
      else
        var wire := if s.tls[t].sent && s.connected then AddObjects(s.wire, t, groups) + [Terminated(t)] else s.wire;
        State(s.connected, s.numThreads - 1, s.down || s.numThreads == 1, s.tls[t := s.tls[t].(stopped := true)], wire)
  }

  class CollectorProcess {
    const mpi: bool
    var connectedToMrnet: bool
    var numThreads: int
    var down: bool
    var tls: map<Thread, Tls>
    var wire: seq<Message>

    function Current(): State
      reads this
    {
      State(connectedToMrnet, numThreads, down, tls, wire)
    }

    constructor (useMpi: bool)
      ensures Current() == INITIAL && mpi == useMpi
    {
      mpi, connectedToMrnet, numThreads, down, tls, wire := useMpi, false, 0, false, map[], [];
    }

    method SendAttachedToThreadsMessage(t: Thread)
      requires t in tls
      modifies this
      ensures Current() == Attach(old(Current()), t)
    {
      if connectedToMrnet && !tls[t].sent {
        wire := wire + [Attached(t)];
        tls := tls[t := tls[t].(sent := true)];
      }
    }

    method ConnectToMrnet(t: Thread)
      requires Enabled(Current(), Connect(t))
      modifies this
      ensures Current() == Step(mpi, old(Current()), Connect(t))
    {
      connectedToMrnet := true;
    }

    method StartSampling(t: Thread)
      requires Enabled(Current(), Start(t))
      modifies this
      ensures Current() == Step(mpi, old(Current()), Start(t))
    {
      numThreads := numThreads + 1;
      tls := tls[t := Tls(false, false, false, false)];
      if !mpi {
        if numThreads == 1 {
          connectedToMrnet := false;
          ConnectToMrnet(t);
        }
        if connectedToMrnet {
          if !tls[t].sent {
            SendAttachedToThreadsMessage(t);
            tls := tls[t := tls[t].(sent := true)];
          }
        }
      }
    }

    method CollectorSend(t: Thread, data: Blob)
      requires Enabled(Current(), Send(t, data))
      modifies this
      ensures Current() == Step(mpi, old(Current()), Send(t, data))
    {
      if connectedToMrnet {
        if !tls[t].sent {
          SendAttachedToThreadsMessage(t);
          tls := tls[t := tls[t].(sent := true)];
        }
        wire := wire + [Data(t, data)];
      }
    }

    method StopSampling(t: Thread, groups: seq<seq<LinkedObjects.LinkedObject>>)
      requires Enabled(Current(), Stop(t, groups))
      modifies this
      ensures Current() == Step(mpi, old(Current()), Stop(t, groups))
    {
      if tls[t].hasOmpt && !tls[t].omptFinished {
        return;
      }
      if tls[t].sent {
        for i := 0 to |groups|
          invariant connectedToMrnet == old(connectedToMrnet) && numThreads == old(numThreads)
          invariant down == old(down) && tls == old(tls)
          invariant wire == if connectedToMrnet then AddObjects(old(wire), t, groups[..i]) else old(wire)
        {
          assert groups[..i + 1][..i] == groups[..i];
          if connectedToMrnet {
            wire := wire + [Objects(t, groups[i])];
          }
        }
        assert groups[..|groups|] == groups;
        if connectedToMrnet {
          wire := wire + [Terminated(t)];
        }
      }
      numThreads := numThreads - 1;
      if numThreads == 0 {
        down := true;
      }
      tls := tls[t := tls[t].(stopped := true)];
    }
  }

  // ---------------------------------------------------------------- order on the wire

  ghost predicate AttachedBefore(wire: seq<Message>, i: nat, t: Thread) {
    exists j: nat :: j < i && j < |wire| && wire[j] == Attached(t)
  }

  /** Attached at most once and after nothing else; nothing after terminated. */
  ghost predicate Tidy(wire: seq<Message>) {
    && (forall i: nat, j: nat :: i < j < |wire| && wire[j].Attached? ==> wire[i].thread != wire[j].thread)
    && (forall i: nat, j: nat :: i < j < |wire| && wire[i].Terminated? ==> wire[i].thread != wire[j].thread)
  }

  /** Attached at most once and before anything else; nothing after terminated. */
  ghost predicate Orderly(wire: seq<Message>) {
    Tidy(wire) && forall i: nat :: i < |wire| && !wire[i].Attached? ==> AttachedBefore(wire, i, wire[i].thread)
  }

  lemma TidySnoc(wire: seq<Message>, m: Message)
    requires Tidy(wire) && Terminated(m.thread) !in wire
    requires m.Attached? ==> forall x :: x in wire ==> x.thread != m.thread
    ensures Tidy(wire + [m])
  {
    var more := wire + [m];
    forall i: nat, j: nat | i < j < |more|
      ensures more[j].Attached? || more[i].Terminated? ==> more[i].thread != more[j].thread
    {
      assert more[i] == wire[i] && wire[i] in wire;
    }
  }

  /** A tidy wire is in order exactly when everyone on it has attached. */
  lemma OrderlyIff(wire: seq<Message>)
    requires Tidy(wire)
    ensures Orderly(wire) <==> forall m :: m in wire ==> Attached(m.thread) in wire
  {
    if Orderly(wire) {
      forall m | m in wire
        ensures Attached(m.thread) in wire
      {
        var i: nat :| i < |wire| && wire[i] == m;
        FirstIsAttached(wire, i);
      }
    }
    if forall m :: m in wire ==> Attached(m.thread) in wire {
      forall i: nat | i < |wire| && !wire[i].Attached?
        ensures AttachedBefore(wire, i, wire[i].thread)
      {
        assert wire[i] in wire;
        var j: nat :| j < |wire| && wire[j] == Attached(wire[i].thread);
      }
    }
  }

  lemma OrderlySnoc(wire: seq<Message>, m: Message)
    requires Orderly(wire) && Terminated(m.thread) !in wire
    requires m.Attached? <==> Attached(m.thread) !in wire
    ensures Orderly(wire + [m])
  {
    hide Tidy;
    OrderlyIff(wire);
    TidySnoc(wire, m);
    OrderlyIff(wire + [m]);
  }

  lemma FirstIsAttached(wire: seq<Message>, i: nat)
    requires Orderly(wire) && i < |wire|
    ensures Attached(wire[i].thread) in wire
  {
    if !wire[i].Attached? {
      var j: nat :| j < i && wire[j] == Attached(wire[i].thread);
    }
  }

  lemma {:induction false} OrderlyObjects(wire: seq<Message>, t: Thread, groups: seq<seq<LinkedObjects.LinkedObject>>)
    requires Orderly(wire) && Attached(t) in wire && Terminated(t) !in wire
    ensures Orderly(AddObjects(wire, t, groups))
    ensures forall u: Thread :: Attached(u) in AddObjects(wire, t, groups) <==> Attached(u) in wire
    ensures forall u: Thread :: Terminated(u) in AddObjects(wire, t, groups) <==> Terminated(u) in wire
  {
    hide Orderly;
    if groups != [] {
      var front := groups[..|groups| - 1];
      OrderlyObjects(wire, t, front);
      OrderlySnoc(AddObjects(wire, t, front), Objects(t, groups[|groups| - 1]));
    }
  }

  function Running(tls: map<Thread, Tls>): set<Thread> {
    set t | t in tls && !tls[t].stopped
  }

  /** The flags of each thread against what is on the wire. */
  ghost predicate Flags(s: State) {
    && (forall t :: t in s.tls ==> (s.tls[t].sent <==> Attached(t) in s.wire) && (s.tls[t].sent ==> s.connected))
    && (forall t :: t in s.tls ==> (s.tls[t].stopped && s.tls[t].sent <==> Terminated(t) in s.wire))
    && (forall m :: m in s.wire ==> m.thread in s.tls)
  }

  ghost predicate Inv(s: State) {
    Orderly(s.wire) && Flags(s) && s.numThreads == |Running(s.tls)|
  }

  lemma AttachKeeps(s: State, t: Thread)
    requires Orderly(s.wire) && Flags(s) && t in s.tls && !s.tls[t].stopped
    ensures var s' := Attach(s, t);
            && Orderly(s'.wire) && Flags(s') && s'.tls.Keys == s.tls.Keys && Running(s'.tls) == Running(s.tls)
            && (s'.connected ==> s'.tls[t].sent) && !s'.tls[t].stopped
  {
    hide Orderly;
    if s.connected && !s.tls[t].sent {
      OrderlySnoc(s.wire, Attached(t));
    }
  }

  function WithThread(s: State, t: Thread, connected: bool): State {
    State(connected, s.numThreads + 1, s.down, s.tls[t := Tls(false, false, false, false)], s.wire)
  }

  lemma NewThread(s: State, t: Thread, connected: bool)
    requires Inv(s) && t !in s.tls && (s.connected ==> connected)
    ensures Inv(WithThread(s, t, connected))
  {
    hide Orderly;
    var s' := WithThread(s, t, connected);
    forall m | m in s.wire
      ensures m.thread != t
    {
      assert m.thread in s.tls;
    }
    assert Running(s'.tls) == Running(s.tls) + {t};
  }

  lemma StartKeeps(mpi: bool, s: State, t: Thread)
    requires Inv(s) && Enabled(s, Start(t))
    ensures Inv(Step(mpi, s, Start(t)))
  {
    hide Orderly, Attach, Flags, Running;
    var connected := if !mpi && s.numThreads + 1 == 1 then true else s.connected;
    var s' := WithThread(s, t, connected);
    NewThread(s, t, connected);
    AttachKeeps(s', t);
    AttachCounts(s', t);
  }

  lemma AttachCounts(s: State, t: Thread)
    requires t in s.tls
    ensures Attach(s, t).numThreads == s.numThreads && Attach(s, t).connected == s.connected
  {
  }

  lemma SendKeeps(mpi: bool, s: State, t: Thread, data: Blob)
    requires Inv(s) && Enabled(s, Send(t, data))
    ensures Inv(Step(mpi, s, Send(t, data)))
  {
    hide Orderly, Attach;
    if s.connected {
      AttachKeeps(s, t);
      AttachCounts(s, t);
      var s' := Attach(s, t);
      OrderlySnoc(s'.wire, Data(t, data));
    }
  }

  lemma StopKeeps(mpi: bool, s: State, t: Thread, groups: seq<seq<LinkedObjects.LinkedObject>>)
    requires Inv(s) && Enabled(s, Stop(t, groups))
    ensures Inv(Step(mpi, s, Stop(t, groups)))
  {
    hide Orderly, AddObjects;
    var s' := Step(mpi, s, Stop(t, groups));
    if s' != s {
      assert Running(s'.tls) == Running(s.tls) - {t};
      assert t in Running(s.tls);
      if s.tls[t].sent {
        var objects := AddObjects(s.wire, t, groups);
        OrderlyObjects(s.wire, t, groups);
        OrderlySnoc(objects, Terminated(t));
        ObjectsFrom(s.wire, t, groups);
      }
    }
  }

  lemma {:induction false} ObjectsFrom(wire: seq<Message>, t: Thread, groups: seq<seq<LinkedObjects.LinkedObject>>)
    ensures forall m :: m in AddObjects(wire, t, groups) ==> m in wire || m.thread == t
  {
    if groups != [] {
      ObjectsFrom(wire, t, groups[..|groups| - 1]);
    }
  }

  lemma StepKeeps(mpi: bool, s: State, c: Call)
    requires Inv(s) && Enabled(s, c)
    ensures Inv(Step(mpi, s, c))
  {
    match c {
      case Start(t) => StartKeeps(mpi, s, t);
      case Connect(t) =>
      case SendAttached(t) => AttachKeeps(s, t);
      case Send(t, data) => SendKeeps(mpi, s, t, data);
      case SetOmpt(t, has, finished) =>
        assert Running(Step(mpi, s, c).tls) == Running(s.tls);
      case Stop(t, groups) => StopKeeps(mpi, s, t, groups);
    }
  }

  /** Runs of calls, each enabled when it is made. */
  ghost predicate IsRun(mpi: bool, s: State, calls: seq<Call>, s': State)
    decreases |calls|
  {
    if calls == [] then s' == s
    else Enabled(s, calls[0]) && IsRun(mpi, Step(mpi, s, calls[0]), calls[1..], s')
  }

  lemma {:induction false} RunKeeps(mpi: bool, s: State, calls: seq<Call>, s': State)
    requires Inv(s) && IsRun(mpi, s, calls, s')
    ensures Inv(s')
    decreases |calls|
  {
    hide Inv, Step;
    if calls != [] {
      StepKeeps(mpi, s, calls[0]);
      RunKeeps(mpi, Step(mpi, s, calls[0]), calls[1..], s');
    }
  }

  // ---------------------------------------------------------------- counting

  function Attaches(wire: seq<Message>): nat {
    if wire == [] then 0 else Attaches(wire[..|wire| - 1]) + if wire[|wire| - 1].Attached? then 1 else 0
  }

  function Terminations(wire: seq<Message>): nat {
    if wire == [] then 0 else Terminations(wire[..|wire| - 1]) + if wire[|wire| - 1].Terminated? then 1 else 0
  }

  function AttachedSet(wire: seq<Message>): set<Thread> {
    set m | m in wire && m.Attached? :: m.thread
  }

  function TerminatedSet(wire: seq<Message>): set<Thread> {
    set m | m in wire && m.Terminated? :: m.thread
  }

  lemma OrderlyPrefix(wire: seq<Message>, k: nat)
    requires Orderly(wire) && k <= |wire|
    ensures Orderly(wire[..k])
  {
    var w := wire[..k];
    forall i: nat | i < |w| && !w[i].Attached?
      ensures AttachedBefore(w, i, w[i].thread)
    {
      assert AttachedBefore(wire, i, wire[i].thread);
      var j: nat :| j < i && wire[j] == Attached(wire[i].thread);
      assert w[j] == wire[j];
    }
  }

  lemma TidyPrefix(wire: seq<Message>, k: nat)
    requires Tidy(wire) && k <= |wire|
    ensures Tidy(wire[..k])
  {
  }

  lemma SetsSnoc(front: seq<Message>, m: Message)
    requires Tidy(front + [m])
    ensures AttachedSet(front + [m]) == if m.Attached? then AttachedSet(front) + {m.thread} else AttachedSet(front)
    ensures TerminatedSet(front + [m])
            == if m.Terminated? then TerminatedSet(front) + {m.thread} else TerminatedSet(front)
    ensures m.Attached? ==> m.thread !in AttachedSet(front)
    ensures m.Terminated? ==> m.thread !in TerminatedSet(front)
  {
    var wire := front + [m];
    assert forall x :: x in wire <==> x in front || x == m;
    assert wire[|front|] == m && forall i: nat :: i < |front| ==> wire[i] == front[i];
  }

  lemma {:induction false} CountsAreSets(wire: seq<Message>)
    requires Tidy(wire)
    ensures Attaches(wire) == |AttachedSet(wire)| && Terminations(wire) == |TerminatedSet(wire)|
  {
    hide Tidy;
    if wire != [] {
      hide AttachedSet, TerminatedSet;
      var n := |wire| - 1;
      TidyPrefix(wire, n);
      CountsAreSets(wire[..n]);
      assert wire == wire[..n] + [wire[n]];
      SetsSnoc(wire[..n], wire[n]);
    } else {
      assert AttachedSet(wire) == {} && TerminatedSet(wire) == {};
    }
  }

  lemma TerminatedWereAttached(wire: seq<Message>)
    requires Orderly(wire)
    ensures TerminatedSet(wire) <= AttachedSet(wire)
  {
    forall t | t in TerminatedSet(wire)
      ensures t in AttachedSet(wire)
    {
      var i: nat :| i < |wire| && wire[i] == Terminated(t);
      FirstIsAttached(wire, i);
    }
  }

  lemma SubsetSmaller(a: set<Thread>, b: set<Thread>)
    requires a <= b
    ensures |a| <= |b|
  {
    assert b == a + (b - a);
  }

  lemma NeverMoreTerminated(wire: seq<Message>)
    requires Orderly(wire)
    ensures forall k: nat :: k <= |wire| ==> Terminations(wire[..k]) <= Attaches(wire[..k])
  {
    hide Tidy, Attaches, Terminations;
    forall k: nat | k <= |wire|
      ensures Terminations(wire[..k]) <= Attaches(wire[..k])
    {
      OrderlyPrefix(wire, k);
      CountsAreSets(wire[..k]);
      TerminatedWereAttached(wire[..k]);
      SubsetSmaller(TerminatedSet(wire[..k]), AttachedSet(wire[..k]));
    }
  }

  /** In every interleaving of whole calls: messages are in order, at no moment have more threads
      terminated than attached, and once every thread has stopped the two counts are equal. */
  lemma EveryRun(mpi: bool, calls: seq<Call>, s: State)
    requires IsRun(mpi, INITIAL, calls, s)
    ensures Orderly(s.wire)
    ensures forall k: nat :: k <= |s.wire| ==> Terminations(s.wire[..k]) <= Attaches(s.wire[..k])
    ensures s.numThreads == 0 ==> Terminations(s.wire) == Attaches(s.wire)
  {
    hide Tidy, Attaches, Terminations, IsRun;
    InitialInv();
    RunKeeps(mpi, INITIAL, calls, s);
    NeverMoreTerminated(s.wire);
    CountsAreSets(s.wire);
    if s.numThreads == 0 {
      TerminatedWereAttached(s.wire);
      assert Running(s.tls) == {};
      forall t | t in AttachedSet(s.wire)
        ensures t in TerminatedSet(s.wire)
      {
        assert Attached(t) in s.wire && t in s.tls && t !in Running(s.tls);
        assert Terminated(t) in s.wire;
      }
      assert AttachedSet(s.wire) == TerminatedSet(s.wire);
    }
  }

  lemma InitialInv()
    ensures Inv(INITIAL)
  {
  }

  // ---------------------------------------------------------------- what each thread says

  /** The messages of one thread, in order. */
  ghost function Said(wire: seq<Message>, t: Thread): seq<Message> {
    if wire == [] then []
    else
      var m := wire[|wire| - 1];
      Said(wire[..|wire| - 1], t) + if m.thread == t then [m] else []
  }

  /** The process is connected after these calls: without MPI from the first one on, which can only be
      the start of a thread, and with or without from the first connect on. */
  ghost predicate Up(mpi: bool, calls: seq<Call>) {
    (!mpi && calls != []) || exists k :: 0 <= k < |calls| && calls[k].Connect?
  }

  /** A call that has something to send, if there is a connection. */
  ghost predicate Sending(mpi: bool, c: Call) {
    c.Send? || c.SendAttached? || (c.Start? && !mpi)
  }

  /** The thread has made such a call with the connection up; a start brings it up itself. */
  ghost predicate Speaks(mpi: bool, calls: seq<Call>, t: Thread) {
    exists k :: 0 <= k < |calls| && calls[k].thread == t && Sending(mpi, calls[k]) && Up(mpi, calls[..k + 1])
  }

  /** One message for each time it sent data with the connection up. */
  ghost function DataSent(mpi: bool, calls: seq<Call>, t: Thread): seq<Message> {
    if calls == [] then []
    else
      var front, c := calls[..|calls| - 1], calls[|calls| - 1];
      DataSent(mpi, front, t) + if c.Send? && c.thread == t && Up(mpi, front) then [Data(t, c.data)] else []
  }

  /** The thread was last said to be an OpenMP thread that has not finished. */
  ghost predicate Busy(calls: seq<Call>, t: Thread) {
    calls != [] &&
    var front, c := calls[..|calls| - 1], calls[|calls| - 1];
    if c.SetOmpt? && c.thread == t then c.has && !c.finished else Busy(front, t)
  }

  ghost function ObjectMessages(t: Thread, groups: seq<seq<LinkedObjects.LinkedObject>>): seq<Message> {
    seq(|groups|, i requires 0 <= i < |groups| => Objects(t, groups[i]))
  }

  /** All its groups and the termination, at a stop while it is not busy. */
  ghost function Farewell(calls: seq<Call>, t: Thread): seq<Message> {
    if calls == [] then []
    else
      var front, c := calls[..|calls| - 1], calls[|calls| - 1];
      Farewell(front, t)
      + if c.Stop? && c.thread == t && !Busy(front, t) then ObjectMessages(t, c.groups) + [Terminated(t)] else []
  }

  /** What a thread has said is settled by the calls: if it ever had anything to send with the
      connection up, attached, its data, and at the end its objects and terminated. */
  ghost function Speech(mpi: bool, calls: seq<Call>, t: Thread): seq<Message> {
    if Speaks(mpi, calls, t) then [Attached(t)] + DataSent(mpi, calls, t) + Farewell(calls, t) else []
  }

  lemma SaidSnoc(wire: seq<Message>, m: Message, t: Thread)
    ensures Said(wire + [m], t) == Said(wire, t) + if m.thread == t then [m] else []
  {
    assert (wire + [m])[..|wire|] == wire;
  }

  lemma {:induction false} SaidObjects(wire: seq<Message>, u: Thread, groups: seq<seq<LinkedObjects.LinkedObject>>,
                                       t: Thread)
    ensures Said(AddObjects(wire, u, groups), t) == Said(wire, t) + if u == t then ObjectMessages(t, groups) else []
  {
    if groups != [] {
      var n := |groups| - 1;
      SaidObjects(wire, u, groups[..n], t);
      SaidSnoc(AddObjects(wire, u, groups[..n]), Objects(u, groups[n]), t);
      assert ObjectMessages(t, groups) == ObjectMessages(t, groups[..n]) + [Objects(t, groups[n])];
    }
  }

  /** The state against the calls made so far. */
  ghost predicate Tells(mpi: bool, calls: seq<Call>, s: State, t: Thread) {
    && (s.connected <==> Up(mpi, calls))
    && (calls == [] ==> s == INITIAL)
    && Said(s.wire, t) == Speech(mpi, calls, t)
    && (t !in s.tls ==> !Speaks(mpi, calls, t) && Farewell(calls, t) == [] && DataSent(mpi, calls, t) == []
                        && !Busy(calls, t))
    && (t in s.tls ==>
          && (s.tls[t].sent <==> Speaks(mpi, calls, t))
          && (s.tls[t].hasOmpt && !s.tls[t].omptFinished <==> Busy(calls, t))
          && (!s.tls[t].stopped ==> Farewell(calls, t) == [])
          && (!s.tls[t].sent ==> DataSent(mpi, calls, t) == []))
  }

  lemma UpSnoc(mpi: bool, calls: seq<Call>, c: Call)
    ensures Up(mpi, calls + [c]) <==> Up(mpi, calls) || !mpi || c.Connect?
  {
    var more := calls + [c];
    if Up(mpi, calls) && mpi {
      var k :| 0 <= k < |calls| && calls[k].Connect?;
      assert more[k].Connect?;
    }
    assert more[|calls|] == c;
  }

  lemma SpeaksSnoc(mpi: bool, calls: seq<Call>, c: Call, t: Thread)
    ensures Speaks(mpi, calls + [c], t)
            <==> Speaks(mpi, calls, t) || (c.thread == t && Sending(mpi, c) && Up(mpi, calls + [c]))
  {
    hide Up;
    var more := calls + [c];
    assert more[..|calls| + 1] == more && more[|calls|] == c;
    assert forall k :: 0 <= k < |calls| ==> more[..k + 1] == calls[..k + 1] && more[k] == calls[k];
    if Speaks(mpi, calls, t) {
      var k :| 0 <= k < |calls| && calls[k].thread == t && Sending(mpi, calls[k]) && Up(mpi, calls[..k + 1]);
      assert more[k].thread == t;
    }
  }

  lemma HistorySnoc(mpi: bool, calls: seq<Call>, c: Call, t: Thread)
    ensures DataSent(mpi, calls + [c], t)
            == DataSent(mpi, calls, t)
               + if c.Send? && c.thread == t && Up(mpi, calls) then [Data(t, c.data)] else []
    ensures Farewell(calls + [c], t)
            == Farewell(calls, t)
               + if c.Stop? && c.thread == t && !Busy(calls, t)
                 then ObjectMessages(t, c.groups) + [Terminated(t)] else []
    ensures Busy(calls + [c], t) <==> if c.SetOmpt? && c.thread == t then c.has && !c.finished else Busy(calls, t)
  {
    hide Up;
    assert (calls + [c])[..|calls|] == calls;
  }

  lemma {:induction false} RunSnoc(mpi: bool, s: State, calls: seq<Call>, c: Call, s': State) returns (mid: State)
    requires IsRun(mpi, s, calls + [c], s')
    ensures IsRun(mpi, s, calls, mid) && Enabled(mid, c) && s' == Step(mpi, mid, c)
    decreases |calls|
  {
    hide Step;
    if calls == [] {
      assert [c][1..] == [];
      mid := s;
    } else {
      assert (calls + [c])[1..] == calls[1..] + [c];
      mid := RunSnoc(mpi, Step(mpi, s, calls[0]), calls[1..], c, s');
    }
  }

  lemma {:induction false} SpeaksMeansUp(mpi: bool, calls: seq<Call>, t: Thread)
    requires Speaks(mpi, calls, t)
    ensures Up(mpi, calls)
  {
    var k :| 0 <= k < |calls| && calls[k].thread == t && Sending(mpi, calls[k]) && Up(mpi, calls[..k + 1]);
    if mpi {
      var j :| 0 <= j < k + 1 && calls[..k + 1][j].Connect?;
      assert calls[j].Connect?;
    }
  }

  /** A call connects exactly as the calls say. */
  lemma ConnectedStep(mpi: bool, calls: seq<Call>, s: State, c: Call)
    requires (s.connected <==> Up(mpi, calls)) && (calls == [] ==> s == INITIAL) && Enabled(s, c)
    ensures Step(mpi, s, c).connected <==> Up(mpi, calls + [c])
  {
    UpSnoc(mpi, calls, c);
  }

  /** A call says nothing for another thread. */
  lemma OthersSay(mpi: bool, s: State, c: Call, t: Thread)
    requires Enabled(s, c) && c.thread != t
    ensures var s' := Step(mpi, s, c);
            Said(s'.wire, t) == Said(s.wire, t) && (t in s'.tls <==> t in s.tls)
            && (t in s.tls ==> s'.tls[t] == s.tls[t])
  {
    hide Said, AddObjects;
    SaidSnoc(s.wire, Attached(c.thread), t);
    match c {
      case Send(u, data) =>
        SaidSnoc(s.wire, Data(u, data), t);
        SaidSnoc(s.wire + [Attached(u)], Data(u, data), t);
      case Stop(u, groups) =>
        SaidObjects(s.wire, u, groups, t);
        SaidSnoc(AddObjects(s.wire, u, groups), Terminated(u), t);
      case _ =>
    }
  }

  lemma OtherTells(mpi: bool, calls: seq<Call>, s: State, c: Call, t: Thread)
    requires Tells(mpi, calls, s, t) && Enabled(s, c) && c.thread != t
    ensures Tells(mpi, calls + [c], Step(mpi, s, c), t)
  {
    hide Said, Up, Speaks, DataSent, Farewell, Busy, Step;
    ConnectedStep(mpi, calls, s, c);
    OthersSay(mpi, s, c, t);
    SpeaksSnoc(mpi, calls, c, t);
    HistorySnoc(mpi, calls, c, t);
  }

  lemma StartTells(mpi: bool, calls: seq<Call>, s: State, t: Thread)
    requires Tells(mpi, calls, s, t) && Enabled(s, Start(t))
    ensures Tells(mpi, calls + [Start(t)], Step(mpi, s, Start(t)), t)
  {
    hide Said, Up, Speaks, DataSent, Farewell, Busy;
    ConnectedStep(mpi, calls, s, Start(t));
    UpSnoc(mpi, calls, Start(t));
    SpeaksSnoc(mpi, calls, Start(t), t);
    HistorySnoc(mpi, calls, Start(t), t);
    SaidSnoc(s.wire, Attached(t), t);
  }

  /** Attaching and sending data. */
  lemma SendTells(mpi: bool, calls: seq<Call>, s: State, c: Call)
    requires Tells(mpi, calls, s, c.thread) && Enabled(s, c) && (c.Send? || c.SendAttached?)
    ensures Tells(mpi, calls + [c], Step(mpi, s, c), c.thread)
  {
    hide Said, Up, Speaks, DataSent, Farewell, Busy;
    var t := c.thread;
    ConnectedStep(mpi, calls, s, c);
    UpSnoc(mpi, calls, c);
    SpeaksSnoc(mpi, calls, c, t);
    HistorySnoc(mpi, calls, c, t);
    SaidSnoc(s.wire, Attached(t), t);
    if Speaks(mpi, calls, t) {
      SpeaksMeansUp(mpi, calls, t);
    }
    assert mpi || s.connected by {
      if !mpi {
        FirstIsStart(mpi, calls, s, c);
      }
    }
    if c.Send? {
      SaidSnoc(s.wire, Data(t, c.data), t);
      SaidSnoc(s.wire + [Attached(t)], Data(t, c.data), t);
    }
  }

  lemma FirstIsStart(mpi: bool, calls: seq<Call>, s: State, c: Call)
    requires (calls == [] ==> s == INITIAL) && Enabled(s, c) && !c.Start?
    ensures calls != [] && (!mpi ==> Up(mpi, calls))
  {
  }

  lemma StopTells(mpi: bool, calls: seq<Call>, s: State, c: Call)
    requires Tells(mpi, calls, s, c.thread) && Enabled(s, c) && c.Stop?
    ensures Tells(mpi, calls + [c], Step(mpi, s, c), c.thread)
  {
    hide Said, Up, Speaks, DataSent, Farewell, Busy, AddObjects;
    var t := c.thread;
    ConnectedStep(mpi, calls, s, c);
    SpeaksSnoc(mpi, calls, c, t);
    HistorySnoc(mpi, calls, c, t);
    if Speaks(mpi, calls, t) {
      SpeaksMeansUp(mpi, calls, t);
    }
    SaidObjects(s.wire, t, c.groups, t);
    SaidSnoc(AddObjects(s.wire, t, c.groups), Terminated(t), t);
  }

  lemma StepTells(mpi: bool, calls: seq<Call>, s: State, c: Call, t: Thread)
    requires Tells(mpi, calls, s, t) && Enabled(s, c)
    ensures Tells(mpi, calls + [c], Step(mpi, s, c), t)
  {
    hide Tells, Step;
    if c.thread != t {
      OtherTells(mpi, calls, s, c, t);
    } else {
      match c {
        case Start(_) => StartTells(mpi, calls, s, t);
        case Send(_, _) => SendTells(mpi, calls, s, c);
        case SendAttached(_) => SendTells(mpi, calls, s, c);
        case Stop(_, _) => StopTells(mpi, calls, s, c);
        case _ => QuietTells(mpi, calls, s, c);
      }
    }
  }

  lemma QuietTells(mpi: bool, calls: seq<Call>, s: State, c: Call)
    requires Tells(mpi, calls, s, c.thread) && Enabled(s, c) && (c.Connect? || c.SetOmpt?)
    ensures Tells(mpi, calls + [c], Step(mpi, s, c), c.thread)
  {
    hide Said, Up, Speaks, DataSent, Farewell, Busy;
    ConnectedStep(mpi, calls, s, c);
    SpeaksSnoc(mpi, calls, c, c.thread);
    HistorySnoc(mpi, calls, c, c.thread);
  }

  lemma {:induction false} RunTells(mpi: bool, calls: seq<Call>, s: State, t: Thread)
    requires IsRun(mpi, INITIAL, calls, s)
    ensures Tells(mpi, calls, s, t)
  {
    hide Step, Tells;
    if calls == [] {
      NothingTold(mpi, t);
    } else {
      var front, c := calls[..|calls| - 1], calls[|calls| - 1];
      assert calls == front + [c];
      var mid := RunSnoc(mpi, INITIAL, front, c, s);
      RunTells(mpi, front, mid, t);
      StepTells(mpi, front, mid, c, t);
    }
  }

  lemma NothingTold(mpi: bool, t: Thread)
    ensures Tells(mpi, [], INITIAL, t)
  {
  }

  /** In every interleaving of whole calls, at every moment, what a thread has put on the wire is settled
      by the calls alone: nothing if it never had anything to send with the connection up; otherwise
      attached, one message for each time it sent data with the connection up, and, once it has stopped,
      all its groups of objects and terminated. */
  lemma EveryThreadSays(mpi: bool, calls: seq<Call>, s: State, t: Thread)
    requires IsRun(mpi, INITIAL, calls, s)
    ensures Said(s.wire, t) == Speech(mpi, calls, t)
  {
    hide IsRun, Speech, Said;
    RunTells(mpi, calls, s, t);
  }

  // ---------------------------------------------------------------- the end of the network

  lemma LastOne(present: set<Thread>, t: Thread)
    requires t in present
    ensures |present| == 1 <==> present - {t} == {}
  {
    assert |present - {t}| == |present| - 1;
  }

  lemma DownStep(mpi: bool, calls: seq<Call>, s: State, c: Call)
    requires (s.down <==> calls != [] && Running(s.tls) == {}) && s.numThreads == |Running(s.tls)|
    requires (calls == [] ==> s == INITIAL) && Enabled(s, c)
    ensures var s' := Step(mpi, s, c); s'.down <==> Running(s'.tls) == {}
  {
    hide AddObjects;
    var s', t := Step(mpi, s, c), c.thread;
    if c.Start? {
      assert t in Running(s'.tls);
    } else {
      assert t in Running(s.tls);
      if c.Stop? && s' != s {
        assert Running(s'.tls) == Running(s.tls) - {t};
        LastOne(Running(s.tls), t);
      } else {
        assert t in Running(s'.tls);
      }
    }
  }

  /** In every run the network is taken down when the last thread has stopped, and not before. */
  lemma {:induction false} DownIffAllStopped(mpi: bool, calls: seq<Call>, s: State)
    requires IsRun(mpi, INITIAL, calls, s)
    ensures s.down <==> calls != [] && Running(s.tls) == {}
  {
    hide Step, Orderly, Flags;
    if calls != [] {
      var front, c := calls[..|calls| - 1], calls[|calls| - 1];
      assert calls == front + [c];
      var mid := RunSnoc(mpi, INITIAL, front, c, s);
      DownIffAllStopped(mpi, front, mid);
      InitialInv();
      RunKeeps(mpi, INITIAL, front, mid);
      DownStep(mpi, front, mid, c);
    }
  }
}
