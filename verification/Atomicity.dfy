/** The calls of the process are the uninterrupted runs of its single steps: a thread that is not disturbed
    between the start and the end of a call does what the call as a whole does
    (services/collector/collector.c). */
module Atomicity {
  import opened Collector
  import opened Interleaving
  import LinkedObjects

  /** Steps a thread can still make on its own before it is idle or gone, at most. */
  ghost function Left(pc: Pc): nat {
    match pc
    case Idle => 0
    case Gone => 0
    case SendData(_) => 1
    case AttachSend(_) => 2
    case Attach(_) => 3
    case ReadConnected => 4
    case SetConnected => 5
    case Clear => 6
    case ReadCount => 7
    case Exit => 1
    case EndSend => 2
    case Ending => 3
    case Leaving(groups) => 2 * |groups| + 4
    case GroupSend(groups) => 2 * |groups| + 3
  }

  /** The thread goes on, and no other does, until its call is over. */
  ghost function Finish(s: Shared, t: Thread): (s': Shared)
    requires t in s.local
    ensures t in s'.local
    decreases Left(s.local[t].pc)
  {
    if !CanGo(s.local[t].pc) then s else Finish(GoOn(s, t), t)
  }

  /** How a call begins. */
  ghost function First(c: Call): Action
    requires !c.SetOmpt?
  {
    match c
    case Start(t) => Begin(t)
    case Connect(t) => CallConnect(t)
    case SendAttached(t) => CallAttach(t)
    case Send(t, data) => CallSend(t, data)
    case Stop(t, groups) => CallStop(t, groups)
  }

  /** No call is under way, and no thread is kept from stopping by OpenMP. */
  ghost predicate Agree(s: Shared, c: State) {
    && s.connected == c.connected && s.numThreads == c.numThreads && s.down == c.down && s.wire == c.wire
    && s.local.Keys == c.tls.Keys
    && (forall t :: t in s.local ==> AgreeAt(s.local[t], c.tls[t]))
  }

  ghost predicate AgreeAt(l: Local, tls: Tls) {
    && l.sent == tls.sent && l.pc == (if tls.stopped then Gone else Idle)
    && (tls.hasOmpt ==> tls.omptFinished)
  }

  /** Only this thread, the flag, the count, the end and the wire can differ. */
  function With1(s: Shared, t: Thread, sent: bool, pc: Pc, wire: seq<Message>): Shared {
    s.(local := s.local[t := Local(sent, pc)], wire := wire)
  }

  lemma FinishSend(s: Shared, t: Thread, data: Blob)
    requires t in s.local && s.local[t].pc == SendData(data)
    ensures Finish(s, t) == With1(s, t, s.local[t].sent, Idle, s.wire + [Data(t, data)])
  {
    var s1 := GoOn(s, t);
    assert s1 == With1(s, t, s.local[t].sent, Idle, s.wire + [Data(t, data)]);
    assert Finish(s1, t) == s1;
  }

  /** Attaching, and the data after it in a call that sends. */
  lemma FinishAttach(s: Shared, t: Thread, caller: Caller)
    requires t in s.local && s.local[t] == Local(false, Attach(caller)) && s.connected
    ensures var said := s.wire + [Attached(t)];
            Finish(s, t) == With1(s, t, true, Idle, if caller.InSend? then said + [Data(t, caller.data)] else said)
  {
    var s1, said := GoOn(s, t), s.wire + [Attached(t)];
    assert s1 == With1(s, t, false, AttachSend(caller), s.wire);
    var s2 := GoOn(s1, t);
    assert s1.local[t := Local(true, Idle)] == s.local[t := Local(true, Idle)];
    if caller.InSend? {
      assert s2 == With1(s1, t, true, SendData(caller.data), said);
      FinishSend(s2, t, caller.data);
      assert s2.local[t := Local(true, Idle)] == s.local[t := Local(true, Idle)];
    } else {
      assert s2 == With1(s1, t, true, Idle, said);
      assert Finish(s2, t) == s2;
    }
    assert Finish(s, t) == Finish(s1, t) == Finish(s2, t);
  }

  lemma {:induction false} AddedObjects(wire: seq<Message>, t: Thread, groups: seq<seq<LinkedObjects.LinkedObject>>)
    ensures AddObjects(wire, t, groups) == wire + ObjectMessages(t, groups)
  {
    if groups != [] {
      var n := |groups| - 1;
      AddedObjects(wire, t, groups[..n]);
      assert ObjectMessages(t, groups) == ObjectMessages(t, groups[..n]) + [Objects(t, groups[n])];
    }
  }

  /** After a thread has left. */
  ghost function Departed(s: Shared, t: Thread, wire: seq<Message>): Shared
    requires t in s.local
  {
    With1(s.(numThreads := s.numThreads - 1, down := s.down || s.numThreads == 1), t, s.local[t].sent, Gone, wire)
  }

  lemma FinishExit(s: Shared, t: Thread)
    requires t in s.local && s.local[t].pc == Exit
    ensures Finish(s, t) == Departed(s, t, s.wire)
  {
    var s1 := GoOn(s, t);
    assert s1 == Departed(s, t, s.wire);
    assert Finish(s1, t) == s1;
  }

  lemma FinishEnding(s: Shared, t: Thread)
    requires t in s.local && s.local[t].pc == Ending
    ensures Finish(s, t) == Departed(s, t, if s.connected then s.wire + [Terminated(t)] else s.wire)
  {
    var sent, s1 := s.local[t].sent, GoOn(s, t);
    var gone := s.local[t := Local(sent, Gone)];
    if s.connected {
      var s2 := GoOn(s1, t);
      assert s2 == With1(s1, t, sent, Exit, s.wire + [Terminated(t)]);
      FinishExit(s2, t);
      assert s1.local[t := Local(sent, Gone)] == gone && s2.local[t := Local(sent, Gone)] == gone;
      assert Finish(s, t) == Finish(s1, t) == Finish(s2, t);
    } else {
      FinishExit(s1, t);
      assert s1.local[t := Local(sent, Gone)] == gone;
    }
  }

  /** The next step, or two, of a thread that sends its objects. */
  ghost function LeaveOn(s: Shared, t: Thread, groups: seq<seq<LinkedObjects.LinkedObject>>): Shared
    requires t in s.local
  {
    var sent := s.local[t].sent;
    if groups == [] then With1(s, t, sent, Ending, s.wire)
    else With1(s, t, sent, Leaving(groups[1..]), if s.connected then s.wire + [Objects(t, groups[0])] else s.wire)
  }

  lemma LeavesOn(s: Shared, t: Thread, groups: seq<seq<LinkedObjects.LinkedObject>>)
    requires t in s.local && s.local[t].pc == Leaving(groups)
    ensures Finish(s, t) == Finish(LeaveOn(s, t, groups), t)
  {
    var s1, sent := GoOn(s, t), s.local[t].sent;
    if groups != [] && s.connected {
      var s2 := GoOn(s1, t);
      assert s1 == With1(s, t, sent, GroupSend(groups), s.wire);
      assert s2 == With1(s1, t, sent, Leaving(groups[1..]), s.wire + [Objects(t, groups[0])]);
      assert s2.local == s.local[t := Local(sent, Leaving(groups[1..]))];
      assert s2 == LeaveOn(s, t, groups);
      assert Finish(s, t) == Finish(s1, t) == Finish(s2, t);
    } else {
      assert s1 == LeaveOn(s, t, groups);
    }
  }

  lemma {:induction false} FinishLeaving(s: Shared, t: Thread, groups: seq<seq<LinkedObjects.LinkedObject>>)
    requires t in s.local && s.local[t].pc == Leaving(groups)
    ensures Finish(s, t)
            == Departed(s, t, if s.connected then s.wire + ObjectMessages(t, groups) + [Terminated(t)] else s.wire)
    decreases groups
  {
    hide Finish, GoOn;
    LeavesOn(s, t, groups);
    var sent, s' := s.local[t].sent, LeaveOn(s, t, groups);
    assert s'.local[t := Local(sent, Gone)] == s.local[t := Local(sent, Gone)];
    if groups == [] {
      FinishEnding(s', t);
      assert s.wire + ObjectMessages(t, groups) == s.wire;
    } else {
      var rest := groups[1..];
      FinishLeaving(s', t, rest);
      assert ObjectMessages(t, groups) == [Objects(t, groups[0])] + ObjectMessages(t, rest);
      assert s.wire + [Objects(t, groups[0])] + ObjectMessages(t, rest) == s.wire + ObjectMessages(t, groups);
    }
  }

  // ---------------------------------------------------------------- the calls

  /** Changing one thread on both sides. */
  lemma AgreeWith(s: Shared, c: State, s': Shared, c': State, t: Thread)
    requires Agree(s, c) && t in s'.local && t in c'.tls && AgreeAt(s'.local[t], c'.tls[t])
    requires s'.local == s.local[t := s'.local[t]] && c'.tls == c.tls[t := c'.tls[t]]
    requires s'.connected == c'.connected && s'.numThreads == c'.numThreads && s'.down == c'.down
    requires s'.wire == c'.wire
    ensures Agree(s', c')
  {
    hide AgreeAt;
    forall u | u in s'.local
      ensures AgreeAt(s'.local[u], c'.tls[u])
    {
      if u != t {
        assert u in s.local && AgreeAt(s.local[u], c.tls[u]);
      }
    }
  }

  lemma SendCall(mpi: bool, s: Shared, c: State, t: Thread, data: Blob)
    requires Agree(s, c) && Enabled(c, Send(t, data))
    ensures Agree(Finish(Do(mpi, s, CallSend(t, data)), t), Step(mpi, c, Send(t, data)))
  {
    assert AgreeAt(s.local[t], c.tls[t]);
    var s1, c' := Do(mpi, s, CallSend(t, data)), Step(mpi, c, Send(t, data));
    if !s.connected {
      assert Finish(s1, t) == s1;
    } else {
      if s.local[t].sent {
        FinishSend(s1, t, data);
      } else {
        FinishAttach(s1, t, InSend(data));
      }
      hide Do, Finish;
      var s' := Finish(s1, t);
      assert s'.local == s.local[t := s'.local[t]] && c'.tls == c.tls[t := c'.tls[t]];
      AgreeWith(s, c, s', c', t);
    }
  }

  lemma AttachCall(mpi: bool, s: Shared, c: State, t: Thread)
    requires Agree(s, c) && Enabled(c, SendAttached(t))
    ensures Agree(Finish(Do(mpi, s, CallAttach(t)), t), Step(mpi, c, SendAttached(t)))
  {
    assert AgreeAt(s.local[t], c.tls[t]);
    var s1, c' := Do(mpi, s, CallAttach(t)), Step(mpi, c, SendAttached(t));
    if s.connected && !s.local[t].sent {
      FinishAttach(s1, t, Alone);
    } else {
      var s2 := GoOn(s1, t);
      assert Finish(s1, t) == Finish(s2, t) == s2;
    }
    var s' := Finish(s1, t);
    assert s'.local == s.local[t := s'.local[t]] && c'.tls == c.tls[t := c'.tls[t]];
    AgreeWith(s, c, s', c', t);
  }

  lemma FinishStop(mpi: bool, s: Shared, t: Thread, groups: seq<seq<LinkedObjects.LinkedObject>>)
    requires t in s.local && s.local[t].pc == Idle
    ensures var said := s.wire + ObjectMessages(t, groups) + [Terminated(t)];
            Finish(Do(mpi, s, CallStop(t, groups)), t)
            == Departed(s, t, if s.local[t].sent && s.connected then said else s.wire)
  {
    hide ObjectMessages, Finish;
    var s1, l := Do(mpi, s, CallStop(t, groups)), s.local[t];
    assert s1 == With1(s, t, l.sent, if l.sent then Leaving(groups) else Exit, s.wire);
    assert s1.local[t := Local(l.sent, Gone)] == s.local[t := Local(l.sent, Gone)];
    if l.sent {
      FinishLeaving(s1, t, groups);
    } else {
      FinishExit(s1, t);
    }
  }

  lemma StopCall(mpi: bool, s: Shared, c: State, t: Thread, groups: seq<seq<LinkedObjects.LinkedObject>>)
    requires Agree(s, c) && Enabled(c, Stop(t, groups))
    ensures Agree(Finish(Do(mpi, s, CallStop(t, groups)), t), Step(mpi, c, Stop(t, groups)))
  {
    hide Do, Finish, AddObjects, ObjectMessages;
    assert AgreeAt(s.local[t], c.tls[t]);
    FinishStop(mpi, s, t, groups);
    AddedObjects(c.wire, t, groups);
    DoIsLocal(mpi, s, CallStop(t, groups));
    AgreeWith(s, c, Finish(Do(mpi, s, CallStop(t, groups)), t), Step(mpi, c, Stop(t, groups)), t);
  }

  /** A start after the count has been read: the flag as it is, and attached if it is set. */
  lemma FinishStart(s: Shared, t: Thread)
    requires t in s.local && s.local[t] == Local(false, ReadConnected)
    ensures Finish(s, t)
            == if s.connected then With1(s, t, true, Idle, s.wire + [Attached(t)])
               else With1(s, t, false, Idle, s.wire)
  {
    var s1 := GoOn(s, t);
    if s.connected {
      FinishAttach(s1, t, InStart);
      assert s1.local[t := Local(true, Idle)] == s.local[t := Local(true, Idle)];
    } else {
      assert Finish(s1, t) == s1;
    }
  }

  /** The first thread connects; others take the flag as it is. */
  lemma FinishCount(s: Shared, t: Thread)
    requires t in s.local && s.local[t] == Local(false, ReadCount)
    ensures Finish(s, t)
            == if s.numThreads == 1 || s.connected
               then With1(s.(connected := true), t, true, Idle, s.wire + [Attached(t)])
               else With1(s, t, false, Idle, s.wire)
  {
    var s1 := GoOn(s, t);
    if s.numThreads == 1 {
      var s2 := GoOn(s1, t);
      var s3 := GoOn(s2, t);
      assert s2 == With1(s1.(connected := false), t, false, SetConnected, s.wire);
      assert s3 == With1(s2.(connected := true), t, false, ReadConnected, s.wire);
      FinishStart(s3, t);
      assert s3.local[t := Local(true, Idle)] == s.local[t := Local(true, Idle)];
      assert Finish(s, t) == Finish(s1, t) == Finish(s2, t) == Finish(s3, t);
    } else {
      FinishStart(s1, t);
      assert s1.local[t := Local(true, Idle)] == s.local[t := Local(true, Idle)];
      assert s1.local[t := Local(false, Idle)] == s.local[t := Local(false, Idle)];
    }
  }

  lemma StartCall(mpi: bool, s: Shared, c: State, t: Thread)
    requires Agree(s, c) && Enabled(c, Start(t))
    ensures Agree(Finish(Do(mpi, s, Begin(t)), t), Step(mpi, c, Start(t)))
  {
    var s1, c' := Do(mpi, s, Begin(t)), Step(mpi, c, Start(t));
    if mpi {
      assert Finish(s1, t) == s1;
    } else {
      FinishCount(s1, t);
    }
    hide Do, Finish;
    var s' := Finish(s1, t);
    assert s'.local == s.local[t := s'.local[t]] && c'.tls == c.tls[t := c'.tls[t]];
    AgreeWith(s, c, s', c', t);
  }

  /** Whatever call is made between calls: its single steps, one after the other, have the effect of the
      call as a whole. */
  lemma CallsAreUninterrupted(mpi: bool, s: Shared, c: State, call: Call)
    requires Agree(s, c) && Enabled(c, call) && !call.SetOmpt? && (call.Connect? ==> mpi)
    ensures Able(mpi, s, First(call))
    ensures Agree(Finish(Do(mpi, s, First(call)), call.thread), Step(mpi, c, call))
  {
    hide Finish, Do, Step;
    if !call.Start? {
      assert AgreeAt(s.local[call.thread], c.tls[call.thread]);
    }
    match call {
      case Start(t) => StartCall(mpi, s, c, t);
      case Connect(t) => ConnectCall(mpi, s, c, t);
      case SendAttached(t) => AttachCall(mpi, s, c, t);
      case Send(t, data) => SendCall(mpi, s, c, t, data);
      case Stop(t, groups) => StopCall(mpi, s, c, t, groups);
    }
  }

  lemma ConnectCall(mpi: bool, s: Shared, c: State, t: Thread)
    requires Agree(s, c) && Enabled(c, Connect(t)) && mpi
    ensures Agree(Finish(Do(mpi, s, CallConnect(t)), t), Step(mpi, c, Connect(t)))
  {
    assert AgreeAt(s.local[t], c.tls[t]);
    var s1 := Do(mpi, s, CallConnect(t));
    assert Finish(s1, t) == s1;
  }

  // ---------------------------------------------------------------- whole runs

  lemma TraceSnoc(mpi: bool, states: seq<Shared>, actions: seq<Action>, a: Action)
    requires IsTrace(mpi, states, actions) && Able(mpi, states[|actions|], a)
    ensures IsTrace(mpi, states + [Do(mpi, states[|actions|], a)], actions + [a])
  {
    hide Do, Able;
  }

  lemma GoneOn(s: Shared, t: Thread)
    requires t in s.local && CanGo(s.local[t].pc)
    ensures t in GoOn(s, t).local && Left(GoOn(s, t).local[t].pc) < Left(s.local[t].pc)
    ensures Finish(s, t) == Finish(GoOn(s, t), t)
  {
  }

  lemma {:induction false} FinishIsTrace(mpi: bool, states: seq<Shared>, actions: seq<Action>, t: Thread)
    returns (states': seq<Shared>, actions': seq<Action>)
    requires IsTrace(mpi, states, actions) && t in states[|actions|].local
    ensures IsTrace(mpi, states', actions') && states'[|actions'|] == Finish(states[|actions|], t)
    decreases Left(states[|actions|].local[t].pc)
  {
    var s := states[|actions|];
    states', actions' := states, actions;
    if CanGo(s.local[t].pc) {
      var s1 := GoOn(s, t);
      TraceSnoc(mpi, states, actions, Go(t));
      GoneOn(s, t);
      hide GoOn, IsTrace, CanGo;
      assert (states + [s1])[|actions + [Go(t)]|] == s1;
      states', actions' := FinishIsTrace(mpi, states + [s1], actions + [Go(t)], t);
    }
  }

  /** Calls the single steps know: none of OpenMP, and a connect only with MPI. */
  ghost predicate Known(mpi: bool, calls: seq<Call>) {
    forall k :: 0 <= k < |calls| ==> !calls[k].SetOmpt? && (calls[k].Connect? ==> mpi)
  }

  /** Every run of whole calls is an interleaving of single steps that ends in the same state. */
  lemma {:induction false} RunsAreInterleavings(mpi: bool, calls: seq<Call>, c: State)
    returns (states: seq<Shared>, actions: seq<Action>)
    requires IsRun(mpi, INITIAL, calls, c) && Known(mpi, calls)
    ensures IsTrace(mpi, states, actions) && Agree(states[|actions|], c)
  {
    hide Step, Do, Able, Finish, Agree;
    if calls == [] {
      states, actions := [FRESH], [];
      FreshAgrees();
    } else {
      var front, call := calls[..|calls| - 1], calls[|calls| - 1];
      assert calls == front + [call];
      var mid := RunSnoc(mpi, INITIAL, front, call, c);
      states, actions := RunsAreInterleavings(mpi, front, mid);
      var s := states[|actions|];
      CallsAreUninterrupted(mpi, s, mid, call);
      TraceSnoc(mpi, states, actions, First(call));
      DoIsLocal(mpi, s, First(call));
      states, actions := FinishIsTrace(mpi, states + [Do(mpi, s, First(call))], actions + [First(call)], call.thread);
    }
  }

  lemma FreshAgrees()
    ensures Agree(FRESH, INITIAL)
  {
  }
}
