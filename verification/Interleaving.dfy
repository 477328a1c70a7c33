/** The same process with every read and write of the shared connection flag, every message and every
    change of the thread count a step of its own, in any interleaving of the threads
    (services/collector/collector.c). */
module Interleaving {
  import opened Collector
  import LinkedObjects

  /** The calls that send the attached message: starting, sending data, and the message alone. */
  datatype Caller = InStart | InSend(data: Blob) | Alone

  /** What a thread does next. */
  datatype Pc =
    | Idle
    | ReadCount
    | Clear
    | SetConnected
    | ReadConnected
    | Attach(caller: Caller)
    | AttachSend(caller: Caller)
    | SendData(data: Blob)
    | Leaving(groups: seq<seq<LinkedObjects.LinkedObject>>)
    | GroupSend(groups: seq<seq<LinkedObjects.LinkedObject>>)
    | Ending
    | EndSend
    | Exit
    | Gone

  datatype Local = Local(sent: bool, pc: Pc)

  /** The last thread to leave takes the network down, holding the lock a starting thread needs. */
  datatype Shared =
    Shared(connected: bool, numThreads: int, down: bool, local: map<Thread, Local>, wire: seq<Message>)

  const FRESH := Shared(false, 0, false, map[], [])

  /** A thread starts, goes on, or, when idle, makes a call. */
  datatype Action =
    | Begin(thread: Thread)
    | Go(thread: Thread)
    | CallConnect(thread: Thread)
    | CallAttach(thread: Thread)
    | CallSend(thread: Thread, data: Blob)
    | CallStop(thread: Thread, groups: seq<seq<LinkedObjects.LinkedObject>>)

  predicate Able(mpi: bool, s: Shared, a: Action) {
    if a.Begin? then a.thread !in s.local && !s.down
    else
      && a.thread in s.local
      && (if a.Go? then CanGo(s.local[a.thread].pc) else s.local[a.thread].pc == Idle)
      && (a.CallConnect? ==> mpi)
  }

  predicate CanGo(pc: Pc) {
    pc != Idle && pc != Gone && (pc.GroupSend? ==> pc.groups != [])
  }

  function At(s: Shared, t: Thread, pc: Pc): Shared
    requires t in s.local
  {
    s.(local := s.local[t := s.local[t].(pc := pc)])
  }

  /** Back in the caller, which takes the message for sent; the message alone is not so taken. */
  function Attempted(s: Shared, t: Thread, caller: Caller, sent: bool): Shared
    requires t in s.local
  {
    s.(local := s.local[t := Local(sent || caller != Alone, if caller.InSend? then SendData(caller.data) else Idle)])
  }

  function GoOn(s: Shared, t: Thread): Shared
    requires t in s.local && CanGo(s.local[t].pc)
  {
    var sent := s.local[t].sent;
    match s.local[t].pc
    case Idle => s
    case Gone => s
    case ReadCount => At(s, t, if s.numThreads == 1 then Clear else ReadConnected)
    case Clear => At(s.(connected := false), t, SetConnected)
    case SetConnected => At(s.(connected := true), t, ReadConnected)
    case ReadConnected => At(s, t, if s.connected && !sent then Attach(InStart) else Idle)
    case Attach(caller) =>
      if s.connected && !sent then At(s, t, AttachSend(caller)) else Attempted(s, t, caller, sent)
    case AttachSend(caller) => Attempted(s.(wire := s.wire + [Attached(t)]), t, caller, true)
    case SendData(data) => At(s.(wire := s.wire + [Data(t, data)]), t, Idle)
    case Leaving(groups) =>
      if groups == [] then At(s, t, Ending)
      else At(s, t, if s.connected then GroupSend(groups) else Leaving(groups[1..]))
    case GroupSend(groups) => At(s.(wire := s.wire + [Objects(t, groups[0])]), t, Leaving(groups[1..]))
    case Ending => At(s, t, if s.connected then EndSend else Exit)
    case EndSend => At(s.(wire := s.wire + [Terminated(t)]), t, Exit)
    case Exit => At(s.(numThreads := s.numThreads - 1, down := s.down || s.numThreads == 1), t, Gone)
  }

  function Do(mpi: bool, s: Shared, a: Action): Shared
    requires Able(mpi, s, a)
  {
    var t := a.thread;
    match a
    case Begin(_) =>
      s.(numThreads := s.numThreads + 1, local := s.local[t := Local(false, if mpi then Idle else ReadCount)])
    case Go(_) => GoOn(s, t)
    case CallConnect(_) => s.(connected := true)
    case CallAttach(_) => At(s, t, Attach(Alone))
    case CallSend(_, data) =>
      if !s.connected then s else At(s, t, if s.local[t].sent then SendData(data) else Attach(InSend(data)))
    case CallStop(_, groups) => At(s, t, if s.local[t].sent then Leaving(groups) else Exit)
  }

  /** A run, and the states it goes through. */
  ghost predicate IsTrace(mpi: bool, states: seq<Shared>, actions: seq<Action>) {
    && |states| == |actions| + 1 && states[0] == FRESH
    && forall i :: 0 <= i < |actions| ==>
       Able(mpi, states[i], actions[i]) && states[i + 1] == Do(mpi, states[i], actions[i])
  }

  /** The second read of the flag finds it cleared, and the caller takes the message for sent. */
  predicate Slips(s: Shared, a: Action) {
    && a.Go? && a.thread in s.local && !s.connected
    && s.local[a.thread].pc.Attach? && s.local[a.thread].pc.caller != Alone
  }

  /** The flag is cleared while it is set. */
  predicate Falls(s: Shared, a: Action) {
    a.Go? && a.thread in s.local && s.local[a.thread].pc == Clear && s.connected
  }

  // ---------------------------------------------------------------- what every run keeps

  ghost predicate Attaching(pc: Pc) {
    (pc.Attach? && pc.caller != Alone) || pc.AttachSend?
  }

  /** A thread about to send the attached message has not taken it for sent. */
  ghost predicate Pending(s: Shared) {
    forall t :: t in s.local && Attaching(s.local[t].pc) ==> !s.local[t].sent
  }

  /** The thread takes for sent exactly what is on the wire. */
  ghost predicate Honest(s: Shared, t: Thread)
    requires t in s.local
  {
    s.local[t].sent <==> Attached(t) in s.wire
  }

  ghost predicate AllHonest(s: Shared) {
    forall t :: t in s.local ==> Honest(s, t)
  }

  /** Places from which a thread can send something other than attached, or has. */
  ghost predicate Past(pc: Pc) {
    pc.SendData? || pc.Leaving? || pc.GroupSend? || pc.Ending? || pc.EndSend?
  }

  ghost predicate Placed(s: Shared) {
    && (forall t :: t in s.local && Past(s.local[t].pc) ==> s.local[t].sent)
    && (forall t :: t in s.local && Terminated(t) in s.wire ==> s.local[t].pc in {Exit, Gone})
    && (forall m :: m in s.wire ==> m.thread in s.local && s.local[m.thread].sent)
  }

  /** A step changes one thread's state and adds at most one message, that thread's. */
  ghost predicate Local1(s: Shared, s': Shared, t: Thread) {
    && t in s'.local && (forall u :: u in s.local ==> u in s'.local)
    && (forall u :: u in s'.local && u != t ==> u in s.local && s'.local[u] == s.local[u])
    && (s'.wire == s.wire || exists m: Message :: m.thread == t && s'.wire == s.wire + [m])
  }

  lemma DoIsLocal(mpi: bool, s: Shared, a: Action)
    requires Able(mpi, s, a)
    ensures Local1(s, Do(mpi, s, a), a.thread)
  {
    hide GoOn;
    if a.Go? {
      GoIsLocal(s, a.thread);
    }
  }

  lemma GoIsLocal(s: Shared, t: Thread)
    requires t in s.local && CanGo(s.local[t].pc)
    ensures Local1(s, GoOn(s, t), t)
  {
  }

  lemma PendingKept(mpi: bool, s: Shared, a: Action)
    requires Pending(s) && Able(mpi, s, a)
    ensures Pending(Do(mpi, s, a))
  {
    hide GoOn;
    var s', t := Do(mpi, s, a), a.thread;
    DoIsLocal(mpi, s, a);
    if a.Go? {
      PendingGo(s, t);
    }
    assert Attaching(s'.local[t].pc) ==> !s'.local[t].sent;
  }

  lemma PendingGo(s: Shared, t: Thread)
    requires t in s.local && CanGo(s.local[t].pc) && (Attaching(s.local[t].pc) ==> !s.local[t].sent)
    ensures var l := GoOn(s, t).local[t]; Attaching(l.pc) ==> !l.sent
  {
  }

  /** The message of a step leaves the wire tidy. */
  lemma TidyKept(mpi: bool, s: Shared, a: Action)
    requires Tidy(s.wire) && Pending(s) && Placed(s) && Able(mpi, s, a)
    ensures Tidy(Do(mpi, s, a).wire)
  {
    hide Tidy;
    if a.Go? {
      var t := a.thread;
      PendingAt(s, t);
      match s.local[t].pc {
        case AttachSend(_) => TidySnoc(s.wire, Attached(t));
        case SendData(data) => TidySnoc(s.wire, Data(t, data));
        case GroupSend(groups) => TidySnoc(s.wire, Objects(t, groups[0]));
        case EndSend => TidySnoc(s.wire, Terminated(t));
        case _ =>
      }
    }
  }

  lemma PlacedKept(mpi: bool, s: Shared, a: Action)
    requires Placed(s) && Able(mpi, s, a)
    ensures Placed(Do(mpi, s, a))
  {
    var s', t := Do(mpi, s, a), a.thread;
    PlacedSelf(mpi, s, a);
    DoIsLocal(mpi, s, a);
    hide Do;
    forall u | u in s'.local
      ensures Past(s'.local[u].pc) ==> s'.local[u].sent
      ensures Terminated(u) in s'.wire ==> s'.local[u].pc in {Exit, Gone}
    {
      if u != t {
        assert Terminated(u) in s'.wire ==> Terminated(u) in s.wire;
      }
    }
    forall m | m in s'.wire
      ensures m.thread in s'.local && s'.local[m.thread].sent
    {
      if m.thread != t {
        assert m in s.wire;
      }
    }
  }

  ghost predicate Silent(wire: seq<Message>, t: Thread) {
    forall m :: m in wire ==> m.thread != t
  }

  /** What Placed says of one thread. */
  ghost predicate PlacedAt(s: Shared, t: Thread)
    requires t in s.local
  {
    var l := s.local[t];
    && (Past(l.pc) ==> l.sent) && (Terminated(t) in s.wire ==> l.pc in {Exit, Gone}) && (Silent(s.wire, t) || l.sent)
  }

  lemma PlacedSelf(mpi: bool, s: Shared, a: Action)
    requires Placed(s) && Able(mpi, s, a)
    ensures PlacedAt(Do(mpi, s, a), a.thread)
  {
    var t := a.thread;
    if a.Begin? {
      assert Terminated(t) !in s.wire && Silent(s.wire, t);
    } else {
      assert PlacedAt(s, t);
      if a.Go? {
        PlacedGo(s, t);
      }
    }
  }

  lemma PlacedGo(s: Shared, t: Thread)
    requires t in s.local && CanGo(s.local[t].pc) && PlacedAt(s, t)
    ensures PlacedAt(GoOn(s, t), t)
  {
    var s' := GoOn(s, t);
    if s'.wire == s.wire {
      assert Silent(s'.wire, t) <==> Silent(s.wire, t);
    }
  }

  /** A step keeps its thread honest unless it slips; a slip makes it dishonest. */
  lemma HonestSelf(mpi: bool, s: Shared, a: Action)
    requires Pending(s) && Placed(s) && Able(mpi, s, a) && (a.thread in s.local ==> Honest(s, a.thread))
    ensures Honest(Do(mpi, s, a), a.thread) <==> !Slips(s, a)
  {
    hide Placed, Pending;
    NoMessagesBefore(s, a.thread);
    PendingAt(s, a.thread);
  }

  lemma NoMessagesBefore(s: Shared, t: Thread)
    requires Placed(s)
    ensures t !in s.local ==> Attached(t) !in s.wire
  {
  }

  lemma PendingAt(s: Shared, t: Thread)
    requires Pending(s)
    ensures t in s.local && Attaching(s.local[t].pc) ==> !s.local[t].sent
  {
  }

  /** The thread takes the attached message for sent, and it was not. */
  ghost predicate Dishonest(s: Shared, u: Thread) {
    u in s.local && s.local[u].sent && Attached(u) !in s.wire
  }

  /** What has been taken for sent wrongly is never sent. */
  lemma DishonestStays(mpi: bool, s: Shared, a: Action, u: Thread)
    requires Pending(s) && Able(mpi, s, a) && Dishonest(s, u)
    ensures Dishonest(Do(mpi, s, a), u)
  {
    DoIsLocal(mpi, s, a);
    PendingAt(s, u);
  }

  // ---------------------------------------------------------------- whole runs

  lemma {:induction false} Always(mpi: bool, states: seq<Shared>, actions: seq<Action>, n: nat)
    requires IsTrace(mpi, states, actions) && n <= |actions|
    ensures Pending(states[n]) && Placed(states[n]) && Tidy(states[n].wire)
  {
    hide Pending, Placed, Tidy, Do, Able;
    if n == 0 {
      FreshIsTidy();
    } else {
      Always(mpi, states, actions, n - 1);
      TidyKept(mpi, states[n - 1], actions[n - 1]);
      PendingKept(mpi, states[n - 1], actions[n - 1]);
      PlacedKept(mpi, states[n - 1], actions[n - 1]);
    }
  }

  lemma FreshIsTidy()
    ensures Pending(FRESH) && Placed(FRESH) && Tidy(FRESH.wire)
  {
  }

  lemma SlipIsDishonest(mpi: bool, s: Shared, a: Action)
    requires Pending(s) && Placed(s) && Able(mpi, s, a) && Slips(s, a)
    ensures Dishonest(Do(mpi, s, a), a.thread)
  {
    PendingAt(s, a.thread);
    assert Attached(a.thread) !in s.wire;
  }

  lemma {:induction false} DishonestForever(mpi: bool, states: seq<Shared>, actions: seq<Action>,
                                            i: nat, n: nat, u: Thread)
    requires IsTrace(mpi, states, actions) && i <= n <= |actions| && Dishonest(states[i], u)
    ensures Dishonest(states[n], u)
    decreases n - i
  {
    hide Do, Able, Pending, Dishonest;
    if i < n {
      Always(mpi, states, actions, i);
      DishonestStays(mpi, states[i], actions[i], u);
      DishonestForever(mpi, states, actions, i + 1, n, u);
    }
  }

  /** The thread has slipped within the first n steps. */
  ghost predicate Slipped(states: seq<Shared>, actions: seq<Action>, n: nat, t: Thread)
    requires |states| == |actions| + 1
  {
    exists i :: 0 <= i < n && i < |actions| && actions[i].thread == t && Slips(states[i], actions[i])
  }

  lemma SlippedIsDishonest(mpi: bool, states: seq<Shared>, actions: seq<Action>, n: nat, t: Thread)
    requires IsTrace(mpi, states, actions) && n <= |actions| && Slipped(states, actions, n, t)
    ensures Dishonest(states[n], t)
  {
    hide Do, Able, Pending, Placed, Slips, Dishonest;
    var i :| 0 <= i < n && i < |actions| && actions[i].thread == t && Slips(states[i], actions[i]);
    Always(mpi, states, actions, i);
    SlipIsDishonest(mpi, states[i], actions[i]);
    DishonestForever(mpi, states, actions, i + 1, n, t);
  }

  lemma {:induction false} DishonestHasSlipped(mpi: bool, states: seq<Shared>, actions: seq<Action>, n: nat, t: Thread)
    requires IsTrace(mpi, states, actions) && n <= |actions| && t in states[n].local && !Honest(states[n], t)
    ensures Slipped(states, actions, n, t)
  {
    hide Do, Able, Slips, Honest, Pending, Placed;
    if n > 0 {
      var s, a := states[n - 1], actions[n - 1];
      Always(mpi, states, actions, n - 1);
      if !Slips(s, a) || a.thread != t {
        HonestStep(mpi, s, a, t);
        DishonestHasSlipped(mpi, states, actions, n - 1, t);
      }
    }
  }

  lemma HonestStep(mpi: bool, s: Shared, a: Action, t: Thread)
    requires Pending(s) && Placed(s) && Able(mpi, s, a) && t in Do(mpi, s, a).local
    requires a.thread != t || !Slips(s, a)
    ensures (t in s.local ==> Honest(s, t)) ==> Honest(Do(mpi, s, a), t)
    ensures t !in s.local ==> Honest(Do(mpi, s, a), t)
  {
    var s' := Do(mpi, s, a);
    DoIsLocal(mpi, s, a);
    if a.thread == t {
      if t in s.local ==> Honest(s, t) {
        HonestSelf(mpi, s, a);
      }
    } else {
      assert Attached(t) in s'.wire <==> Attached(t) in s.wire;
    }
  }

  ghost predicate NoSlips(states: seq<Shared>, actions: seq<Action>, n: nat)
    requires |states| == |actions| + 1
  {
    forall i :: 0 <= i < n && i < |actions| ==> !Slips(states[i], actions[i])
  }

  /** In every interleaving: every thread takes for sent exactly what it has sent, if and only if no
      second read of the flag, inside a call that found it set, has found it cleared. */
  lemma HonestIffNoSlips(mpi: bool, states: seq<Shared>, actions: seq<Action>, n: nat)
    requires IsTrace(mpi, states, actions) && n <= |actions|
    ensures AllHonest(states[n]) <==> NoSlips(states, actions, n)
  {
    hide Do, Able, Slips;
    if NoSlips(states, actions, n) {
      forall t | t in states[n].local
        ensures Honest(states[n], t)
      {
        if !Honest(states[n], t) {
          DishonestHasSlipped(mpi, states, actions, n, t);
          assert false;
        }
      }
    } else {
      var i :| 0 <= i < n && i < |actions| && Slips(states[i], actions[i]);
      var t := actions[i].thread;
      assert Slipped(states, actions, n, t);
      SlippedIsDishonest(mpi, states, actions, n, t);
      assert !Honest(states[n], t);
    }
  }

  /** In every interleaving, at every moment: attached comes at most once and before anything else and
      nothing comes after terminated, if and only if no thread that has slipped has sent anything. */
  lemma OrderlyIffSlippedSilent(mpi: bool, states: seq<Shared>, actions: seq<Action>, n: nat)
    requires IsTrace(mpi, states, actions) && n <= |actions|
    ensures Orderly(states[n].wire)
       <==> forall t :: Slipped(states, actions, n, t) ==> Silent(states[n].wire, t)
  {
    hide Do, Able, Tidy, Pending, Slipped, Orderly;
    var s := states[n];
    Always(mpi, states, actions, n);
    OrderlyIff(s.wire);
    if Orderly(s.wire) {
      forall t | Slipped(states, actions, n, t)
        ensures Silent(s.wire, t)
      {
        SlippedIsDishonest(mpi, states, actions, n, t);
      }
    }
    if forall t :: Slipped(states, actions, n, t) ==> Silent(s.wire, t) {
      forall m | m in s.wire
        ensures Attached(m.thread) in s.wire
      {
        if !Honest(s, m.thread) {
          DishonestHasSlipped(mpi, states, actions, n, m.thread);
          assert false;
        }
      }
    }
  }

  /** The threads that have slipped and terminated. */
  ghost function SlippedAway(states: seq<Shared>, actions: seq<Action>, n: nat): set<Thread>
    requires |states| == |actions| + 1 && n < |states|
  {
    set t | t in TerminatedSet(states[n].wire) && Slipped(states, actions, n, t)
  }

  /** In every interleaving, at every moment: terminations exceed attaches by the number of threads
      that slipped and terminated, less those that attached and have not terminated. */
  lemma TerminationsAgainstAttaches(mpi: bool, states: seq<Shared>, actions: seq<Action>, n: nat)
    requires IsTrace(mpi, states, actions) && n <= |actions|
    ensures var wire := states[n].wire;
            Terminations(wire) + |AttachedSet(wire) - TerminatedSet(wire)|
            == Attaches(wire) + |SlippedAway(states, actions, n)|
  {
    hide Do, Able, Tidy, Pending, Slipped, Terminations, Attaches;
    var s := states[n];
    var att, ter := AttachedSet(s.wire), TerminatedSet(s.wire);
    Always(mpi, states, actions, n);
    CountsAreSets(s.wire);
    forall t | t in ter
      ensures t in att <==> !Slipped(states, actions, n, t)
    {
      assert Terminated(t) in s.wire && t in s.local && s.local[t].sent;
      if Slipped(states, actions, n, t) {
        SlippedIsDishonest(mpi, states, actions, n, t);
      } else if Attached(t) !in s.wire {
        DishonestHasSlipped(mpi, states, actions, n, t);
      } else {
        assert t in att;
      }
    }
    assert ter - att == SlippedAway(states, actions, n);
    Differences(att, ter);
  }

  lemma Differences(a: set<Thread>, b: set<Thread>)
    ensures |b| + |a - b| == |a| + |b - a|
  {
    assert a + b == b + (a - b) == a + (b - a);
  }

  /** Without a slip the messages are in order, and terminations never exceed attaches. */
  lemma OrderlyWithoutSlips(mpi: bool, states: seq<Shared>, actions: seq<Action>)
    requires IsTrace(mpi, states, actions) && NoSlips(states, actions, |actions|)
    ensures var wire := states[|actions|].wire;
            Orderly(wire) && forall k: nat :: k <= |wire| ==> Terminations(wire[..k]) <= Attaches(wire[..k])
  {
    hide Orderly, Do, Able, Slips;
    OrderlyIffSlippedSilent(mpi, states, actions, |actions|);
    NeverMoreTerminated(states[|actions|].wire);
  }

  // ---------------------------------------------------------------- when the flag does not fall

  ghost predicate NoFalls(states: seq<Shared>, actions: seq<Action>, n: nat)
    requires |states| == |actions| + 1
  {
    forall i :: 0 <= i < n && i < |actions| ==> !Falls(states[i], actions[i])
  }

  /** Threads that have not left. */
  function Present(local: map<Thread, Local>): set<Thread> {
    set t | t in local && local[t].pc != Gone
  }

  /** Whoever found the flag set still would, and whoever attached and leaves has said so. */
  ghost predicate SteadyAt(s: Shared, t: Thread)
    requires t in s.local
  {
    var l := s.local[t];
    && (l.sent || Attaching(l.pc) ==> l.pc == Attach(Alone) || s.connected)
    && (l.sent ==> s.connected)
    && (l.sent && l.pc in {Exit, Gone} ==> Terminated(t) in s.wire)
  }

  ghost predicate Steady(s: Shared) {
    (forall t :: t in s.local ==> SteadyAt(s, t)) && s.numThreads == |Present(s.local)|
  }

  lemma SteadySelf(mpi: bool, s: Shared, a: Action)
    requires Placed(s) && Able(mpi, s, a) && !Falls(s, a)
    requires a.thread in s.local ==> SteadyAt(s, a.thread)
    ensures SteadyAt(Do(mpi, s, a), a.thread) && (s.connected ==> Do(mpi, s, a).connected)
  {
    hide Orderly;
  }

  lemma SteadyKept(mpi: bool, s: Shared, a: Action)
    requires Steady(s) && Placed(s) && Able(mpi, s, a) && !Falls(s, a)
    ensures Steady(Do(mpi, s, a))
  {
    var s', t := Do(mpi, s, a), a.thread;
    DoIsLocal(mpi, s, a);
    SteadySelf(mpi, s, a);
    PresentAfter(mpi, s, a);
    hide Do, Placed, Able, Falls;
    forall u | u in s'.local && u != t
      ensures SteadyAt(s', u)
    {
      assert SteadyAt(s, u);
    }
  }

  /** What a step does to the thread map and the count. */
  lemma DoCounts(mpi: bool, s: Shared, a: Action)
    requires Able(mpi, s, a)
    ensures var s', t := Do(mpi, s, a), a.thread;
            var leaves := a.Go? && s.local[t].pc == Exit;
            && t in s'.local && s'.local == s.local[t := s'.local[t]] && (s'.local[t].pc == Gone <==> leaves)
            && s'.numThreads == s.numThreads + (if a.Begin? then 1 else if leaves then -1 else 0)
            && (t in s.local ==> s.local[t].pc != Gone)
  {
  }

  lemma PresentAfter(mpi: bool, s: Shared, a: Action)
    requires Able(mpi, s, a) && s.numThreads == |Present(s.local)|
    ensures Do(mpi, s, a).numThreads == |Present(Do(mpi, s, a).local)|
  {
    hide Do;
    var s', t := Do(mpi, s, a), a.thread;
    DoCounts(mpi, s, a);
    if a.Begin? {
      assert Present(s'.local) == Present(s.local) + {t};
    } else if s'.local[t].pc == Gone {
      assert Present(s'.local) == Present(s.local) - {t};
    } else {
      assert Present(s'.local) == Present(s.local);
    }
  }

  lemma SteadyMeansNoSlip(s: Shared, a: Action)
    requires Steady(s)
    ensures !Slips(s, a)
  {
    if a.thread in s.local {
      assert SteadyAt(s, a.thread);
    }
  }

  lemma {:induction false} SteadyThroughout(mpi: bool, states: seq<Shared>, actions: seq<Action>, n: nat)
    requires IsTrace(mpi, states, actions) && n <= |actions| && NoFalls(states, actions, n)
    ensures Steady(states[n]) && NoSlips(states, actions, n)
  {
    hide Steady, Placed, Do, Able, Slips, Falls;
    if n == 0 {
      FreshIsSteady();
    } else {
      SteadyThroughout(mpi, states, actions, n - 1);
      Always(mpi, states, actions, n - 1);
      SteadyKept(mpi, states[n - 1], actions[n - 1]);
      SteadyMeansNoSlip(states[n - 1], actions[n - 1]);
    }
  }

  lemma FreshIsSteady()
    ensures Steady(FRESH)
  {
    assert Present(map[]) == {};
  }

  /** If the flag is never cleared while set, no call slips, and once all threads have left, as many
      have terminated as attached. */
  lemma AllTerminated(mpi: bool, states: seq<Shared>, actions: seq<Action>)
    requires IsTrace(mpi, states, actions) && NoFalls(states, actions, |actions|)
    ensures NoSlips(states, actions, |actions|)
    ensures var s := states[|actions|]; s.numThreads == 0 ==> Terminations(s.wire) == Attaches(s.wire)
  {
    hide NoFalls, NoSlips, Orderly, Pending, Steady, AllHonest, Placed, Terminations, Attaches, Do, Able;
    var s := states[|actions|];
    SteadyThroughout(mpi, states, actions, |actions|);
    HonestIffNoSlips(mpi, states, actions, |actions|);
    OrderlyWithoutSlips(mpi, states, actions);
    Always(mpi, states, actions, |actions|);
    CountsAreSets(s.wire);
    TerminatedWereAttached(s.wire);
    if s.numThreads == 0 {
      forall t | t in AttachedSet(s.wire)
        ensures t in TerminatedSet(s.wire)
      {
        LeftHasTerminated(s, t);
      }
      assert AttachedSet(s.wire) == TerminatedSet(s.wire);
    }
  }

  lemma LeftHasTerminated(s: Shared, t: Thread)
    requires Steady(s) && Placed(s) && AllHonest(s) && s.numThreads == 0 && t in AttachedSet(s.wire)
    ensures Terminated(t) in s.wire
  {
    assert Attached(t) in s.wire && t in s.local && Honest(s, t) && SteadyAt(s, t);
    assert Present(s.local) == {};
    assert t !in Present(s.local);
  }

  predicate Connecting(pc: Pc) {
    pc in {ReadCount, Clear, SetConnected, ReadConnected}
  }

  ghost predicate NotConnecting(s: Shared) {
    forall t :: t in s.local ==> !Connecting(s.local[t].pc)
  }

  lemma NotConnectingKept(s: Shared, a: Action)
    requires NotConnecting(s) && Able(true, s, a)
    ensures NotConnecting(Do(true, s, a)) && !Falls(s, a)
  {
    var s', t := Do(true, s, a), a.thread;
    assert !Connecting(s'.local[t].pc);
    DoIsLocal(true, s, a);
  }

  lemma {:induction false} MpiNeverClears(states: seq<Shared>, actions: seq<Action>, n: nat)
    requires IsTrace(true, states, actions) && n <= |actions|
    ensures NotConnecting(states[n]) && NoFalls(states, actions, n)
  {
    hide Do, Able, Falls;
    if n > 0 {
      MpiNeverClears(states, actions, n - 1);
      NotConnectingKept(states[n - 1], actions[n - 1]);
    }
  }

  /** With MPI, where starting a thread does not touch the flag, every interleaving is in order, and
      the counts agree when all threads have left. */
  lemma MpiRuns(states: seq<Shared>, actions: seq<Action>)
    requires IsTrace(true, states, actions)
    ensures var s := states[|actions|];
            && Orderly(s.wire)
            && (forall k: nat :: k <= |s.wire| ==> Terminations(s.wire[..k]) <= Attaches(s.wire[..k]))
            && (s.numThreads == 0 ==> Terminations(s.wire) == Attaches(s.wire))
  {
    hide IsTrace, NoFalls, NoSlips, Orderly, NotConnecting, Terminations, Attaches;
    MpiNeverClears(states, actions, |actions|);
    AllTerminated(true, states, actions);
    OrderlyWithoutSlips(true, states, actions);
  }

  // ---------------------------------------------------------------- when it falls

  /** The state after these actions, which are all possible. */
  ghost predicate Leads(s: Shared, actions: seq<Action>, s': Shared)
    decreases |actions|
  {
    if actions == [] then s' == s
    else Able(false, s, actions[0]) && Leads(Do(false, s, actions[0]), actions[1..], s')
  }

  lemma {:induction false} LeadsConcat(s: Shared, xs: seq<Action>, s': Shared, ys: seq<Action>, s'': Shared)
    requires Leads(s, xs, s') && Leads(s', ys, s'')
    ensures Leads(s, xs + ys, s'')
    decreases |xs|
  {
    hide Do, Able;
    if xs == [] {
      assert xs + ys == ys;
    } else {
      assert (xs + ys)[1..] == xs[1..] + ys;
      LeadsConcat(Do(false, s, xs[0]), xs[1..], s', ys, s'');
    }
  }

  /** Such actions are a run. */
  lemma {:induction false} LeadsIsTrace(s: Shared, xs: seq<Action>, s': Shared) returns (states: seq<Shared>)
    requires Leads(s, xs, s')
    ensures |states| == |xs| + 1 && states[0] == s && states[|xs|] == s'
    ensures forall i :: 0 <= i < |xs| ==> Able(false, states[i], xs[i]) && states[i + 1] == Do(false, states[i], xs[i])
    decreases |xs|
  {
    hide Do, Able;
    if xs == [] {
      states := [s];
    } else {
      var rest := LeadsIsTrace(Do(false, s, xs[0]), xs[1..], s');
      states := [s] + rest;
    }
  }

  lemma ThreeSteps(s: Shared, a: Action, b: Action, c: Action)
    requires Able(false, s, a) && Able(false, Do(false, s, a), b) && Able(false, Do(false, Do(false, s, a), b), c)
    ensures Leads(s, [a, b, c], Do(false, Do(false, Do(false, s, a), b), c))
  {
    hide Do, Able;
    assert [a, b, c][1..] == [b, c] && [b, c][1..] == [c] && [c][1..] == [];
    assert Leads(Do(false, Do(false, Do(false, s, a), b), c), [], Do(false, Do(false, Do(false, s, a), b), c));
    assert Leads(Do(false, Do(false, s, a), b), [c], Do(false, Do(false, Do(false, s, a), b), c));
    assert Leads(Do(false, s, a), [b, c], Do(false, Do(false, Do(false, s, a), b), c));
  }

  function With(connected: bool, numThreads: int, local: map<Thread, Local>, wire: seq<Message>): Shared {
    Shared(connected, numThreads, false, local, wire)
  }

  /** The first thread starts, finds itself alone, and clears the flag. */
  lemma Race1(a: Thread)
    ensures Leads(FRESH, [Begin(a), Go(a), Go(a)], With(false, 1, map[a := Local(false, SetConnected)], []))
  {
    ThreeSteps(FRESH, Begin(a), Go(a), Go(a));
    var s1 := Do(false, FRESH, Begin(a));
    assert s1 == With(false, 1, map[a := Local(false, ReadCount)], []);
    var s2 := Do(false, s1, Go(a));
    assert s2 == With(false, 1, map[a := Local(false, Clear)], []);
    assert Do(false, s2, Go(a)).local == map[a := Local(false, SetConnected)];
  }

  /** It connects. */
  lemma Race2(a: Thread)
    ensures Leads(With(false, 1, map[a := Local(false, SetConnected)], []), [Go(a), Go(a), Go(a)],
                  With(true, 1, map[a := Local(false, AttachSend(InStart))], []))
  {
    var s := With(false, 1, map[a := Local(false, SetConnected)], []);
    ThreeSteps(s, Go(a), Go(a), Go(a));
    var s1 := Do(false, s, Go(a));
    assert s1 == With(true, 1, map[a := Local(false, ReadConnected)], []);
    var s2 := Do(false, s1, Go(a));
    assert s2 == With(true, 1, map[a := Local(false, Attach(InStart))], []);
    assert Do(false, s2, Go(a)).local == map[a := Local(false, AttachSend(InStart))];
  }

  /** It attaches; a second thread starts; the first stops. */
  lemma Race3(a: Thread, b: Thread)
    requires a != b
    ensures Leads(With(true, 1, map[a := Local(false, AttachSend(InStart))], []), [Go(a), Begin(b), CallStop(a, [])],
                  With(true, 2, map[a := Local(true, Leaving([])), b := Local(false, ReadCount)], [Attached(a)]))
  {
    var s := With(true, 1, map[a := Local(false, AttachSend(InStart))], []);
    ThreeSteps(s, Go(a), Begin(b), CallStop(a, []));
    var s1 := Do(false, s, Go(a));
    assert [] + [Attached(a)] == [Attached(a)];
    assert s1 == With(true, 1, map[a := Local(true, Idle)], [Attached(a)]);
    var s2 := Do(false, s1, Begin(b));
    assert s2 == With(true, 2, map[a := Local(true, Idle), b := Local(false, ReadCount)], [Attached(a)]);
    assert Do(false, s2, CallStop(a, [])).local == map[a := Local(true, Leaving([])), b := Local(false, ReadCount)];
  }

  /** It terminates. */
  lemma Race4(a: Thread, b: Thread)
    requires a != b
    ensures Leads(With(true, 2, map[a := Local(true, Leaving([])), b := Local(false, ReadCount)], [Attached(a)]),
                  [Go(a), Go(a), Go(a)],
                  With(true, 2, map[a := Local(true, Exit), b := Local(false, ReadCount)],
                       [Attached(a), Terminated(a)]))
  {
    var s := With(true, 2, map[a := Local(true, Leaving([])), b := Local(false, ReadCount)], [Attached(a)]);
    ThreeSteps(s, Go(a), Go(a), Go(a));
    var s1 := Do(false, s, Go(a));
    assert s1 == With(true, 2, map[a := Local(true, Ending), b := Local(false, ReadCount)], [Attached(a)]);
    var s2 := Do(false, s1, Go(a));
    assert s2 == With(true, 2, map[a := Local(true, EndSend), b := Local(false, ReadCount)], [Attached(a)]);
    assert Do(false, s2, Go(a)).local == map[a := Local(true, Exit), b := Local(false, ReadCount)];
    assert [Attached(a)] + [Terminated(a)] == [Attached(a), Terminated(a)];
  }

  /** It leaves; the second thread now finds itself alone; a third starts. */
  lemma Race5(a: Thread, b: Thread, c: Thread, w: seq<Message>)
    requires a != b && a != c && b != c
    ensures Leads(With(true, 2, map[a := Local(true, Exit), b := Local(false, ReadCount)], w), [Go(a), Go(b), Begin(c)],
                  With(true, 2, map[a := Local(true, Gone), b := Local(false, Clear), c := Local(false, ReadCount)], w))
  {
    var s := With(true, 2, map[a := Local(true, Exit), b := Local(false, ReadCount)], w);
    ThreeSteps(s, Go(a), Go(b), Begin(c));
    var s1 := Do(false, s, Go(a));
    assert s1 == With(true, 1, map[a := Local(true, Gone), b := Local(false, ReadCount)], w);
    var s2 := Do(false, s1, Go(b));
    assert s2 == With(true, 1, map[a := Local(true, Gone), b := Local(false, Clear)], w);
    assert Do(false, s2, Begin(c)).local
        == map[a := Local(true, Gone), b := Local(false, Clear), c := Local(false, ReadCount)];
  }

  /** The third finds the flag set; the second clears it. */
  lemma Race6(a: Thread, b: Thread, c: Thread, w: seq<Message>)
    requires a != b && a != c && b != c
    ensures Leads(With(true, 2, map[a := Local(true, Gone), b := Local(false, Clear), c := Local(false, ReadCount)], w),
                  [Go(c), Go(c), Go(b)],
                  With(false, 2, map[a := Local(true, Gone), b := Local(false, SetConnected),
                                     c := Local(false, Attach(InStart))], w))
  {
    var g := Local(true, Gone);
    var s := With(true, 2, map[a := g, b := Local(false, Clear), c := Local(false, ReadCount)], w);
    ThreeSteps(s, Go(c), Go(c), Go(b));
    var s1 := Do(false, s, Go(c));
    assert s1 == With(true, 2, map[a := g, b := Local(false, Clear), c := Local(false, ReadConnected)], w);
    var s2 := Do(false, s1, Go(c));
    assert s2 == With(true, 2, map[a := g, b := Local(false, Clear), c := Local(false, Attach(InStart))], w);
    assert Do(false, s2, Go(b)).local
           == map[a := g, b := Local(false, SetConnected), c := Local(false, Attach(InStart))];
  }

  /** The third slips; the second sets the flag again; the third stops. */
  lemma Race7(a: Thread, b: Thread, c: Thread, w: seq<Message>)
    requires a != b && a != c && b != c
    ensures Leads(With(false, 2, map[a := Local(true, Gone), b := Local(false, SetConnected),
                                     c := Local(false, Attach(InStart))], w),
                  [Go(c), Go(b), CallStop(c, [])],
                  With(true, 2, map[a := Local(true, Gone), b := Local(false, ReadConnected),
                                    c := Local(true, Leaving([]))], w))
  {
    var g := Local(true, Gone);
    var s := With(false, 2, map[a := g, b := Local(false, SetConnected), c := Local(false, Attach(InStart))], w);
    ThreeSteps(s, Go(c), Go(b), CallStop(c, []));
    var s1 := Do(false, s, Go(c));
    assert s1 == With(false, 2, map[a := g, b := Local(false, SetConnected), c := Local(true, Idle)], w);
    var s2 := Do(false, s1, Go(b));
    assert s2 == With(true, 2, map[a := g, b := Local(false, ReadConnected), c := Local(true, Idle)], w);
    assert Do(false, s2, CallStop(c, [])).local
           == map[a := g, b := Local(false, ReadConnected), c := Local(true, Leaving([]))];
  }

  /** It terminates without having attached. */
  lemma Race8(a: Thread, b: Thread, c: Thread, w: seq<Message>)
    requires a != b && a != c && b != c
    ensures Leads(With(true, 2,
                       map[a := Local(true, Gone), b := Local(false, ReadConnected), c := Local(true, Leaving([]))], w),
                  [Go(c), Go(c), Go(c)],
                  With(true, 2, map[a := Local(true, Gone), b := Local(false, ReadConnected), c := Local(true, Exit)],
                       w + [Terminated(c)]))
  {
    var g, r := Local(true, Gone), Local(false, ReadConnected);
    var s := With(true, 2, map[a := g, b := r, c := Local(true, Leaving([]))], w);
    ThreeSteps(s, Go(c), Go(c), Go(c));
    var s1 := Do(false, s, Go(c));
    assert s1 == With(true, 2, map[a := g, b := r, c := Local(true, Ending)], w);
    var s2 := Do(false, s1, Go(c));
    assert s2 == With(true, 2, map[a := g, b := r, c := Local(true, EndSend)], w);
    assert Do(false, s2, Go(c)).local == map[a := g, b := r, c := Local(true, Exit)];
  }

  /** Without MPI, with the network up all along: the thread count is read outside its lock, so a thread
      can find itself alone when another leaves, clear the flag, and make a third slip, which then
      terminates without having attached: two terminations against one attach. */
  lemma StartRace(a: Thread, b: Thread, c: Thread) returns (states: seq<Shared>, actions: seq<Action>)
    requires a != b && a != c && b != c
    ensures IsTrace(false, states, actions) && !states[|actions|].down
    ensures var wire := states[|actions|].wire;
            wire == [Attached(a), Terminated(a), Terminated(c)] && !Orderly(wire)
            && Terminations(wire) == 2 && Attaches(wire) == 1
  {
    hide Leads, Orderly, Terminations, Attaches, Do, Able;
    var g, w := Local(true, Gone), [Attached(a), Terminated(a)];
    var s1 := With(false, 1, map[a := Local(false, SetConnected)], []);
    var s2 := With(true, 1, map[a := Local(false, AttachSend(InStart))], []);
    var s3 := With(true, 2, map[a := Local(true, Leaving([])), b := Local(false, ReadCount)], [Attached(a)]);
    var s4 := With(true, 2, map[a := Local(true, Exit), b := Local(false, ReadCount)], w);
    var s5 := With(true, 2, map[a := g, b := Local(false, Clear), c := Local(false, ReadCount)], w);
    var s6 := With(false, 2, map[a := g, b := Local(false, SetConnected), c := Local(false, Attach(InStart))], w);
    var s7 := With(true, 2, map[a := g, b := Local(false, ReadConnected), c := Local(true, Leaving([]))], w);
    var s8 := With(true, 2, map[a := g, b := Local(false, ReadConnected), c := Local(true, Exit)], w + [Terminated(c)]);
    Race1(a);
    actions := [Begin(a), Go(a), Go(a)];
    Race2(a);
    LeadsConcat(FRESH, actions, s1, [Go(a), Go(a), Go(a)], s2);
    actions := actions + [Go(a), Go(a), Go(a)];
    Race3(a, b);
    LeadsConcat(FRESH, actions, s2, [Go(a), Begin(b), CallStop(a, [])], s3);
    actions := actions + [Go(a), Begin(b), CallStop(a, [])];
    Race4(a, b);
    LeadsConcat(FRESH, actions, s3, [Go(a), Go(a), Go(a)], s4);
    actions := actions + [Go(a), Go(a), Go(a)];
    Race5(a, b, c, w);
    LeadsConcat(FRESH, actions, s4, [Go(a), Go(b), Begin(c)], s5);
    actions := actions + [Go(a), Go(b), Begin(c)];
    Race6(a, b, c, w);
    LeadsConcat(FRESH, actions, s5, [Go(c), Go(c), Go(b)], s6);
    actions := actions + [Go(c), Go(c), Go(b)];
    Race7(a, b, c, w);
    LeadsConcat(FRESH, actions, s6, [Go(c), Go(b), CallStop(c, [])], s7);
    actions := actions + [Go(c), Go(b), CallStop(c, [])];
    Race8(a, b, c, w);
    LeadsConcat(FRESH, actions, s7, [Go(c), Go(c), Go(c)], s8);
    actions := actions + [Go(c), Go(c), Go(c)];
    states := LeadsIsTrace(FRESH, actions, s8);
    assert w + [Terminated(c)] == [Attached(a), Terminated(a), Terminated(c)];
    TwoAgainstOne(a, c);
  }

  lemma TwoAgainstOne(a: Thread, c: Thread)
    requires a != c
    ensures var wire := [Attached(a), Terminated(a), Terminated(c)];
            !Orderly(wire) && Terminations(wire) == 2 && Attaches(wire) == 1
  {
    var wire := [Attached(a), Terminated(a), Terminated(c)];
    assert wire[..2] == [Attached(a), Terminated(a)] && wire[..2][..1] == [Attached(a)] && [Attached(a)][..0] == [];
    assert Terminations([]) == 0 && Attaches([]) == 0;
    assert Terminations([Attached(a)]) == 0 && Attaches([Attached(a)]) == 1;
    assert Terminations(wire[..2]) == 1 && Attaches(wire[..2]) == 1;
    assert !AttachedBefore(wire, 2, c);
    assert wire[2] == Terminated(c);
  }

  // ---------------------------------------------------------------- the end of the network

  lemma DownStep(mpi: bool, s: Shared, a: Action)
    requires (s.down <==> s.local != map[] && Present(s.local) == {}) && s.numThreads == |Present(s.local)|
    requires Able(mpi, s, a)
    ensures var s' := Do(mpi, s, a); s'.down <==> Present(s'.local) == {}
  {
    var s', t := Do(mpi, s, a), a.thread;
    DoCounts(mpi, s, a);
    assert s'.down == (s.down || (a.Go? && s.local[t].pc == Exit && s.numThreads == 1));
    hide Do, Able;
    if a.Begin? {
      assert t in Present(s'.local);
    } else {
      assert t in Present(s.local);
      if s'.local[t].pc == Gone {
        assert Present(s'.local) == Present(s.local) - {t};
        LastOne(Present(s.local), t);
      } else {
        assert t in Present(s'.local);
      }
    }
  }

  /** In every interleaving the network is taken down when the last thread has left, and not before, and
      the count is that of the threads that have not left. */
  lemma {:induction false} DownIffAllLeft(mpi: bool, states: seq<Shared>, actions: seq<Action>, n: nat)
    requires IsTrace(mpi, states, actions) && n <= |actions|
    ensures var s := states[n];
            (s.down <==> n > 0 && Present(s.local) == {}) && s.numThreads == |Present(s.local)|
            && (n > 0 ==> s.local != map[])
  {
    hide Do, Able;
    if n == 0 {
      assert Present(map[]) == {};
    } else {
      DownIffAllLeft(mpi, states, actions, n - 1);
      DownStep(mpi, states[n - 1], actions[n - 1]);
      PresentAfter(mpi, states[n - 1], actions[n - 1]);
      DoIsLocal(mpi, states[n - 1], actions[n - 1]);
    }
  }
}
