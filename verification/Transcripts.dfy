/** What each thread puts on the wire when every read and write of the connection flag is a step of its
    own: nothing that it found the flag set for is lost, and nothing else is sent
    (services/collector/collector.c). */
module Transcripts {
  import opened Collector
  import opened Interleaving
  import LinkedObjects

  // ---------------------------------------------------------------- what is settled, what is owed

  /** Attached comes first, then data, objects, terminated. */
  ghost function Rank(m: Message): nat {
    match m
    case Attached(_) => 0
    case Data(_, _) => 1
    case Objects(_, _) => 2
    case Terminated(_) => 3
  }

  /** The message a thread is bound to send because it has just found the flag set: data when it makes
      the call; attached, if not yet sent, a group of objects and terminated when it looks again. */
  ghost function Found(s: Shared, a: Action): seq<Message> {
    if a.thread !in s.local || !s.connected then []
    else if a.CallSend? then [Data(a.thread, a.data)]
    else if !a.Go? then []
    else
      match s.local[a.thread].pc
      case Attach(_) => if s.local[a.thread].sent then [] else [Attached(a.thread)]
      case Leaving(groups) => if groups == [] then [] else [Objects(a.thread, groups[0])]
      case Ending => [Terminated(a.thread)]
      case _ => []
  }

  ghost function FoundAs(s: Shared, a: Action, t: Thread, rank: nat): seq<Message> {
    if a.thread == t && Found(s, a) != [] && Rank(Found(s, a)[0]) == rank then Found(s, a) else []
  }

  /** All such messages of one kind in the first n steps of a run. */
  ghost function Settled(states: seq<Shared>, actions: seq<Action>, n: nat, t: Thread, rank: nat): seq<Message>
    requires n <= |actions| && |states| == |actions| + 1
  {
    if n == 0 then []
    else Settled(states, actions, n - 1, t, rank) + FoundAs(states[n - 1], actions[n - 1], t, rank)
  }

  /** What a thread has still to send of that, in the middle of a call. */
  ghost function Owed(t: Thread, pc: Pc): seq<Message> {
    match pc
    case Attach(caller) => if caller.InSend? then [Data(t, caller.data)] else []
    case AttachSend(caller) => [Attached(t)] + if caller.InSend? then [Data(t, caller.data)] else []
    case SendData(data) => [Data(t, data)]
    case GroupSend(groups) => if groups == [] then [] else [Objects(t, groups[0])]
    case EndSend => [Terminated(t)]
    case _ => []
  }

  ghost function OwedIn(s: Shared, t: Thread): seq<Message> {
    if t in s.local then Owed(t, s.local[t].pc) else []
  }

  // ---------------------------------------------------------------- one step

  ghost predicate Stopping(pc: Pc) {
    pc.Leaving? || pc.GroupSend? || pc.Ending? || pc.EndSend? || pc.Exit? || pc.Gone?
  }

  /** The balance of one thread, and which kinds of message it cannot have come to yet. */
  ghost predicate Balance(s: Shared, t: Thread, m0: seq<Message>, m1: seq<Message>, m2: seq<Message>,
                          m3: seq<Message>)
  {
    && Said(s.wire, t) + OwedIn(s, t) == m0 + m1 + m2 + m3
    && (t !in s.local ==> m0 == m1 == m2 == m3 == [])
    && (t in s.local ==>
          var l := s.local[t];
          && (l.pc.AttachSend? ==> m0 == [Attached(t)])
          && (!l.sent && !l.pc.AttachSend? ==> m0 == [])
          && (!Stopping(l.pc) ==> m2 == [])
          && (!Stopping(l.pc) || l.pc.Leaving? || l.pc.GroupSend? || l.pc.Ending? ==> m3 == []))
  }

  ghost predicate Settles(states: seq<Shared>, actions: seq<Action>, n: nat, t: Thread)
    requires n <= |actions| && |states| == |actions| + 1
  {
    Balance(states[n], t, Settled(states, actions, n, t, 0), Settled(states, actions, n, t, 1),
            Settled(states, actions, n, t, 2), Settled(states, actions, n, t, 3))
  }

  /** Nothing has been said by a thread that has not taken the attached message for sent. */
  lemma {:induction false} NothingSaid(wire: seq<Message>, t: Thread)
    requires Silent(wire, t)
    ensures Said(wire, t) == []
  {
    if wire != [] {
      NothingSaid(wire[..|wire| - 1], t);
      assert wire[|wire| - 1] in wire;
    }
  }

  lemma SilentUntilSent(s: Shared, t: Thread)
    requires Placed(s) && (t in s.local ==> !s.local[t].sent)
    ensures Said(s.wire, t) == []
  {
    assert Silent(s.wire, t);
    NothingSaid(s.wire, t);
  }

  /** Steps of other threads. */
  lemma OtherBalance(mpi: bool, s: Shared, a: Action, t: Thread, m0: seq<Message>, m1: seq<Message>,
                     m2: seq<Message>, m3: seq<Message>)
    requires Able(mpi, s, a) && a.thread != t && Balance(s, t, m0, m1, m2, m3)
    ensures Balance(Do(mpi, s, a), t, m0, m1, m2, m3)
  {
    var s' := Do(mpi, s, a);
    DoIsLocal(mpi, s, a);
    hide Do, Able, Said, Owed, Stopping;
    if s'.wire != s.wire {
      var m: Message :| m.thread == a.thread && s'.wire == s.wire + [m];
      SaidSnoc(s.wire, m, t);
    }
    assert t in s'.local <==> t in s.local;
  }

  /** Calls by the thread itself, up to the first read of the flag. */
  lemma CallBalance(mpi: bool, s: Shared, a: Action, m0: seq<Message>, m1: seq<Message>, m2: seq<Message>,
                    m3: seq<Message>)
    requires Able(mpi, s, a) && !a.Go? && Placed(s) && Balance(s, a.thread, m0, m1, m2, m3)
    ensures var t := a.thread;
            Balance(Do(mpi, s, a), t, m0 + FoundAs(s, a, t, 0), m1 + FoundAs(s, a, t, 1),
                    m2 + FoundAs(s, a, t, 2), m3 + FoundAs(s, a, t, 3))
  {
    hide Said, Placed, GoOn;
    var s', t := Do(mpi, s, a), a.thread;
    assert s'.wire == s.wire;
    if Found(s, a) != [] {
      assert m2 == m3 == [];
      assert m0 + (m1 + Found(s, a)) + [] + [] == (m0 + m1 + [] + []) + Found(s, a);
    }
    if a.Begin? {
      SilentUntilSent(s, t);
    }
    Unchanged(m0, m1, m2, m3);
  }

  lemma Unchanged(m0: seq<Message>, m1: seq<Message>, m2: seq<Message>, m3: seq<Message>)
    ensures m0 + [] == m0 && m1 + [] == m1 && m2 + [] == m2 && m3 + [] == m3
  {
  }

  /** Sending one message that is owed. */
  lemma Pay(said: seq<Message>, m: Message, rest: seq<Message>)
    ensures said + ([m] + rest) == (said + [m]) + rest
  {
  }

  /** The thread itself sends what it owes. */
  lemma SendBalance(s: Shared, t: Thread, m0: seq<Message>, m1: seq<Message>, m2: seq<Message>, m3: seq<Message>)
    requires t in s.local && CanGo(s.local[t].pc) && Pending(s) && Placed(s) && Balance(s, t, m0, m1, m2, m3)
    requires var pc := s.local[t].pc; pc.AttachSend? || pc.SendData? || pc.GroupSend? || pc.EndSend?
    ensures Balance(GoOn(s, t), t, m0, m1, m2, m3)
  {
    hide Said, Placed, Pending;
    PendingAt(s, t);
    match s.local[t].pc {
      case AttachSend(caller) =>
        SilentUntilSent(s, t);
        SaidSnoc(s.wire, Attached(t), t);
        Pay(Said(s.wire, t), Attached(t), if caller.InSend? then [Data(t, caller.data)] else []);
      case SendData(data) =>
        SaidSnoc(s.wire, Data(t, data), t);
        Pay(Said(s.wire, t), Data(t, data), []);
      case GroupSend(groups) =>
        SaidSnoc(s.wire, Objects(t, groups[0]), t);
        Pay(Said(s.wire, t), Objects(t, groups[0]), []);
      case EndSend =>
        SaidSnoc(s.wire, Terminated(t), t);
        Pay(Said(s.wire, t), Terminated(t), []);
    }
  }

  lemma AttachedFirst(data: seq<Message>, m: Message, m1: seq<Message>, m2: seq<Message>, m3: seq<Message>)
    requires [] + data == [] + m1 + m2 + m3
    ensures [] + ([m] + data) == ([] + [m]) + m1 + m2 + m3
  {
    assert [] + data == data && [] + m1 == m1 && [] + [m] == [m];
    assert [m] + (m1 + m2 + m3) == [m] + m1 + m2 + m3;
    assert [] + ([m] + data) == [m] + data;
  }

  /** The thread itself looks at the flag again, and finds it set. */
  lemma FoundBalance(s: Shared, t: Thread, m0: seq<Message>, m1: seq<Message>, m2: seq<Message>, m3: seq<Message>)
    requires t in s.local && CanGo(s.local[t].pc) && Placed(s) && Balance(s, t, m0, m1, m2, m3)
    requires Found(s, Go(t)) != []
    ensures var a := Go(t);
            Balance(GoOn(s, t), t, m0 + FoundAs(s, a, t, 0), m1 + FoundAs(s, a, t, 1), m2 + FoundAs(s, a, t, 2),
                    m3 + FoundAs(s, a, t, 3))
  {
    hide Said, Placed;
    Unchanged(m0, m1, m2, m3);
    match s.local[t].pc {
      case Attach(caller) =>
        SilentUntilSent(s, t);
        AttachedFirst(Owed(t, s.local[t].pc), Attached(t), m1, m2, m3);
      case Leaving(groups) =>
        assert m0 + m1 + (m2 + Found(s, Go(t))) + [] == (m0 + m1 + m2 + []) + Found(s, Go(t));
      case Ending =>
        assert m0 + m1 + m2 + ([] + Found(s, Go(t))) == (m0 + m1 + m2 + []) + Found(s, Go(t));
    }
  }

  /** Any other step of the thread itself changes nothing here. */
  lemma QuietBalance(s: Shared, t: Thread, m0: seq<Message>, m1: seq<Message>, m2: seq<Message>, m3: seq<Message>)
    requires t in s.local && CanGo(s.local[t].pc) && Balance(s, t, m0, m1, m2, m3) && Found(s, Go(t)) == []
    requires var pc := s.local[t].pc; !(pc.AttachSend? || pc.SendData? || pc.GroupSend? || pc.EndSend?)
    ensures Balance(GoOn(s, t), t, m0, m1, m2, m3)
  {
    hide Said;
    assert GoOn(s, t).wire == s.wire;
  }

  lemma GoBalance(mpi: bool, s: Shared, a: Action, m0: seq<Message>, m1: seq<Message>, m2: seq<Message>,
                  m3: seq<Message>)
    requires Able(mpi, s, a) && a.Go? && Placed(s) && Pending(s) && Balance(s, a.thread, m0, m1, m2, m3)
    ensures var t := a.thread;
            Balance(Do(mpi, s, a), t, m0 + FoundAs(s, a, t, 0), m1 + FoundAs(s, a, t, 1),
                    m2 + FoundAs(s, a, t, 2), m3 + FoundAs(s, a, t, 3))
  {
    hide Said, Placed, Pending, Balance, GoOn;
    var t := a.thread;
    Unchanged(m0, m1, m2, m3);
    if Found(s, a) != [] {
      FoundBalance(s, t, m0, m1, m2, m3);
    } else if var pc := s.local[t].pc; pc.AttachSend? || pc.SendData? || pc.GroupSend? || pc.EndSend? {
      SendBalance(s, t, m0, m1, m2, m3);
    } else {
      QuietBalance(s, t, m0, m1, m2, m3);
    }
  }

  // ---------------------------------------------------------------- whole runs

  /** NOTHING LOST, NOTHING MADE UP. In every interleaving, at every moment: what a thread has put on the
      wire, followed by what it is in the middle of sending, is attached if it found the flag set for it,
      the data of each call that found the flag set, each group of objects it found the flag set for, and
      terminated likewise, in this order. A thread between calls, or gone, owes nothing. */
  lemma {:induction false} EveryThreadSettles(mpi: bool, states: seq<Shared>, actions: seq<Action>, n: nat, t: Thread)
    requires IsTrace(mpi, states, actions) && n <= |actions|
    ensures Settles(states, actions, n, t)
  {
    hide Do, Able, Balance, Placed, Pending, Found;
    if n == 0 {
      FreshBalance(t);
    } else {
      var s, a := states[n - 1], actions[n - 1];
      EveryThreadSettles(mpi, states, actions, n - 1, t);
      Always(mpi, states, actions, n - 1);
      var m0, m1 := Settled(states, actions, n - 1, t, 0), Settled(states, actions, n - 1, t, 1);
      var m2, m3 := Settled(states, actions, n - 1, t, 2), Settled(states, actions, n - 1, t, 3);
      if a.thread != t {
        Unchanged(m0, m1, m2, m3);
        OtherBalance(mpi, s, a, t, m0, m1, m2, m3);
      } else if a.Go? {
        GoBalance(mpi, s, a, m0, m1, m2, m3);
      } else {
        CallBalance(mpi, s, a, m0, m1, m2, m3);
      }
    }
  }

  lemma FreshBalance(t: Thread)
    ensures Balance(FRESH, t, [], [], [], [])
  {
  }

  // ---------------------------------------------------------------- when the flag does not fall

  /** The groups of objects a thread that takes itself for attached has when it stops. */
  ghost function ObjectsAtStop(states: seq<Shared>, actions: seq<Action>, n: nat, t: Thread): seq<Message>
    requires n <= |actions| && |states| == |actions| + 1
  {
    if n == 0 then []
    else ObjectsAtStop(states, actions, n - 1, t) + StopsWith(states[n - 1], actions[n - 1], t)
  }

  ghost function StopsWith(s: Shared, a: Action, t: Thread): seq<Message> {
    if a.CallStop? && a.thread == t && t in s.local && s.local[t].sent then ObjectMessages(t, a.groups) else []
  }

  /** The groups the thread has yet to come to. */
  ghost function ToCome(t: Thread, pc: Pc): seq<Message> {
    match pc
    case Leaving(groups) => ObjectMessages(t, groups)
    case GroupSend(groups) => if groups == [] then [] else ObjectMessages(t, groups[1..])
    case _ => []
  }

  /** Of the messages settled: attached is there, and all the groups come, and then terminated. */
  ghost predicate Complete(s: Shared, t: Thread, m0: seq<Message>, m2: seq<Message>, m3: seq<Message>,
                           groups: seq<Message>)
  {
    && (t !in s.local ==> m2 == m3 == groups == [])
    && (t in s.local ==>
          var l := s.local[t];
          && (l.sent || l.pc.AttachSend? ==> m0 == [Attached(t)])
          && (!Stopping(l.pc) ==> m2 == groups == [])
          && m2 + ToCome(t, l.pc) == groups
          && (l.sent && (l.pc.EndSend? || l.pc.Exit? || l.pc.Gone?) ==> m3 == [Terminated(t)])
          && (!Stopping(l.pc) || l.pc.Leaving? || l.pc.GroupSend? || l.pc.Ending? ==> m3 == []))
  }

  lemma CompleteOther(mpi: bool, s: Shared, a: Action, t: Thread, m0: seq<Message>, m2: seq<Message>,
                      m3: seq<Message>, groups: seq<Message>)
    requires Able(mpi, s, a) && a.thread != t && Complete(s, t, m0, m2, m3, groups)
    ensures Complete(Do(mpi, s, a), t, m0, m2, m3, groups)
  {
    DoIsLocal(mpi, s, a);
    hide Do, Able, Stopping, ToCome;
    var s' := Do(mpi, s, a);
    assert t in s'.local <==> t in s.local;
  }

  lemma CompleteCall(mpi: bool, s: Shared, a: Action, m0: seq<Message>, m2: seq<Message>, m3: seq<Message>,
                     groups: seq<Message>)
    requires Able(mpi, s, a) && !a.Go? && Complete(s, a.thread, m0, m2, m3, groups)
    ensures var t := a.thread;
            Complete(Do(mpi, s, a), t, m0 + FoundAs(s, a, t, 0), m2 + FoundAs(s, a, t, 2),
                     m3 + FoundAs(s, a, t, 3), groups + StopsWith(s, a, t))
  {
    hide ObjectMessages, GoOn;
    Unchanged(m0, m2, m3, groups);
    var coming := StopsWith(s, a, a.thread);
    assert [] + coming == coming;
    if a.CallStop? {
      assert m2 == groups == [];
    }
  }

  /** While it stops: every group is found, or sent. */
  lemma CompleteStopping(s: Shared, t: Thread, m0: seq<Message>, m2: seq<Message>, m3: seq<Message>,
                         groups: seq<Message>)
    requires t in s.local && Stopping(s.local[t].pc) && CanGo(s.local[t].pc) && (s.local[t].sent ==> s.connected)
    requires s.local[t].sent || s.local[t].pc.Exit?
    requires Complete(s, t, m0, m2, m3, groups)
    ensures var a := Go(t);
            Complete(GoOn(s, t), t, m0, m2 + FoundAs(s, a, t, 2), m3 + FoundAs(s, a, t, 3), groups)
            && FoundAs(s, a, t, 0) == []
  {
    Unchanged(m0, m2, m3, groups);
    match s.local[t].pc {
      case Leaving(gs) =>
        if gs != [] {
          var rest := ObjectMessages(t, gs[1..]);
          assert ObjectMessages(t, gs) == [Objects(t, gs[0])] + rest;
          Pay(m2, Objects(t, gs[0]), rest);
        } else {
          assert ObjectMessages(t, gs) == [];
        }
      case GroupSend(gs) =>
      case Ending =>
        assert [] + [Terminated(t)] == [Terminated(t)];
      case _ =>
    }
  }

  /** Before it stops: attached is found whenever it is looked for. */
  lemma CompleteBefore(s: Shared, t: Thread, m0: seq<Message>, m2: seq<Message>, m3: seq<Message>,
                       groups: seq<Message>)
    requires t in s.local && !Stopping(s.local[t].pc) && CanGo(s.local[t].pc) && SteadyAt(s, t)
    requires Complete(s, t, m0, m2, m3, groups)
    requires !s.local[t].sent && !s.local[t].pc.AttachSend? ==> m0 == []
    ensures var a := Go(t);
            Complete(GoOn(s, t), t, m0 + FoundAs(s, a, t, 0), m2, m3, groups)
            && FoundAs(s, a, t, 2) == FoundAs(s, a, t, 3) == []
  {
    hide ObjectMessages;
    Unchanged(m0, m2, m3, groups);
    if s.local[t].pc.Attach? {
      assert [] + [Attached(t)] == [Attached(t)];
    }
  }

  lemma CompleteGo(mpi: bool, s: Shared, a: Action, m0: seq<Message>, m2: seq<Message>, m3: seq<Message>,
                   groups: seq<Message>)
    requires Able(mpi, s, a) && a.Go? && SteadyAt(s, a.thread) && Placed(s)
    requires Complete(s, a.thread, m0, m2, m3, groups)
    requires !s.local[a.thread].sent && !s.local[a.thread].pc.AttachSend? ==> m0 == []
    ensures var t := a.thread;
            Complete(Do(mpi, s, a), t, m0 + FoundAs(s, a, t, 0), m2 + FoundAs(s, a, t, 2),
                     m3 + FoundAs(s, a, t, 3), groups)
  {
    hide Complete, FoundAs, GoOn;
    Unchanged(m0, m2, m3, groups);
    if Stopping(s.local[a.thread].pc) {
      CompleteStopping(s, a.thread, m0, m2, m3, groups);
    } else {
      CompleteBefore(s, a.thread, m0, m2, m3, groups);
    }
  }

  lemma {:induction false} CompleteThroughout(mpi: bool, states: seq<Shared>, actions: seq<Action>, n: nat, t: Thread)
    requires IsTrace(mpi, states, actions) && n <= |actions| && NoFalls(states, actions, n)
    ensures Complete(states[n], t, Settled(states, actions, n, t, 0), Settled(states, actions, n, t, 2),
                     Settled(states, actions, n, t, 3), ObjectsAtStop(states, actions, n, t))
  {
    hide Do, Able, Placed, Pending, FoundAs, StopsWith, Complete, Falls, SteadyAt, Said, Owed;
    if n == 0 {
      FreshComplete(t);
    } else {
      var s, a := states[n - 1], actions[n - 1];
      CompleteThroughout(mpi, states, actions, n - 1, t);
      EveryThreadSettles(mpi, states, actions, n - 1, t);
      SteadyThroughout(mpi, states, actions, n - 1);
      Always(mpi, states, actions, n - 1);
      var m0, m2 := Settled(states, actions, n - 1, t, 0), Settled(states, actions, n - 1, t, 2);
      var m3, groups := Settled(states, actions, n - 1, t, 3), ObjectsAtStop(states, actions, n - 1, t);
      Unchanged(m0, m2, m3, groups);
      OnlyOwn(s, a, t);
      if a.thread != t {
        CompleteOther(mpi, s, a, t, m0, m2, m3, groups);
      } else if a.Go? {
        GoHasThread(mpi, s, a);
        CompleteGo(mpi, s, a, m0, m2, m3, groups);
      } else {
        CompleteCall(mpi, s, a, m0, m2, m3, groups);
      }
    }
  }

  lemma OnlyOwn(s: Shared, a: Action, t: Thread)
    ensures a.thread != t ==> forall r: nat :: FoundAs(s, a, t, r) == []
    ensures a.thread != t || a.Go? ==> StopsWith(s, a, t) == []
  {
  }

  lemma GoHasThread(mpi: bool, s: Shared, a: Action)
    requires Able(mpi, s, a) && a.Go?
    ensures a.thread in s.local
  {
  }

  lemma FreshComplete(t: Thread)
    ensures Complete(FRESH, t, [], [], [], [])
  {
  }

  /** In every interleaving in which the flag is never cleared while set, as in every one with MPI: a
      thread that has left has put nothing on the wire if it never attached, and otherwise attached, the
      data of each call that found the flag set, all the groups it stopped with, and terminated. */
  lemma LeftHasSaidAll(mpi: bool, states: seq<Shared>, actions: seq<Action>, t: Thread)
    requires IsTrace(mpi, states, actions) && NoFalls(states, actions, |actions|)
    requires t in states[|actions|].local && states[|actions|].local[t].pc == Gone
    ensures var n := |actions|;
            Said(states[n].wire, t)
            == if states[n].local[t].sent
               then [Attached(t)] + Settled(states, actions, n, t, 1) + ObjectsAtStop(states, actions, n, t)
                    + [Terminated(t)]
               else []
  {
    hide Do, Able, NoFalls, Settled, ObjectsAtStop, Said, Placed, Pending, Tidy;
    var n := |actions|;
    EveryThreadSettles(mpi, states, actions, n, t);
    CompleteThroughout(mpi, states, actions, n, t);
    Always(mpi, states, actions, n);
    if !states[n].local[t].sent {
      SilentUntilSent(states[n], t);
    } else {
      assert Said(states[n].wire, t) + [] == Said(states[n].wire, t);
      assert ObjectsAtStop(states, actions, n, t) + [] == ObjectsAtStop(states, actions, n, t);
    }
  }
}
