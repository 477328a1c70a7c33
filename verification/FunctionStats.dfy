/** Per-function load balance: the thread with the most and the least of each function, and the
    totals behind the average, reduced up the tree (core/components/SymbolComponent.cpp). */
module FunctionStats {
  import opened Extents
  import opened Gather
  import opened Options
  import opened AddressAggregation
  import opened ThreadEvents

  /** One function in one thread with what was counted for it (FuncThreadStats). */
  datatype Stat = Stat(func: string, thread: ThreadName, value: Count)

  /** The thread recorded for a function and its value. */
  datatype Record = Record(thread: ThreadName, value: Count)

  type Records = map<string, Record>

  /** Total value of a function and in how many threads it was seen. */
  datatype Average = Average(total: Count, threads: Count)

  type Averages = map<string, Average>

  /** The maximum and the minimum reduction differ only in the comparison. */
  predicate Beats(most: bool, a: Count, b: Count) {
    if most then a > b else a < b
  }

  // ---------------------------------------------------------------- leaf statistics

  /** Position of the entry for the same function and thread, or the length. */
  method Find(stats: seq<Stat>, s: Stat) returns (k: nat)
    ensures k <= |stats|
    ensures k < |stats| ==> stats[k].func == s.func && stats[k].thread == s.thread
    ensures k == |stats| ==> !Seen(stats, s.func, s.thread)
  {
    k := 0;
    while k < |stats| && !(stats[k].func == s.func && stats[k].thread == s.thread)
      invariant k <= |stats|
      invariant forall j :: 0 <= j < k ==> !(stats[j].func == s.func && stats[j].thread == s.thread)
    {
      k := k + 1;
    }
  }

  ghost predicate OneEach(stats: seq<Stat>) {
    forall i, j :: 0 <= i < j < |stats| ==> !(stats[i].func == stats[j].func && stats[i].thread == stats[j].thread)
  }

  /** What was sampled for a function in a thread. */
  ghost function Sampled(samples: seq<Stat>, func: string, thread: ThreadName): nat {
    if samples == [] then 0
    else
      var s := samples[|samples| - 1];
      Sampled(samples[..|samples| - 1], func, thread) + if s.func == func && s.thread == thread then s.value else 0
  }

  ghost predicate Seen(samples: seq<Stat>, func: string, thread: ThreadName) {
    exists i :: 0 <= i < |samples| && samples[i].func == func && samples[i].thread == thread
  }

  /** Each entry is for something sampled and holds the sum of its samples. */
  ghost predicate Sums(samples: seq<Stat>, stats: seq<Stat>) {
    forall i :: 0 <= i < |stats| ==>
      && stats[i].value == Wrap(Sampled(samples, stats[i].func, stats[i].thread))
      && Seen(samples, stats[i].func, stats[i].thread)
  }

  /** Everything sampled has an entry. */
  ghost predicate Complete(samples: seq<Stat>, stats: seq<Stat>) {
    forall i :: 0 <= i < |samples| ==> Seen(stats, samples[i].func, samples[i].thread)
  }

  ghost predicate Tallied(samples: seq<Stat>, stats: seq<Stat>) {
    OneEach(stats) && Sums(samples, stats) && Complete(samples, stats)
  }

  /** One entry per function and thread that was sampled, holding the sum of its samples. */
  method Tally(samples: seq<Stat>) returns (stats: seq<Stat>)
    ensures Tallied(samples, stats)
  {
    hide Sums, Complete, OneEach, Seen, Plus;
    stats := [];
    NothingTallied();
    assert samples[..0] == [];
    for n := 0 to |samples|
      invariant Tallied(samples[..n], stats)
    {
      var s := samples[n];
      var k := Find(stats, s);
      SumsOne(samples[..n], stats, s, k);
      CompleteOne(samples[..n], stats, s, k);
      OneEachOne(stats, s, k);
      assert samples[..n] + [s] == samples[..n + 1];
      if k == |stats| {
        stats := stats + [s];
      } else {
        stats := stats[k := stats[k].(value := Plus(stats[k].value, s.value))];
      }
    }
    assert samples[..|samples|] == samples;
  }

  lemma SampledSnoc(samples: seq<Stat>, s: Stat, func: string, thread: ThreadName)
    ensures Sampled(samples + [s], func, thread)
         == Sampled(samples, func, thread) + if s.func == func && s.thread == thread then s.value else 0
    ensures Seen(samples + [s], func, thread) <==> Seen(samples, func, thread) || (s.func == func && s.thread == thread)
  {
    assert (samples + [s])[..|samples|] == samples;
    if s.func == func && s.thread == thread {
      assert (samples + [s])[|samples|] == s;
    }
    if Seen(samples, func, thread) {
      var i :| 0 <= i < |samples| && samples[i].func == func && samples[i].thread == thread;
      assert (samples + [s])[i] == samples[i];
    }
  }

  lemma {:induction false} UnseenIsZero(samples: seq<Stat>, func: string, thread: ThreadName)
    requires !Seen(samples, func, thread)
    ensures Sampled(samples, func, thread) == 0
  {
    if samples != [] {
      var front := samples[..|samples| - 1];
      assert samples == front + [samples[|samples| - 1]];
      SampledSnoc(front, samples[|samples| - 1], func, thread);
      UnseenIsZero(front, func, thread);
    }
  }

  /** stats with one more sample, whose entry is at k if there is one. */
  function WithSample(stats: seq<Stat>, s: Stat, k: nat): seq<Stat>
    requires k <= |stats|
  {
    if k == |stats| then stats + [s] else stats[k := stats[k].(value := Plus(stats[k].value, s.value))]
  }

  lemma SumsOne(samples: seq<Stat>, stats: seq<Stat>, s: Stat, k: nat)
    requires Tallied(samples, stats) && k <= |stats|
    requires k < |stats| ==> stats[k].func == s.func && stats[k].thread == s.thread
    requires k == |stats| ==> !Seen(stats, s.func, s.thread)
    ensures Sums(samples + [s], WithSample(stats, s, k))
  {
    hide Wrap, Sampled;
    var stats' := WithSample(stats, s, k);
    forall i | 0 <= i < |stats'|
      ensures stats'[i].value == Wrap(Sampled(samples + [s], stats'[i].func, stats'[i].thread))
      ensures Seen(samples + [s], stats'[i].func, stats'[i].thread)
    {
      SampledSnoc(samples, s, stats'[i].func, stats'[i].thread);
      if i == |stats| {
        UnseenBefore(samples, stats, s);
        WrapSmall(s.value);
      } else if i == k {
        WrapAdd(Sampled(samples, s.func, s.thread), s.value);
        WrapSmall(s.value);
      } else {
        assert stats'[i] == stats[i];
      }
    }
  }

  lemma NothingTallied()
    ensures Tallied([], [])
  {
  }

  lemma OneEachOne(stats: seq<Stat>, s: Stat, k: nat)
    requires OneEach(stats) && k <= |stats|
    requires k == |stats| ==> !Seen(stats, s.func, s.thread)
    ensures OneEach(WithSample(stats, s, k))
  {
  }

  lemma WrapSmall(c: Count)
    ensures Wrap(c) == c
  {
  }

  lemma UnseenBefore(samples: seq<Stat>, stats: seq<Stat>, s: Stat)
    requires Complete(samples, stats) && !Seen(stats, s.func, s.thread)
    ensures Sampled(samples, s.func, s.thread) == 0
  {
    UnseenIsZero(samples, s.func, s.thread);
  }

  lemma CompleteOne(samples: seq<Stat>, stats: seq<Stat>, s: Stat, k: nat)
    requires Complete(samples, stats) && k <= |stats|
    requires k < |stats| ==> stats[k].func == s.func && stats[k].thread == s.thread
    ensures Complete(samples + [s], WithSample(stats, s, k))
  {
    var samples', stats' := samples + [s], WithSample(stats, s, k);
    forall i | 0 <= i < |samples'| ensures Seen(stats', samples'[i].func, samples'[i].thread) {
      if i < |samples| {
        assert Seen(stats, samples[i].func, samples[i].thread);
        var j :| 0 <= j < |stats| && stats[j].func == samples[i].func && stats[j].thread == samples[i].thread;
        assert stats'[j].func == samples[i].func && stats'[j].thread == samples[i].thread;
      } else {
        assert stats'[k].func == s.func && stats'[k].thread == s.thread;
      }
    }
  }

  // ---------------------------------------------------------------- extremes at a leaf

  /** Take one entry into account; an earlier record of equal value stays. */
  function Better(most: bool, v: Records, s: Stat): Records {
    if s.func !in v || Beats(most, s.value, v[s.func].value) then v[s.func := Record(s.thread, s.value)] else v
  }

  /** The extremes of a leaf's statistics; entries of value 0 do not take part. */
  function LeafBest(most: bool, stats: seq<Stat>): Records {
    if stats == [] then map[]
    else
      var v, s := LeafBest(most, stats[..|stats| - 1]), stats[|stats| - 1];
      if s.value == 0 then v else Better(most, v, s)
  }

  function Functions(stats: seq<Stat>): set<string> {
    set i | 0 <= i < |stats| :: stats[i].func
  }

  /** v restricted to some functions. */
  function Only(v: Records, fs: set<string>): Records {
    map f | f in v && f in fs :: v[f]
  }

  /** The double loop: for each function, over all entries. */
  method Extremes(stats: seq<Stat>) returns (maxfuncs: Records, minfuncs: Records)
    ensures maxfuncs == LeafBest(true, stats) && minfuncs == LeafBest(false, stats)
    ensures Between(minfuncs, maxfuncs, [stats])
  {
    maxfuncs, minfuncs := map[], map[];
    var rest := Functions(stats);
    ghost var done: set<string> := {};
    while rest != {}
      invariant done !! rest && done + rest == Functions(stats)
      invariant maxfuncs == Only(LeafBest(true, stats), done) && minfuncs == Only(LeafBest(false, stats), done)
    {
      var f :| f in rest;
      maxfuncs := ForFunction(true, stats, f, maxfuncs, done);
      minfuncs := ForFunction(false, stats, f, minfuncs, done);
      rest, done := rest - {f}, done + {f};
    }
    BestKeys(true, stats);
    BestKeys(false, stats);
    BetweenAtLeaf(stats);
  }

  lemma BestStep(most: bool, stats: seq<Stat>, i: nat, f: string, v0: Records)
    requires i < |stats| && f !in v0
    ensures var v := v0 + Only(LeafBest(most, stats[..i]), {f});
            var s := stats[i];
            v0 + Only(LeafBest(most, stats[..i + 1]), {f})
            == if s.value != 0 && s.func == f then Better(most, v, s) else v
  {
    assert stats[..i + 1][..i] == stats[..i];
    var v := v0 + Only(LeafBest(most, stats[..i]), {f});
    var l := v0 + Only(LeafBest(most, stats[..i + 1]), {f});
    var r := if stats[i].value != 0 && stats[i].func == f then Better(most, v, stats[i]) else v;
    assert l.Keys == r.Keys;
  }

  method ForFunction(most: bool, stats: seq<Stat>, f: string, v0: Records, ghost done: set<string>) returns (v: Records)
    requires v0 == Only(LeafBest(most, stats), done) && f !in done
    ensures v == Only(LeafBest(most, stats), done + {f})
  {
    v := v0;
    for i := 0 to |stats|
      invariant v == v0 + Only(LeafBest(most, stats[..i]), {f})
    {
      var s := stats[i];
      BestStep(most, stats, i, f, v0);
      if s.value != 0 && s.func == f {
        if f !in v {
          v := v[f := Record(s.thread, s.value)];
        } else if Beats(most, s.value, v[f].value) {
          v := v[f := Record(s.thread, s.value)];
        }
      }
    }
    assert stats[..|stats|] == stats;
  }

  lemma {:induction false} BestKeys(most: bool, stats: seq<Stat>)
    ensures LeafBest(most, stats).Keys <= Functions(stats)
  {
    if stats != [] {
      BestKeys(most, stats[..|stats| - 1]);
      assert Functions(stats) == Functions(stats[..|stats| - 1]) + {stats[|stats| - 1].func};
    }
  }

  /** The entries that take part. */
  ghost function NonZero(stats: seq<Stat>): multiset<Stat> {
    if stats == [] then multiset{} else NonZero(stats[..|stats| - 1]) + OneNonZero(stats[|stats| - 1])
  }

  ghost function OneNonZero(s: Stat): multiset<Stat> {
    if s.value == 0 then multiset{} else multiset{s}
  }

  /** a is on the right side of the extreme b: at most the maximum, at least the minimum. */
  ghost predicate Within(most: bool, a: nat, b: nat) {
    (most ==> a <= b) && (!most ==> b <= a)
  }

  /** Every recorded function's record is one of the entries, and it is their maximum or minimum. */
  ghost predicate IsBest(most: bool, v: Records, m: multiset<Stat>) {
    && (forall f :: f in v ==> Stat(f, v[f].thread, v[f].value) in m)
    && (forall s :: s in m ==> s.func in v && Within(most, s.value, v[s.func].value))
  }

  lemma {:induction false} LeafBestIsBest(most: bool, stats: seq<Stat>)
    ensures IsBest(most, LeafBest(most, stats), NonZero(stats))
  {
    hide IsBest, Better;
    if stats == [] {
      NothingIsBest(most);
    } else {
      var front, s := stats[..|stats| - 1], stats[|stats| - 1];
      LeafBestIsBest(most, front);
      if s.value == 0 {
        assert NonZero(front) + multiset{} == NonZero(front);
      } else {
        BetterIsBest(most, LeafBest(most, front), NonZero(front), s);
      }
    }
  }

  lemma NothingIsBest(most: bool)
    ensures IsBest(most, map[], multiset{})
  {
  }

  lemma BetterIsBest(most: bool, v: Records, m: multiset<Stat>, s: Stat)
    requires IsBest(most, v, m)
    ensures IsBest(most, Better(most, v, s), m + multiset{s})
  {
  }

  /** The record of f is the first of the entries with the extreme value. */
  ghost predicate FirstExtreme(most: bool, stats: seq<Stat>, f: string, r: Record, i: nat) {
    && i < |stats| && stats[i] == Stat(f, r.thread, r.value)
    && (forall j :: 0 <= j < i && stats[j].func == f && stats[j].value != 0 ==>
          stats[j].value != r.value && Within(most, stats[j].value, r.value))
  }

  lemma {:induction false} LeafRecordsFirst(most: bool, stats: seq<Stat>, f: string) returns (i: nat)
    requires f in LeafBest(most, stats)
    ensures FirstExtreme(most, stats, f, LeafBest(most, stats)[f], i)
  {
    var n := |stats| - 1;
    var front, s := stats[..n], stats[n];
    var before := LeafBest(most, front);
    if s.func == f && s.value != 0 && (f !in before || before[f] != LeafBest(most, stats)[f]) {
      i := n;
      LeafBestIsBest(most, front);
      forall j | 0 <= j < n && stats[j].func == f && stats[j].value != 0
        ensures stats[j].value != s.value && Within(most, stats[j].value, s.value)
      {
        assert front[j] == stats[j];
        NonZeroMembers(front, stats[j]);
      }
    } else {
      i := LeafRecordsFirst(most, front, f);
      assert forall j :: 0 <= j < n ==> front[j] == stats[j];
    }
  }

  // ---------------------------------------------------------------- extremes up the tree

  /** A message's records merged into those a node already has. */
  function Merge(most: bool, v: Records, w: Records): Records {
    map f | f in v.Keys + w.Keys ::
      if f in w && (f !in v || Beats(most, w[f].value, v[f].value)) then w[f] else v[f]
  }

  /** A record gives way only to a strictly greater maximum or a strictly smaller minimum, so of equal
      ones the first to arrive stays. */
  lemma MergeAt(v: Records, w: Records, f: string)
    requires f in v && f in w
    ensures f in Merge(true, v, w) && Merge(true, v, w)[f] == if v[f].value < w[f].value then w[f] else v[f]
    ensures f in Merge(false, v, w) && Merge(false, v, w)[f] == if w[f].value < v[f].value then w[f] else v[f]
  {
  }

  lemma MergeIsBest(most: bool, v: Records, x: multiset<Stat>, w: Records, y: multiset<Stat>)
    requires IsBest(most, v, x) && IsBest(most, w, y)
    ensures IsBest(most, Merge(most, v, w), x + y)
  {
  }

  ghost function BestRel(most: bool): (Records, multiset<Stat>) -> bool {
    (v, m) => IsBest(most, v, m)
  }

  function Merger(most: bool): (Records, Records) -> Records {
    (v, w) => Merge(most, v, w)
  }

  function BestTrace(most: bool): seq<Stat> -> seq<Option<Records>> {
    stats => [Some(LeafBest(most, stats))]
  }

  /** s is an entry of non-zero value at some leaf. */
  ghost predicate TakesPart(ls: seq<seq<Stat>>, s: Stat) {
    s.value != 0 && exists i :: 0 <= i < |ls| && s in ls[i]
  }

  lemma {:induction false} NonZeroMembers(stats: seq<Stat>, s: Stat)
    ensures s in NonZero(stats) <==> s in stats && s.value != 0
  {
    hide OneNonZero;
    if stats != [] {
      var front, last := stats[..|stats| - 1], stats[|stats| - 1];
      NonZeroMembers(front, s);
      InSnoc(front, last, s);
      assert stats == front + [last];
      InSum(NonZero(front), OneNonZero(last), s);
      OneMember(last, s);
    }
  }

  lemma InSnoc(front: seq<Stat>, last: Stat, s: Stat)
    ensures s in front + [last] <==> s in front || s == last
  {
  }

  lemma OneMember(last: Stat, s: Stat)
    ensures s in OneNonZero(last) <==> s == last && last.value != 0
  {
  }

  lemma InSum(a: multiset<Stat>, b: multiset<Stat>, s: Stat)
    ensures s in a + b <==> s in a || s in b
  {
  }

  lemma {:induction false} PartMembers(ls: seq<seq<Stat>>, s: Stat)
    ensures s in SumItems(NonZero, ls) <==> TakesPart(ls, s)
  {
    if ls != [] {
      NonZeroMembers(ls[0], s);
      PartMembers(ls[1..], s);
      if TakesPart(ls[1..], s) {
        var i :| 0 <= i < |ls[1..]| && s in ls[1..][i];
        assert s in ls[i + 1];
      }
    }
  }

  /** v is the flat reduction over all entries of all leaves. */
  ghost predicate FlatBest(most: bool, v: Records, ls: seq<seq<Stat>>) {
    && (forall f :: f in v ==> TakesPart(ls, Stat(f, v[f].thread, v[f].value)))
    && (forall s :: TakesPart(ls, s) ==> s.func in v && Within(most, s.value, v[s.func].value))
  }

  /** For every process tree and every arrival order, the records the front end emits are the flat
      maximum (or minimum) over all leaf entries of non-zero value: the recorded thread attains the
      recorded value and no entry beats it. */
  lemma BestAtFrontEnd(most: bool, t: Tree<seq<Stat>>, moves: seq<Move>)
    requires Proper(t)
    ensures var end := Run(Merger(most), Start(NonZero, BestTrace(most), map[], t), moves);
            && |end.sent| <= 1
            && (end.sent != [] ==> FlatBest(most, end.sent[0], Leaves(t)) && AllSentOnce(end))
            && (Stuck(Merger(most), end) ==> end.sent != [])
  {
    hide Respects, FlatBest, Proper, GoodTrace, IsBest, Stuck;
    BestRespects(most);
    forall l | l in Leaves(t) ensures GoodTrace(BestRel(most), NonZero(l), BestTrace(most)(l)) {
      BestTraceGood(most, l);
    }
    FrontEnd(Merger(most), BestRel(most), map[], NonZero, BestTrace(most), t, moves);
    var end := Run(Merger(most), Start(NonZero, BestTrace(most), map[], t), moves);
    if end.sent != [] {
      FlatFromBest(most, end.sent[0], Leaves(t));
    }
  }

  lemma BestTraceGood(most: bool, l: seq<Stat>)
    ensures GoodTrace(BestRel(most), NonZero(l), BestTrace(most)(l))
  {
    LeafBestIsBest(most, l);
  }

  lemma BestRespects(most: bool)
    ensures Respects(Merger(most), BestRel(most), map[])
  {
    forall v: Records, x: multiset<Stat>, w: Records, y: multiset<Stat> | BestRel(most)(v, x) && BestRel(most)(w, y)
      ensures BestRel(most)(Merger(most)(v, w), x + y)
    {
      MergeIsBest(most, v, x, w, y);
    }
  }

  /** The records emitted at every node are the flat extremes over the leaves below it. */
  lemma BestEverywhere(most: bool, t: Tree<seq<Stat>>, moves: seq<Move>, path: seq<nat>)
    requires Proper(t) && PathIn(t, path)
    ensures var node := NetAt(Run(Merger(most), Start(NonZero, BestTrace(most), map[], t), moves), path);
            node.Some? && (node.value.sent != [] ==> FlatBest(most, node.value.sent[0], Leaves(TreeAt(t, path))))
  {
    hide Respects, FlatBest, Proper, GoodTrace, IsBest, PathIn, TreeAt, NetAt;
    BestRespects(most);
    forall l | l in Leaves(t) ensures GoodTrace(BestRel(most), NonZero(l), BestTrace(most)(l)) {
      BestTraceGood(most, l);
    }
    EveryNode(Merger(most), BestRel(most), map[], NonZero, BestTrace(most), t, moves, path);
    var node := NetAt(Run(Merger(most), Start(NonZero, BestTrace(most), map[], t), moves), path);
    if node.value.sent != [] {
      FlatFromBest(most, node.value.sent[0], Leaves(TreeAt(t, path)));
    }
  }

  lemma FlatFromBest(most: bool, v: Records, ls: seq<seq<Stat>>)
    requires IsBest(most, v, SumItems(NonZero, ls))
    ensures FlatBest(most, v, ls)
  {
    forall s ensures s in SumItems(NonZero, ls) <==> TakesPart(ls, s) {
      PartMembers(ls, s);
    }
  }

  // ---------------------------------------------------------------- minimum against maximum

  /** The minima and maxima are exactly those of the entries of non-zero value: both are there for the
      functions with such an entry and for no other, each belongs to the thread that attains it, and
      every entry lies between the two. */
  ghost predicate Between(minima: Records, maxima: Records, ls: seq<seq<Stat>>) {
    && minima.Keys == maxima.Keys
    && (forall f :: f in minima ==>
          && TakesPart(ls, Stat(f, minima[f].thread, minima[f].value))
          && TakesPart(ls, Stat(f, maxima[f].thread, maxima[f].value))
          && minima[f].value <= maxima[f].value)
    && (forall s :: TakesPart(ls, s) ==>
          s.func in minima && minima[s.func].value <= s.value <= maxima[s.func].value)
  }

  lemma BestsAreBetween(minima: Records, maxima: Records, ls: seq<seq<Stat>>)
    requires FlatBest(false, minima, ls) && FlatBest(true, maxima, ls)
    ensures Between(minima, maxima, ls)
  {
    forall f | f in minima || f in maxima
      ensures f in minima && f in maxima && minima[f].value <= maxima[f].value
    {
      assert f in minima ==> TakesPart(ls, Stat(f, minima[f].thread, minima[f].value));
      assert f in maxima ==> TakesPart(ls, Stat(f, maxima[f].thread, maxima[f].value));
    }
  }

  lemma BetweenAtLeaf(stats: seq<Stat>)
    ensures Between(LeafBest(false, stats), LeafBest(true, stats), [stats])
  {
    hide Between, FlatBest, IsBest, LeafBest;
    assert [stats][1..] == [];
    assert SumItems(NonZero, [stats]) == NonZero(stats) + multiset{} == NonZero(stats);
    LeafBestIsBest(false, stats);
    LeafBestIsBest(true, stats);
    FlatFromBest(false, LeafBest(false, stats), [stats]);
    FlatFromBest(true, LeafBest(true, stats), [stats]);
    BestsAreBetween(LeafBest(false, stats), LeafBest(true, stats), [stats]);
  }

  /** At every node of every tree, whatever the two schedules of minima and maxima: once the node has
      emitted both, every entry of the leaves below it lies between them. */
  lemma BetweenEverywhere(t: Tree<seq<Stat>>, minMoves: seq<Move>, maxMoves: seq<Move>, path: seq<nat>)
    requires Proper(t) && PathIn(t, path)
    ensures var least := NetAt(Run(Merger(false), Start(NonZero, BestTrace(false), map[], t), minMoves), path);
            var most := NetAt(Run(Merger(true), Start(NonZero, BestTrace(true), map[], t), maxMoves), path);
            && least.Some? && most.Some?
            && (least.value.sent != [] && most.value.sent != [] ==>
                  Between(least.value.sent[0], most.value.sent[0], Leaves(TreeAt(t, path))))
  {
    hide FlatBest, Between, Proper, PathIn, TreeAt, NetAt;
    BestEverywhere(false, t, minMoves, path);
    BestEverywhere(true, t, maxMoves, path);
    var least := NetAt(Run(Merger(false), Start(NonZero, BestTrace(false), map[], t), minMoves), path);
    var most := NetAt(Run(Merger(true), Start(NonZero, BestTrace(true), map[], t), maxMoves), path);
    if least.value.sent != [] && most.value.sent != [] {
      BestsAreBetween(least.value.sent[0], most.value.sent[0], Leaves(TreeAt(t, path)));
    }
  }

  // ---------------------------------------------------------------- averages

  function WithEntry(v: Averages, f: string, total: Count, threads: Count): Averages {
    if f in v then v[f := Average(Plus(v[f].total, total), Plus(v[f].threads, threads))]
    else v[f := Average(total, threads)]
  }

  /** Totals and thread counts of a leaf's statistics; entries of value 0 count as a thread. */
  function LeafAverages(stats: seq<Stat>): Averages {
    if stats == [] then map[]
    else
      var s := stats[|stats| - 1];
      WithEntry(LeafAverages(stats[..|stats| - 1]), s.func, s.value, 1)
  }

  method ComputeAverages(stats: seq<Stat>) returns (v: Averages)
    ensures v == LeafAverages(stats)
  {
    v := map[];
    for i := 0 to |stats|
      invariant v == LeafAverages(stats[..i])
    {
      var s := stats[i];
      assert stats[..i + 1][..i] == stats[..i];
      if s.func !in v {
        v := v[s.func := Average(s.value, 1)];
      } else {
        v := v[s.func := Average(Plus(v[s.func].total, s.value), Plus(v[s.func].threads, 1))];
      }
    }
    assert stats[..|stats|] == stats;
  }

  function MergeAverages(v: Averages, w: Averages): Averages {
    map f | f in v.Keys + w.Keys ::
      if f !in v then w[f]
      else if f !in w then v[f]
      else Average(Plus(v[f].total, w[f].total), Plus(v[f].threads, w[f].threads))
  }

  /** What an average stands for, as a bag: one Unit of a function per counted unit of value and
      one Thread per thread it was seen in. */
  datatype Part = Unit(func: string) | Thread(func: string)

  ghost function PartsOf(s: Stat): multiset<Part> {
    multiset{Thread(s.func)}[Unit(s.func) := s.value]
  }

  ghost function Parts(stats: seq<Stat>): multiset<Part> {
    if stats == [] then multiset{} else Parts(stats[..|stats| - 1]) + PartsOf(stats[|stats| - 1])
  }

  ghost predicate IsAverage(v: Averages, m: multiset<Part>) {
    forall f: string ::
      if f in v then v[f].total == Wrap(m[Unit(f)]) && v[f].threads == Wrap(m[Thread(f)]) && m[Thread(f)] > 0
      else m[Unit(f)] == 0 && m[Thread(f)] == 0
  }

  lemma MergeIsAverage(v: Averages, x: multiset<Part>, w: Averages, y: multiset<Part>)
    requires IsAverage(v, x) && IsAverage(w, y)
    ensures IsAverage(MergeAverages(v, w), x + y)
  {
    hide Wrap;
    forall f: string
      ensures var m := MergeAverages(v, w);
              if f in m
              then && m[f].total == Wrap((x + y)[Unit(f)]) && m[f].threads == Wrap((x + y)[Thread(f)])
                   && (x + y)[Thread(f)] > 0
              else (x + y)[Unit(f)] == 0 && (x + y)[Thread(f)] == 0
    {
      WrapAdd(x[Unit(f)], y[Unit(f)]);
      WrapAdd(x[Thread(f)], y[Thread(f)]);
    }
  }

  lemma EntryIsAverage(s: Stat)
    ensures IsAverage(map[s.func := Average(s.value, 1)], PartsOf(s))
  {
  }

  lemma WithEntryIsMerge(v: Averages, s: Stat)
    ensures WithEntry(v, s.func, s.value, 1) == MergeAverages(v, map[s.func := Average(s.value, 1)])
  {
    hide Plus;
    var l, r := WithEntry(v, s.func, s.value, 1), MergeAverages(v, map[s.func := Average(s.value, 1)]);
    assert l.Keys == r.Keys;
  }

  lemma {:induction false} LeafAveragesRight(stats: seq<Stat>)
    ensures IsAverage(LeafAverages(stats), Parts(stats))
  {
    if stats != [] {
      var front, s := stats[..|stats| - 1], stats[|stats| - 1];
      LeafAveragesRight(front);
      EntryIsAverage(s);
      WithEntryIsMerge(LeafAverages(front), s);
      MergeIsAverage(LeafAverages(front), Parts(front), map[s.func := Average(s.value, 1)], PartsOf(s));
    }
  }

  ghost function AverageRel(): (Averages, multiset<Part>) -> bool {
    (v, m) => IsAverage(v, m)
  }

  function AverageTrace(stats: seq<Stat>): seq<Option<Averages>> {
    [Some(LeafAverages(stats))]
  }

  /** Flat totals over all leaves, in unbounded arithmetic. */
  ghost function TotalIn(stats: seq<Stat>, f: string): nat {
    if stats == [] then 0
    else
      var s := stats[|stats| - 1];
      TotalIn(stats[..|stats| - 1], f) + if s.func == f then s.value else 0
  }

  ghost function ThreadsIn(stats: seq<Stat>, f: string): nat {
    if stats == [] then 0
    else ThreadsIn(stats[..|stats| - 1], f) + if stats[|stats| - 1].func == f then 1 else 0
  }

  ghost function FlatTotal(ls: seq<seq<Stat>>, f: string): nat {
    if ls == [] then 0 else TotalIn(ls[0], f) + FlatTotal(ls[1..], f)
  }

  ghost function FlatThreads(ls: seq<seq<Stat>>, f: string): nat {
    if ls == [] then 0 else ThreadsIn(ls[0], f) + FlatThreads(ls[1..], f)
  }

  lemma {:induction false} PartsAre(stats: seq<Stat>, f: string)
    ensures Parts(stats)[Unit(f)] == TotalIn(stats, f) && Parts(stats)[Thread(f)] == ThreadsIn(stats, f)
  {
    if stats != [] {
      PartsAre(stats[..|stats| - 1], f);
    }
  }

  lemma {:induction false} FlatParts(ls: seq<seq<Stat>>, f: string)
    ensures SumItems(Parts, ls)[Unit(f)] == FlatTotal(ls, f) && SumItems(Parts, ls)[Thread(f)] == FlatThreads(ls, f)
  {
    if ls != [] {
      PartsAre(ls[0], f);
      FlatParts(ls[1..], f);
    }
  }

  ghost predicate FlatAverages(v: Averages, ls: seq<seq<Stat>>) {
    forall f: string ::
      && (f in v <==> FlatThreads(ls, f) > 0)
      && (f in v ==> v[f] == Average(Wrap(FlatTotal(ls, f)), Wrap(FlatThreads(ls, f))))
  }

  /** For every process tree and every arrival order, the front end's totals and thread counts are
      the flat sums over all leaf entries, modulo 2^64. */
  lemma AveragesAtFrontEnd(t: Tree<seq<Stat>>, moves: seq<Move>)
    requires Proper(t)
    ensures var end := Run(MergeAverages, Start(Parts, AverageTrace, map[], t), moves);
            && |end.sent| <= 1
            && (end.sent != [] ==> FlatAverages(end.sent[0], Leaves(t)) && AllSentOnce(end))
            && (Stuck(MergeAverages, end) ==> end.sent != [])
  {
    hide Respects;
    AveragesRespect();
    forall l | l in Leaves(t) ensures GoodTrace(AverageRel(), Parts(l), AverageTrace(l)) {
      LeafAveragesRight(l);
    }
    FrontEnd(MergeAverages, AverageRel(), map[], Parts, AverageTrace, t, moves);
    var end := Run(MergeAverages, Start(Parts, AverageTrace, map[], t), moves);
    if end.sent != [] {
      FlatFromAverage(end.sent[0], Leaves(t));
    }
  }

  lemma AveragesRespect()
    ensures Respects(MergeAverages, AverageRel(), map[])
  {
    forall v: Averages, x: multiset<Part>, w: Averages, y: multiset<Part> | AverageRel()(v, x) && AverageRel()(w, y)
      ensures AverageRel()(MergeAverages(v, w), x + y)
    {
      MergeIsAverage(v, x, w, y);
    }
  }

  lemma FlatFromAverage(v: Averages, ls: seq<seq<Stat>>)
    requires IsAverage(v, SumItems(Parts, ls))
    ensures FlatAverages(v, ls)
  {
    hide Wrap;
    forall f: string
      ensures SumItems(Parts, ls)[Unit(f)] == FlatTotal(ls, f) && SumItems(Parts, ls)[Thread(f)] == FlatThreads(ls, f)
    {
      FlatParts(ls, f);
    }
  }

  /** The totals and thread counts emitted at every node are the flat sums over the leaves below it. */
  lemma AveragesEverywhere(t: Tree<seq<Stat>>, moves: seq<Move>, path: seq<nat>)
    requires Proper(t) && PathIn(t, path)
    ensures var node := NetAt(Run(MergeAverages, Start(Parts, AverageTrace, map[], t), moves), path);
            node.Some? && (node.value.sent != [] ==> FlatAverages(node.value.sent[0], Leaves(TreeAt(t, path))))
  {
    hide Respects;
    AveragesRespect();
    forall l | l in Leaves(t) ensures GoodTrace(AverageRel(), Parts(l), AverageTrace(l)) {
      LeafAveragesRight(l);
    }
    EveryNode(MergeAverages, AverageRel(), map[], Parts, AverageTrace, t, moves, path);
    var node := NetAt(Run(MergeAverages, Start(Parts, AverageTrace, map[], t), moves), path);
    if node.value.sent != [] {
      FlatFromAverage(node.value.sent[0], Leaves(TreeAt(t, path)));
    }
  }

  // ---------------------------------------------------------------- average against maximum

  lemma TimesSum(b: nat, x: nat, y: nat)
    ensures b * (x + y) == b * x + b * y
  {
  }

  lemma {:induction false} TotalBelow(stats: seq<Stat>, f: string, bound: nat)
    requires forall s :: s in stats && s.func == f ==> s.value <= bound
    ensures TotalIn(stats, f) <= bound * ThreadsIn(stats, f)
  {
    if stats != [] {
      var front := stats[..|stats| - 1];
      assert forall s :: s in front ==> s in stats;
      TotalBelow(front, f, bound);
      var last := stats[|stats| - 1];
      assert last in stats;
      TimesSum(bound, ThreadsIn(front, f), 1);
    }
  }

  lemma {:induction false} FlatTotalBelow(ls: seq<seq<Stat>>, f: string, bound: nat)
    requires forall i, s :: 0 <= i < |ls| && s in ls[i] && s.func == f ==> s.value <= bound
    ensures FlatTotal(ls, f) <= bound * FlatThreads(ls, f)
  {
    if ls != [] {
      TotalBelow(ls[0], f, bound);
      assert forall i :: 0 <= i < |ls[1..]| ==> ls[1..][i] == ls[i + 1];
      FlatTotalBelow(ls[1..], f, bound);
      TimesSum(bound, ThreadsIn(ls[0], f), FlatThreads(ls[1..], f));
    }
  }

  lemma {:induction false} SomethingCounted(ls: seq<seq<Stat>>, f: string) returns (s: Stat)
    requires FlatTotal(ls, f) > 0
    ensures TakesPart(ls, s) && s.func == f
  {
    if TotalIn(ls[0], f) > 0 {
      s := SomethingIn(ls[0], f);
      assert s in ls[0];
    } else {
      s := SomethingCounted(ls[1..], f);
      var i :| 0 <= i < |ls[1..]| && s in ls[1..][i];
      assert s in ls[i + 1];
    }
  }

  lemma {:induction false} SomethingIn(stats: seq<Stat>, f: string) returns (s: Stat)
    requires TotalIn(stats, f) > 0
    ensures s in stats && s.func == f && s.value != 0
  {
    s := stats[|stats| - 1];
    if s.func != f || s.value == 0 {
      s := SomethingIn(stats[..|stats| - 1], f);
    }
  }

  /** Whatever the two schedules were: a function with a non-zero total has a maximum, and its total
      is at most the maximum times the number of threads, as long as that number fits in 64 bits. */
  lemma AverageAtMostMaximum(ls: seq<seq<Stat>>, maxima: Records, averages: Averages, f: string)
    requires FlatBest(true, maxima, ls) && FlatAverages(averages, ls)
    requires f in averages && averages[f].total != 0
    requires FlatThreads(ls, f) < 0x1_0000_0000_0000_0000
    ensures f in maxima && averages[f].total <= maxima[f].value * averages[f].threads
  {
    hide FlatTotal, FlatThreads;
    var s := SomethingCounted(ls, f);
    var bound := maxima[f].value;
    forall i, e | 0 <= i < |ls| && e in ls[i] && e.func == f ensures e.value <= bound {
      if e.value != 0 {
        assert TakesPart(ls, e);
      }
    }
    FlatTotalBelow(ls, f, bound);
  }

  /** At every node of every tree, whatever the two schedules of maxima and averages: once the node
      has emitted both, total <= maximum * threads for each function with a non-zero total. */
  lemma AverageAtMostMaximumEverywhere(t: Tree<seq<Stat>>, maxMoves: seq<Move>, avgMoves: seq<Move>, path: seq<nat>,
                                       f: string)
    requires Proper(t) && PathIn(t, path)
    requires FlatThreads(Leaves(TreeAt(t, path)), f) < 0x1_0000_0000_0000_0000
    ensures var best := NetAt(Run(Merger(true), Start(NonZero, BestTrace(true), map[], t), maxMoves), path);
            var avgs := NetAt(Run(MergeAverages, Start(Parts, AverageTrace, map[], t), avgMoves), path);
            && best.Some? && avgs.Some?
            && (best.value.sent != [] && avgs.value.sent != [] ==>
                  var maxima, averages := best.value.sent[0], avgs.value.sent[0];
                  f in averages && averages[f].total != 0 ==>
                    f in maxima && averages[f].total <= maxima[f].value * averages[f].threads)
  {
    hide FlatBest, FlatAverages, FlatThreads;
    BestEverywhere(true, t, maxMoves, path);
    AveragesEverywhere(t, avgMoves, path);
    var best := NetAt(Run(Merger(true), Start(NonZero, BestTrace(true), map[], t), maxMoves), path);
    var avgs := NetAt(Run(MergeAverages, Start(Parts, AverageTrace, map[], t), avgMoves), path);
    if best.value.sent != [] && avgs.value.sent != [] {
      var maxima, averages := best.value.sent[0], avgs.value.sent[0];
      if f in averages && averages[f].total != 0 {
        AverageAtMostMaximum(Leaves(TreeAt(t, path)), maxima, averages, f);
      }
    }
  }

  // ---------------------------------------------------------------- the reduction handlers

  lemma MergeOneMore(most: bool, v: Records, w: Records, rest: set<string>, f: string)
    requires f in rest && f in w
    ensures Merge(most, v, w - (rest - {f}))
         == if f !in v || Beats(most, w[f].value, v[f].value)
            then Merge(most, v, w - rest)[f := w[f]] else Merge(most, v, w - rest)
    ensures f in Merge(most, v, w - rest) <==> f in v
    ensures f in v ==> Merge(most, v, w - rest)[f] == v[f]
  {
    var l := Merge(most, v, w - (rest - {f}));
    var m := Merge(most, v, w - rest);
    var r := if f !in v || Beats(most, w[f].value, v[f].value) then m[f := w[f]] else m;
    assert l.Keys == r.Keys;
  }

  lemma AverageOneMore(v: Averages, w: Averages, rest: set<string>, f: string)
    requires f in rest && f in w
    ensures MergeAverages(v, w - (rest - {f})) == WithEntry(MergeAverages(v, w - rest), f, w[f].total, w[f].threads)
    ensures f in MergeAverages(v, w - rest) <==> f in v
  {
    hide Plus;
    var l := MergeAverages(v, w - (rest - {f}));
    var r := WithEntry(MergeAverages(v, w - rest), f, w[f].total, w[f].threads);
    assert l.Keys == r.Keys;
  }

  method MergeRecords(most: bool, v0: Records, msg: Records) returns (v: Records)
    ensures v == Merge(most, v0, msg)
  {
    hide Merge;
    v := v0;
    var rest := msg.Keys;
    MergeNothing(most, v0);
    assert msg - rest == map[];
    while rest != {}
      invariant rest <= msg.Keys
      invariant v == Merge(most, v0, msg - rest)
    {
      var f :| f in rest;
      MergeOneMore(most, v0, msg, rest, f);
      if f !in v {
        v := v[f := msg[f]];
      } else if Beats(most, msg[f].value, v[f].value) {
        v := v[f := msg[f]];
      }
      rest := rest - {f};
    }
    assert msg - rest == msg;
  }

  lemma MergeNothing(most: bool, v: Records)
    ensures Merge(most, v, map[]) == v
  {
  }

  lemma MergeNoAverages(v: Averages)
    ensures MergeAverages(v, map[]) == v
  {
  }

  class ResolveSymbols {
    const numChildren: nat
    var maxvals: Records
    var minvals: Records
    var avgvals: Averages
    var maxMsgs: nat
    var minMsgs: nat
    var avgMsgs: nat

    constructor (numChildren: nat)
      ensures this.numChildren == numChildren
      ensures maxvals == map[] && minvals == map[] && avgvals == map[]
      ensures maxMsgs == 0 && minMsgs == 0 && avgMsgs == 0
    {
      this.numChildren := numChildren;
      maxvals, minvals, avgvals, maxMsgs, minMsgs, avgMsgs := map[], map[], map[], 0, 0, 0;
    }

    method MaxHandler(msg: Records) returns (out: Option<Records>)
      modifies this`maxvals, this`maxMsgs
      ensures (maxvals, maxMsgs, out) == Receive(Merger(true), numChildren, old(maxvals), old(maxMsgs), msg)
    {
      maxMsgs := maxMsgs + 1;
      maxvals := MergeRecords(true, maxvals, msg);
      out := if maxMsgs == numChildren then Some(maxvals) else None;
    }

    method MinHandler(msg: Records) returns (out: Option<Records>)
      modifies this`minvals, this`minMsgs
      ensures (minvals, minMsgs, out) == Receive(Merger(false), numChildren, old(minvals), old(minMsgs), msg)
    {
      minMsgs := minMsgs + 1;
      minvals := MergeRecords(false, minvals, msg);
      out := if minMsgs == numChildren then Some(minvals) else None;
    }

    method AvgHandler(msg: Averages) returns (out: Option<Averages>)
      modifies this`avgvals, this`avgMsgs
      ensures (avgvals, avgMsgs, out) == Receive(MergeAverages, numChildren, old(avgvals), old(avgMsgs), msg)
    {
      hide MergeAverages;
      avgMsgs := avgMsgs + 1;
      var rest := msg.Keys;
      MergeNoAverages(avgvals);
      assert msg - rest == map[];
      while rest != {}
        invariant rest <= msg.Keys
        invariant avgvals == MergeAverages(old(avgvals), msg - rest)
        modifies this`avgvals
      {
        var f :| f in rest;
        AverageOneMore(old(avgvals), msg, rest, f);
        if f !in avgvals {
          avgvals := avgvals[f := msg[f]];
        } else {
          avgvals := avgvals[f := Average(Plus(avgvals[f].total, msg[f].total),
                                          Plus(avgvals[f].threads, msg[f].threads))];
        }
        rest := rest - {f};
      }
      assert msg - rest == msg;
      out := if avgMsgs == numChildren then Some(avgvals) else None;
    }
  }
}
