/** Memory accounting over a trace of allocation events: the event switch of PerfData::memMetrics
    (core/src/PerfData.cpp). */
module MemMetrics {
  import opened Extents
  import opened Sequences

  datatype Kind = Malloc | Realloc | Calloc | Free | Memalign | PosixMemalign | Unknown

  datatype Event = Event(kind: Kind, ptr: Word, size1: Word, retval: Word)

  datatype Reason = HighwaterSet | StillAllocated

  datatype MemEvent = MemEvent(event: Event, reason: Reason, total: Word)

  /** allocationSizes, currentAllocation, highwater, addrMemEvent, eventsOfInterest. */
  datatype Metrics = Metrics(sizes: map<Word, Word>, current: Word, highwater: Word,
                             active: map<Word, MemEvent>, interest: seq<MemEvent>)

  const NOTHING := Metrics(map[], 0, 0, map[], [])

  /** malloc, and realloc of NULL to a positive size. */
  predicate IsAlloc(e: Event) {
    e.kind == Malloc || (e.kind == Realloc && e.ptr == 0 && e.size1 > 0)
  }

  /** free, and realloc of a pointer to size 0. */
  predicate IsFree(e: Event) {
    e.kind == Free || (e.kind == Realloc && e.ptr != 0 && e.size1 == 0)
  }

  /** Not a realloc that moves or resizes a block. */
  predicate Modelled(e: Event) {
    e.kind == Realloc ==> e.ptr == 0 || e.size1 == 0
  }

  ghost predicate AllModelled(es: seq<Event>) {
    forall i :: 0 <= i < |es| ==> Modelled(es[i])
  }

  function SizeOf(sizes: map<Word, Word>, a: Word): Word {
    if a in sizes then sizes[a] else 0
  }

  // ---------------------------------------------------------------- one event

  function Allocated(m: Metrics, e: Event): Metrics {
    var a, current := e.retval, Wrap(m.current as int + e.size1 as int);
    Metrics(m.sizes[a := Wrap(SizeOf(m.sizes, a) as int + e.size1 as int)],
            current,
            if current > m.highwater then current else m.highwater,
            if a in m.active then m.active else m.active[a := MemEvent(e, StillAllocated, current)],
            if current > m.highwater then m.interest + [MemEvent(e, HighwaterSet, current)] else m.interest)
  }

  function Freed(m: Metrics, e: Event): Metrics {
    var a := e.ptr;
    Metrics(m.sizes[a := 0], Wrap(m.current as int - SizeOf(m.sizes, a) as int), m.highwater, m.active - {a},
            m.interest)
  }

  /** The switch over the kind of event. */
  function Step(m: Metrics, e: Event): Metrics {
    match e.kind
    case Malloc => Allocated(m, e)
    case Realloc =>
      if e.ptr == 0 && e.size1 > 0 then Allocated(m, e)
      else if e.ptr != 0 && e.size1 == 0 then Freed(m, e)
      else m
    case Free => Freed(m, e)
    case _ => m
  }

  /** The same metrics, but for the event that is recorded where the other has e'. */
  ghost predicate SameBut(m: Metrics, e: Event, m': Metrics, e': Event) {
    && m.sizes == m'.sizes && m.current == m'.current && m.highwater == m'.highwater
    && m.active.Keys == m'.active.Keys && |m.interest| == |m'.interest|
    && (forall a :: a in m.active ==> SameRecord(m.active[a], e, m'.active[a], e'))
    && (forall i :: 0 <= i < |m.interest| ==> SameRecord(m.interest[i], e, m'.interest[i], e'))
  }

  ghost predicate SameRecord(x: MemEvent, e: Event, y: MemEvent, e': Event) {
    x == y || (x.event == e && y.event == e' && x.reason == y.reason && x.total == y.total)
  }

  /** realloc(NULL, n) counts like malloc(n) and realloc(p, 0) exactly like free(p); realloc(NULL, 0) and
      the calls the switch does not handle change nothing. */
  lemma OtherKinds(m: Metrics, ptr: Word, size: Word, retval: Word)
    ensures size > 0 ==>
              SameBut(Step(m, Event(Realloc, 0, size, retval)), Event(Realloc, 0, size, retval),
                      Step(m, Event(Malloc, ptr, size, retval)), Event(Malloc, ptr, size, retval))
    ensures ptr != 0 ==> Step(m, Event(Realloc, ptr, 0, retval)) == Step(m, Event(Free, ptr, size, retval))
    ensures Step(m, Event(Realloc, 0, 0, retval)) == m
    ensures forall kind :: kind in {Calloc, Memalign, PosixMemalign, Unknown} ==>
              Step(m, Event(kind, ptr, size, retval)) == m
  {
    hide Wrap;
  }

  /** malloc(n) and free(p) on the account: one adds its bytes to the account and to its address, the
      other takes what its address had. */
  lemma MallocAndFree(m: Metrics, ptr: Word, size: Word, retval: Word)
    ensures var m' := Step(m, Event(Malloc, ptr, size, retval));
            && m'.current == (m.current as int + size as int) % 0x1_0000_0000_0000_0000
            && retval in m'.sizes && retval in m'.active
            && m'.sizes[retval] == (SizeOf(m.sizes, retval) as int + size as int) % 0x1_0000_0000_0000_0000
    ensures var m' := Step(m, Event(Free, ptr, size, retval));
            && m'.current == (m.current as int - SizeOf(m.sizes, ptr) as int) % 0x1_0000_0000_0000_0000
            && ptr in m'.sizes && m'.sizes[ptr] == 0 && ptr !in m'.active
  {
  }

  function Run(m: Metrics, es: seq<Event>): Metrics {
    if es == [] then m else Step(Run(m, es[..|es| - 1]), es[|es| - 1])
  }

  class MetricsRecord {
    var allocationSizes: map<Word, Word>
    var currentAllocation: Word
    var highwater: Word
    var addrMemEvent: map<Word, MemEvent>
    var eventsOfInterest: seq<MemEvent>

    function State(): Metrics
      reads this
    {
      Metrics(allocationSizes, currentAllocation, highwater, addrMemEvent, eventsOfInterest)
    }

    constructor ()
      ensures State() == NOTHING
    {
      allocationSizes, currentAllocation, highwater, addrMemEvent, eventsOfInterest := map[], 0, 0, map[], [];
    }

    /** The loop over the events of one blob. */
    method MemMetrics(events: seq<Event>)
      requires AllModelled(events)
      modifies this
      ensures State() == Run(old(State()), events)
    {
      for i := 0 to |events|
        invariant State() == Run(old(State()), events[..i])
      {
        var e := events[i];
        assert events[..i + 1][..i] == events[..i];
        if e.kind == Malloc {
          Allocate(e);
        } else if e.kind == Realloc {
          if e.ptr == 0 && e.size1 > 0 {
            Allocate(e);
          } else if e.ptr != 0 && e.size1 == 0 {
            Release(e);
          }
        } else if e.kind == Free {
          Release(e);
        }
      }
      assert events[..|events|] == events;
    }

    method Allocate(e: Event)
      modifies this
      ensures State() == Allocated(old(State()), e)
    {
      var size, a := e.size1, e.retval;
      if a !in allocationSizes {
        allocationSizes := allocationSizes[a := size];
      } else {
        allocationSizes := allocationSizes[a := Wrap(allocationSizes[a] as int + size as int)];
      }
      currentAllocation := Wrap(currentAllocation as int + size as int);
      var isInteresting := false;
      if currentAllocation > highwater {
        highwater := currentAllocation;
        isInteresting := true;
      }
      if a !in addrMemEvent {
        addrMemEvent := addrMemEvent[a := MemEvent(e, StillAllocated, currentAllocation)];
      }
      if isInteresting {
        eventsOfInterest := eventsOfInterest + [MemEvent(e, HighwaterSet, highwater)];
      }
    }

    method Release(e: Event)
      modifies this
      ensures State() == Freed(old(State()), e)
    {
      var tmp: Word, a := 0, e.ptr;
      if a in allocationSizes {
        tmp := allocationSizes[a];
      }
      allocationSizes := allocationSizes[a := 0];
      currentAllocation := Wrap(currentAllocation as int - tmp as int);
      if a in addrMemEvent {
        addrMemEvent := addrMemEvent - {a};
      }
    }
  }

  /** However the events are cut into blobs, the metrics are the same. */
  lemma {:induction false} RunConcat(m: Metrics, xs: seq<Event>, ys: seq<Event>)
    ensures Run(Run(m, xs), ys) == Run(m, xs + ys)
  {
    if ys == [] {
      assert xs + ys == xs;
    } else {
      var front := ys[..|ys| - 1];
      assert (xs + ys)[..|xs + ys| - 1] == xs + front;
      RunConcat(m, xs, front);
    }
  }

  function RunBlobs(m: Metrics, blobs: seq<seq<Event>>): Metrics {
    if blobs == [] then m else Run(RunBlobs(m, blobs[..|blobs| - 1]), blobs[|blobs| - 1])
  }

  lemma {:induction false} BlobsDoNotMatter(m: Metrics, blobs: seq<seq<Event>>)
    ensures RunBlobs(m, blobs) == Run(m, Flatten(blobs))
  {
    hide Run, Flatten;
    if blobs == [] {
      NoEvents(m);
    } else {
      var front := blobs[..|blobs| - 1];
      BlobsDoNotMatter(m, front);
      RunConcat(m, Flatten(front), blobs[|blobs| - 1]);
      FlattenSnoc(front, blobs[|blobs| - 1]);
      assert blobs == front + [blobs[|blobs| - 1]];
    }
  }

  lemma NoEvents(m: Metrics)
    ensures Run(m, Flatten([])) == m
  {
  }

  // ---------------------------------------------------------------- accounting

  /** The bytes outstanding at each address, without any machine word: what was allocated there
      since it was last freed. */
  function Outstanding(es: seq<Event>): map<Word, nat> {
    if es == [] then map[]
    else
      var front, e := Outstanding(es[..|es| - 1]), es[|es| - 1];
      if e.kind == Malloc || (e.kind == Realloc && e.ptr == 0 && e.size1 > 0)
      then front[e.retval := (if e.retval in front then front[e.retval] else 0) + e.size1]
      else if e.kind == Free || (e.kind == Realloc && e.ptr != 0 && e.size1 == 0)
      then front[e.ptr := 0]
      else front
  }

  ghost function Sum(m: map<Word, nat>): nat
    decreases |m|
  {
    if m == map[] then 0 else var k :| k in m; m[k] + Sum(m - {k})
  }

  lemma {:induction false} SumRemove(m: map<Word, nat>, k: Word)
    requires k in m
    ensures Sum(m) == m[k] + Sum(m - {k})
    decreases |m|
  {
    var j :| j in m && Sum(m) == m[j] + Sum(m - {j});
    if j != k {
      SumRemove(m - {j}, k);
      SumRemove(m - {k}, j);
      assert m - {j} - {k} == m - {k} - {j};
    }
  }

  lemma SumUpdate(m: map<Word, nat>, k: Word, v: nat)
    ensures Sum(m[k := v]) == Sum(m) - (if k in m then m[k] else 0) + v
  {
    SumRemove(m[k := v], k);
    assert m[k := v] - {k} == m - {k};
    if k in m {
      SumRemove(m, k);
    } else {
      assert m - {k} == m;
    }
  }

  lemma Congruent(x: int, y: int, d: int)
    requires x == Wrap(y)
    ensures Wrap(x + d) == Wrap(y + d)
  {
  }

  ghost predicate Accounts(m: Metrics, bytes: map<Word, nat>) {
    && m.current == Wrap(Sum(bytes))
    && m.sizes.Keys == bytes.Keys
    && forall a :: a in bytes ==> m.sizes[a] == Wrap(bytes[a])
  }

  lemma AccountsAlloc(m: Metrics, bytes: map<Word, nat>, e: Event)
    requires Accounts(m, bytes)
    ensures Accounts(Allocated(m, e), bytes[e.retval := (if e.retval in bytes then bytes[e.retval] else 0) + e.size1])
  {
    hide Sum, Wrap;
    var a := e.retval;
    var before := if a in bytes then bytes[a] else 0;
    SumUpdate(bytes, a, before + e.size1);
    WrapZero();
    Congruent(m.current, Sum(bytes), e.size1);
    Congruent(SizeOf(m.sizes, a), before, e.size1);
  }

  lemma AccountsFree(m: Metrics, bytes: map<Word, nat>, e: Event)
    requires Accounts(m, bytes)
    ensures Accounts(Freed(m, e), bytes[e.ptr := 0])
  {
    hide Sum, Wrap;
    var a := e.ptr;
    var before := if a in bytes then bytes[a] else 0;
    SumUpdate(bytes, a, 0);
    WrapZero();
    Difference(m.current, Sum(bytes), SizeOf(m.sizes, a), before);
  }

  lemma Difference(x: int, y: int, u: int, v: int)
    requires x == Wrap(y) && u == Wrap(v)
    ensures Wrap(x - u) == Wrap(y - v)
  {
  }

  lemma WrapZero()
    ensures Wrap(0) == 0
  {
  }

  /** currentAllocation and allocationSizes are the bytes outstanding, modulo the machine word. */
  lemma {:induction false} Accounting(es: seq<Event>)
    ensures Accounts(Run(NOTHING, es), Outstanding(es))
  {
    hide Accounts, Sum, Allocated, Freed;
    if es == [] {
      NothingAccounts();
    } else {
      var front, e := es[..|es| - 1], es[|es| - 1];
      Accounting(front);
      if IsAlloc(e) {
        AccountsAlloc(Run(NOTHING, front), Outstanding(front), e);
      } else if IsFree(e) {
        AccountsFree(Run(NOTHING, front), Outstanding(front), e);
      }
    }
  }

  lemma NothingAccounts()
    ensures Accounts(NOTHING, map[])
  {
  }

  lemma SumAtLeast(m: map<Word, nat>, k: Word)
    requires k in m
    ensures m[k] <= Sum(m)
  {
    SumRemove(m, k);
  }

  lemma Subtract(m: map<Word, nat>, k: Word)
    requires k in m
    ensures Sum(m - {k}) == Sum(m) - m[k]
  {
    SumRemove(m, k);
  }

  /** Wrapping each term does not change the sum modulo the word. */
  lemma {:induction false} SumCongruent(small: map<Word, nat>, big: map<Word, nat>)
    requires small.Keys == big.Keys && forall a :: a in big ==> small[a] == Wrap(big[a])
    ensures Wrap(Sum(small)) == Wrap(Sum(big))
    decreases |small|
  {
    hide Sum, Wrap;
    if small == map[] {
      assert big == map[] by { assert big.Keys == {}; }
    } else {
      var k :| k in small;
      assert k in big;
      SumCongruent(small - {k}, big - {k});
      Subtract(small, k);
      Subtract(big, k);
      SumOfTwo(small[k], Sum(small - {k}), big[k], Sum(big - {k}));
    }
  }

  lemma SumOfTwo(x: int, u: int, y: int, v: int)
    requires x == Wrap(y) && Wrap(u) == Wrap(v)
    ensures Wrap(x + u) == Wrap(y + v)
  {
  }

  /** currentAllocation is the bytes outstanding exactly when they fit in it, and the sum of
      allocationSizes exactly when that sum does. The first implies the second. */
  lemma ExactIff(es: seq<Event>)
    ensures var m, bytes := Run(NOTHING, es), Outstanding(es);
            && (m.current == Sum(bytes) <==> Sum(bytes) < WORD)
            && (m.current == Sum(m.sizes) <==> Sum(m.sizes) < WORD)
            && (Sum(bytes) < WORD ==> m.sizes == bytes)
  {
    hide Run, Outstanding, Sum;
    var m, bytes := Run(NOTHING, es), Outstanding(es);
    Accounting(es);
    SumCongruent(m.sizes, bytes);
    if Sum(bytes) < WORD {
      forall a | a in bytes
        ensures m.sizes[a] == bytes[a]
      {
        SumAtLeast(bytes, a);
      }
      assert m.sizes == bytes;
    }
  }

  /** Two blocks of half the counter at one address: 2^64 bytes are outstanding, yet the account and
      the sizes agree, both being 0. */
  lemma SumsAgreeWithoutRoom()
    ensures var es := [Event(Malloc, 0, HALF, 1), Event(Malloc, 0, HALF, 1)];
            && Sum(Outstanding(es)) == WORD
            && Run(NOTHING, es).current == 0 == Sum(Run(NOTHING, es).sizes)
  {
    hide Sum, Run;
    var e := Event(Malloc, 0, HALF, 1);
    var es := [e, e];
    assert es[..1] == [e] && [e][..0] == [];
    assert Outstanding([e]) == map[1 := HALF] && Outstanding(es) == map[1 := WORD];
    SumOfOne(1, WORD);
    Accounting(es);
    var m := Run(NOTHING, es);
    assert m.sizes == map[1 := 0];
    SumOfOne(1, 0);
  }

  lemma SumOfOne(a: Word, n: nat)
    ensures Sum(map[a := n]) == n
  {
    SumRemove(map[a := n], a);
    assert map[a := n] - {a} == map[];
  }

  /** The free e takes no more than the account holds. */
  predicate Covered(m: Metrics, e: Event) {
    SizeOf(m.sizes, e.ptr) <= m.current
  }

  ghost predicate AllCovered(es: seq<Event>) {
    forall k: nat :: k < |es| && IsFree(es[k]) ==> Covered(Run(NOTHING, es[..k]), es[k])
  }

  /** Event k does not lift the account. */
  ghost predicate NotLifted(es: seq<Event>, k: nat)
    requires k < |es|
  {
    Level(es, k + 1) <= Level(es, k)
  }

  /** No free of a run lifts the account, exactly when each is covered by it. */
  lemma NoUnderflowIff(es: seq<Event>)
    ensures (forall k: nat :: k < |es| && IsFree(es[k]) ==> NotLifted(es, k)) <==> AllCovered(es)
  {
    hide Run;
    forall k: nat | k < |es| && IsFree(es[k])
      ensures NotLifted(es, k) <==> Covered(Run(NOTHING, es[..k]), es[k])
    {
      LevelAfterFree(es, k);
    }
  }

  /** While the outstanding bytes fit in the counter every free is covered. */
  lemma NoUnderflow(es: seq<Event>, a: Word)
    requires Sum(Outstanding(es)) < WORD
    ensures SizeOf(Run(NOTHING, es).sizes, a) <= Run(NOTHING, es).current
  {
    hide Run, Outstanding, Sum;
    ExactIff(es);
    if a in Outstanding(es) {
      SumAtLeast(Outstanding(es), a);
    }
  }

  // ---------------------------------------------------------------- active allocations

  predicate AllocAt(e: Event, a: Word) {
    e.retval == a && (e.kind == Malloc || (e.kind == Realloc && e.ptr == 0 && e.size1 > 0))
  }

  predicate FreeAt(e: Event, a: Word) {
    e.ptr == a && (e.kind == Free || (e.kind == Realloc && e.ptr != 0 && e.size1 == 0))
  }

  /** Event i allocates a, and no later event frees it. */
  ghost predicate HeldFrom(es: seq<Event>, a: Word, i: nat) {
    i < |es| && AllocAt(es[i], a) && forall j :: i < j < |es| ==> !FreeAt(es[j], a)
  }

  /** a was allocated with no later free. */
  ghost predicate Live(es: seq<Event>, a: Word) {
    exists i: nat :: HeldFrom(es, a, i)
  }

  lemma LiveSnoc(es: seq<Event>, e: Event, a: Word)
    ensures Live(es + [e], a) <==> AllocAt(e, a) || (Live(es, a) && !FreeAt(e, a))
  {
    var es' := es + [e];
    if Live(es', a) {
      var i: nat :| HeldFrom(es', a, i);
      if i < |es| {
        assert es'[|es|] == e;
        assert forall j :: i < j < |es| ==> es'[j] == es[j];
        assert HeldFrom(es, a, i);
      }
    }
    if AllocAt(e, a) {
      assert HeldFrom(es', a, |es|);
    } else if Live(es, a) && !FreeAt(e, a) {
      var i: nat :| HeldFrom(es, a, i);
      assert HeldFrom(es', a, i);
    }
  }

  /** The entry for a: the first allocation of a since it was last freed, with the account then. */
  ghost predicate Entry(es: seq<Event>, a: Word, m: MemEvent) {
    exists i: nat :: HeldFrom(es, a, i) && !Live(es[..i], a)
                     && m == MemEvent(es[i], StillAllocated, Run(NOTHING, es[..i + 1]).current)
  }

  lemma EntryKept(es: seq<Event>, e: Event, a: Word, m: MemEvent)
    requires Entry(es, a, m) && !FreeAt(e, a)
    ensures Entry(es + [e], a, m)
  {
    hide Run, Live;
    var i: nat :| HeldFrom(es, a, i) && !Live(es[..i], a)
                  && m == MemEvent(es[i], StillAllocated, Run(NOTHING, es[..i + 1]).current);
    assert HeldFrom(es + [e], a, i);
    assert (es + [e])[..i] == es[..i] && (es + [e])[..i + 1] == es[..i + 1];
  }

  lemma EntryMade(es: seq<Event>, e: Event)
    requires IsAlloc(e) && !Live(es, e.retval)
    ensures Entry(es + [e], e.retval, MemEvent(e, StillAllocated, Step(Run(NOTHING, es), e).current))
  {
    hide Live;
    var es' := es + [e];
    assert HeldFrom(es', e.retval, |es|);
    assert es'[..|es|] == es && es'[..|es| + 1] == es';
  }

  /** addrMemEvent holds exactly the addresses allocated with no later free, each with the event
      that allocated it; any address with a non-zero size is among them. */
  ghost predicate LeakSet(es: seq<Event>, m: Metrics) {
    && (forall a: Word :: a in m.active <==> Live(es, a))
    && (forall a: Word :: a in m.active ==> Entry(es, a, m.active[a]))
    && (forall a: Word :: a in m.sizes && m.sizes[a] > 0 ==> a in m.active)
  }

  lemma LeakSetStep(es: seq<Event>, e: Event)
    requires LeakSet(es, Run(NOTHING, es))
    ensures LeakSet(es + [e], Step(Run(NOTHING, es), e))
  {
    hide Run, Live, Entry, Wrap;
    var m := Run(NOTHING, es);
    var m' := Step(m, e);
    forall a: Word
      ensures a in m'.active <==> Live(es + [e], a)
      ensures a in m'.active ==> Entry(es + [e], a, m'.active[a])
      ensures a in m'.sizes && m'.sizes[a] > 0 ==> a in m'.active
    {
      LiveSnoc(es, e, a);
      if a in m.active && !FreeAt(e, a) {
        EntryKept(es, e, a, m.active[a]);
      } else if AllocAt(e, a) {
        EntryMade(es, e);
      }
    }
  }

  lemma {:induction false} ActiveAreUnfreed(es: seq<Event>)
    ensures LeakSet(es, Run(NOTHING, es))
  {
    hide LeakSet, Step;
    if es == [] {
      NoLeaks();
    } else {
      var front, e := es[..|es| - 1], es[|es| - 1];
      ActiveAreUnfreed(front);
      LeakSetStep(front, e);
      assert es == front + [e];
    }
  }

  lemma NoLeaks()
    ensures LeakSet([], NOTHING)
  {
    hide Entry;
  }

  // ---------------------------------------------------------------- high water

  /** currentAllocation after k events. */
  ghost function Level(es: seq<Event>, k: nat): Word
    requires k <= |es|
  {
    Run(NOTHING, es[..k]).current
  }

  ghost predicate AfterAlloc(es: seq<Event>, k: nat) {
    0 < k <= |es| && AllocAt(es[k - 1], es[k - 1].retval)
  }

  /** Event k is an allocation that lifts the account above 0 and above every earlier allocation. */
  ghost predicate IsRecord(es: seq<Event>, k: nat) {
    && AfterAlloc(es, k + 1)
    && Level(es, k + 1) > 0
    && forall j: nat :: j <= k && AfterAlloc(es, j) ==> Level(es, j) < Level(es, k + 1)
  }

  ghost function Records(es: seq<Event>): seq<MemEvent> {
    if es == [] then []
    else
      var k := |es| - 1;
      Records(es[..k]) + if IsRecord(es, k) then [MemEvent(es[k], HighwaterSet, Level(es, k + 1))] else []
  }

  /** The highest level reached by an allocation, 0 before the first. */
  ghost predicate Peak(es: seq<Event>, h: Word) {
    && (forall j: nat :: AfterAlloc(es, j) ==> Level(es, j) <= h)
    && (h == 0 || exists j: nat :: AfterAlloc(es, j) && Level(es, j) == h)
  }

  ghost predicate Rising(s: seq<MemEvent>, h: Word) {
    && (forall i, j :: 0 <= i < j < |s| ==> s[i].total < s[j].total)
    && (if s == [] then h == 0 else s[|s| - 1].total == h)
  }

  ghost predicate Highwater(es: seq<Event>, m: Metrics) {
    Peak(es, m.highwater) && m.interest == Records(es) && Rising(m.interest, m.highwater)
  }

  lemma LevelKept(es: seq<Event>, e: Event, j: nat)
    requires j <= |es|
    ensures Level(es + [e], j) == Level(es, j) && (AfterAlloc(es + [e], j) <==> AfterAlloc(es, j))
  {
    assert (es + [e])[..j] == es[..j];
  }

  lemma LevelNow(es: seq<Event>)
    ensures Level(es, |es|) == Run(NOTHING, es).current
  {
    assert es[..|es|] == es;
  }

  /** A level beats the peak exactly when it beats every earlier allocation. */
  lemma RecordIff(es: seq<Event>, e: Event, h: Word)
    requires Peak(es, h)
    ensures IsRecord(es + [e], |es|) <==> IsAlloc(e) && Level(es + [e], |es| + 1) > h
  {
    hide Level;
    var es' := es + [e];
    forall j: nat | j <= |es|
      ensures Level(es', j) == Level(es, j) && (AfterAlloc(es', j) <==> AfterAlloc(es, j))
    {
      LevelKept(es, e, j);
    }
    assert AfterAlloc(es', |es| + 1) <==> IsAlloc(e);
  }

  lemma PeakStep(es: seq<Event>, e: Event, h: Word)
    requires Peak(es, h)
    ensures var now := Level(es + [e], |es| + 1); Peak(es + [e], if IsAlloc(e) && now > h then now else h)
  {
    hide Level;
    var es' := es + [e];
    forall j: nat | j <= |es|
      ensures Level(es', j) == Level(es, j) && (AfterAlloc(es', j) <==> AfterAlloc(es, j))
    {
      LevelKept(es, e, j);
    }
    assert AfterAlloc(es', |es| + 1) <==> IsAlloc(e);
  }

  lemma HighwaterStep(es: seq<Event>, e: Event)
    requires Highwater(es, Run(NOTHING, es))
    ensures Highwater(es + [e], Step(Run(NOTHING, es), e))
  {
    hide Peak, IsRecord, Step, Level, Rising, Run, Records;
    var m, es' := Run(NOTHING, es), es + [e];
    LevelNow(es');
    RunOne(es, e);
    RecordsSnoc(es, e);
    StepRecords(m, e);
    RecordIff(es, e, m.highwater);
    PeakStep(es, e, m.highwater);
    var now := Level(es', |es| + 1);
    if IsAlloc(e) && now > m.highwater {
      RisingSnoc(m.interest, m.highwater, MemEvent(e, HighwaterSet, now));
    }
  }

  lemma RecordsSnoc(es: seq<Event>, e: Event)
    ensures var es', n := es + [e], |es|;
            Records(es')
            == Records(es) + if IsRecord(es', n) then [MemEvent(e, HighwaterSet, Level(es', n + 1))] else []
  {
    hide IsRecord, Level;
    assert (es + [e])[..|es|] == es;
  }

  lemma StepRecords(m: Metrics, e: Event)
    ensures var m' := Step(m, e);
            if IsAlloc(e) && m'.current > m.highwater
            then m'.highwater == m'.current && m'.interest == m.interest + [MemEvent(e, HighwaterSet, m'.current)]
            else m'.highwater == m.highwater && m'.interest == m.interest
  {
    hide Wrap;
  }

  lemma RisingSnoc(s: seq<MemEvent>, h: Word, x: MemEvent)
    requires Rising(s, h) && h < x.total
    ensures Rising(s + [x], x.total)
  {
    assert forall i :: 0 <= i < |s| ==> s[i].total <= s[|s| - 1].total;
  }

  /** highwater is the highest level an allocation reached, eventsOfInterest the allocations that
      set a new record, in order, each with the level it set. */
  lemma {:induction false} HighwaterIsPeak(es: seq<Event>)
    ensures Highwater(es, Run(NOTHING, es))
  {
    hide Highwater, Step;
    if es == [] {
      NoPeak();
    } else {
      var front, e := es[..|es| - 1], es[|es| - 1];
      HighwaterIsPeak(front);
      HighwaterStep(front, e);
      assert es == front + [e];
    }
  }

  lemma NoPeak()
    ensures Highwater([], NOTHING)
  {
  }

  /** The free e leaves the account at or below the mark: it is covered, or the account wraps
      around to no more than the mark. */
  predicate StaysBelow(m: Metrics, e: Event) {
    Covered(m, e) || m.current as int - SizeOf(m.sizes, e.ptr) as int + WORD <= m.highwater as int
  }

  ghost predicate FreesStayBelow(es: seq<Event>) {
    forall k: nat :: k < |es| && IsFree(es[k]) ==> StaysBelow(Run(NOTHING, es[..k]), es[k])
  }

  lemma LevelAfterFree(es: seq<Event>, k: nat)
    requires k < |es| && IsFree(es[k])
    ensures var m := Run(NOTHING, es[..k]);
            var left := m.current as int - SizeOf(m.sizes, es[k].ptr) as int;
            Level(es, k) == m.current && Level(es, k + 1) == (if left < 0 then left + WORD else left)
            && Run(NOTHING, es[..k + 1]).highwater == m.highwater
  {
    hide Run, Step;
    assert es[..k + 1] == es[..k] + [es[k]];
    RunOne(es[..k], es[k]);
    FreeFacts(Run(NOTHING, es[..k]), es[k]);
  }

  /** highwater is the highest level so far, after a free or not. */
  ghost predicate IsMaximum(es: seq<Event>) {
    && (forall k: nat :: k <= |es| ==> Level(es, k) <= Run(NOTHING, es).highwater)
    && exists k: nat :: k <= |es| && Level(es, k) == Run(NOTHING, es).highwater
  }

  ghost predicate IsMaximumThroughout(es: seq<Event>) {
    forall n: nat :: n <= |es| ==> IsMaximum(es[..n])
  }

  lemma {:induction false} CurrentBelowHighwater(es: seq<Event>)
    requires FreesStayBelow(es)
    ensures Run(NOTHING, es).current <= Run(NOTHING, es).highwater
  {
    hide Step, StaysBelow;
    if es != [] {
      var n := |es| - 1;
      var front, e := es[..n], es[n];
      assert forall k: nat :: k <= n ==> front[..k] == es[..k];
      CurrentBelowHighwater(front);
      CurrentStep(Run(NOTHING, front), e);
    }
  }

  lemma CurrentStep(m: Metrics, e: Event)
    requires m.current <= m.highwater && (IsFree(e) ==> StaysBelow(m, e))
    ensures Step(m, e).current <= Step(m, e).highwater
  {
  }

  lemma {:induction false} HighwaterRises(es: seq<Event>, k: nat)
    requires k <= |es|
    ensures Run(NOTHING, es[..k]).highwater <= Run(NOTHING, es).highwater
  {
    hide Wrap;
    if k < |es| {
      HighwaterRises(es[..|es| - 1], k);
      assert es[..|es| - 1][..k] == es[..k];
    } else {
      assert es[..k] == es;
    }
  }

  lemma MaximumSoFar(es: seq<Event>)
    requires FreesStayBelow(es)
    ensures IsMaximum(es)
  {
    hide FreesStayBelow, Run;
    forall k: nat | k <= |es|
      ensures Level(es, k) <= Run(NOTHING, es).highwater
    {
      StayBelowPrefix(es, k);
      CurrentBelowHighwater(es[..k]);
      HighwaterRises(es, k);
    }
    HighwaterIsPeak(es);
    if Run(NOTHING, es).highwater == 0 {
      assert Level(es, 0) <= 0;
    }
  }

  lemma StayBelowPrefix(es: seq<Event>, k: nat)
    requires FreesStayBelow(es) && k <= |es|
    ensures FreesStayBelow(es[..k])
  {
    hide StaysBelow, Run;
    assert forall i: nat :: i <= k ==> es[..k][..i] == es[..i];
  }

  lemma MaximumMeansBelow(es: seq<Event>, k: nat)
    requires k < |es| && IsFree(es[k]) && IsMaximum(es[..k + 1])
    ensures StaysBelow(Run(NOTHING, es[..k]), es[k])
  {
    hide Run;
    var now := es[..k + 1];
    LevelAfterFree(es, k);
    assert now[..k + 1] == now;
    assert Level(now, k + 1) <= Run(NOTHING, now).highwater;
  }

  /** highwater is the maximum of the account over all prefixes, at every moment of a run, exactly
      when every free leaves the account at or below the mark. */
  lemma HighwaterOfAllIff(es: seq<Event>)
    ensures IsMaximumThroughout(es) <==> FreesStayBelow(es)
  {
    hide IsMaximum, StaysBelow, Run;
    if IsMaximumThroughout(es) {
      forall k: nat | k < |es| && IsFree(es[k])
        ensures StaysBelow(Run(NOTHING, es[..k]), es[k])
      {
        MaximumMeansBelow(es, k);
      }
    }
    if FreesStayBelow(es) {
      forall n: nat | n <= |es|
        ensures IsMaximum(es[..n])
      {
        StayBelowPrefix(es, n);
        MaximumSoFar(es[..n]);
      }
    }
  }

  /** The outstanding bytes fit in the counter all along. */
  ghost predicate Fits(es: seq<Event>) {
    forall k: nat :: k <= |es| ==> Sum(Outstanding(es[..k])) < WORD
  }

  /** Then highwater is that maximum. */
  lemma HighwaterOfAll(es: seq<Event>)
    requires Fits(es)
    ensures AllCovered(es) && IsMaximumThroughout(es)
  {
    hide Run, Sum, Outstanding, IsMaximumThroughout;
    forall k: nat | k < |es| && IsFree(es[k])
      ensures Covered(Run(NOTHING, es[..k]), es[k])
    {
      NoUnderflow(es[..k], es[k].ptr);
    }
    HighwaterOfAllIff(es);
  }

  // ---------------------------------------------------------------- when the counter is too small

  const HALF: Word := 0x8000_0000_0000_0000

  /** Three allocations of about half the counter each, then the first is freed. */
  const TOO_MUCH: seq<Event> :=
    [Event(Malloc, 0, HALF, 1), Event(Malloc, 0, HALF, 2), Event(Malloc, 0, HALF - 1, 3), Event(Free, 1, 0, 0)]

  /** The account then ends above its own high-water mark. */
  lemma HighwaterNeedsRoom()
    ensures Run(NOTHING, TOO_MUCH).current > Run(NOTHING, TOO_MUCH).highwater
  {
    hide Run, Step;
    var es := TOO_MUCH;
    assert [] + [es[0]] == es[..1] && es[..1] + [es[1]] == es[..2];
    assert es[..2] + [es[2]] == es[..3] && es[..3] + [es[3]] == es;
    RunOne([], es[0]);
    RunOne(es[..1], es[1]);
    RunOne(es[..2], es[2]);
    RunOne(es[..3], es[3]);
    var m1, m2, m3 := Run(NOTHING, es[..1]), Run(NOTHING, es[..2]), Run(NOTHING, es[..3]);
    AllocFacts(NOTHING, es[0]);
    AllocFacts(m1, es[1]);
    AllocFacts(m2, es[2]);
    FreeFacts(m3, es[3]);
  }

  lemma AllocFacts(m: Metrics, e: Event)
    requires IsAlloc(e)
    ensures var m', sum := Step(m, e), m.current as int + e.size1 as int;
            && m'.current == (if sum < WORD then sum else sum - WORD)
            && m'.highwater == (if m'.current > m.highwater then m'.current else m.highwater)
            && (SizeOf(m.sizes, e.retval) == 0 ==> SizeOf(m'.sizes, e.retval) == e.size1)
            && forall a: Word :: a != e.retval ==> SizeOf(m'.sizes, a) == SizeOf(m.sizes, a)
  {
  }

  lemma FreeFacts(m: Metrics, e: Event)
    requires IsFree(e)
    ensures var m', rest := Step(m, e), m.current as int - SizeOf(m.sizes, e.ptr) as int;
            m'.current == (if rest < 0 then rest + WORD else rest) && m'.highwater == m.highwater
  {
  }

  lemma RunOne(es: seq<Event>, e: Event)
    ensures Run(NOTHING, es + [e]) == Step(Run(NOTHING, es), e)
    ensures Run(NOTHING, []) == NOTHING
  {
    assert (es + [e])[..|es|] == es;
  }
}
