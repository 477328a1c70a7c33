/** Half-closed intervals and time-by-address extents
    (core/include/KrellInstitute/Core/Interval.hpp and Extent.hpp). */
module Extents {

  /** Times and addresses are 64-bit unsigned integers. */
  const WORD: int := 0x1_0000_0000_0000_0000

  type Word = w: int | 0 <= w < 0x1_0000_0000_0000_0000

  /** 64-bit unsigned arithmetic. */
  function Wrap(x: int): Word {
    x % 0x1_0000_0000_0000_0000
  }

  /** [begin, end). The constructor asserts begin < end; the default value and
      intersections may be empty, with begin == end. */
  datatype RawInterval = Interval(begin: Word, end: Word)

  type Interval = i: RawInterval | i.begin <= i.end witness Interval(0, 0)

  datatype Extent = Extent(time: Interval, addr: Interval)

  const NO_EXTENT: Extent := Extent(Interval(0, 0), Interval(0, 0))

  predicate Empty(i: Interval) {
    i.begin == i.end
  }

  predicate IsEmpty(e: Extent) {
    Empty(e.time) || Empty(e.addr)
  }

  predicate InInterval(p: int, i: Interval) {
    i.begin <= p < i.end
  }

  /** Operator &= of Interval. */
  function IntervalAnd(a: Interval, b: Interval): Interval {
    var begin := if a.begin < b.begin then b.begin else a.begin;
    var end := if a.end > b.end then b.end else a.end;
    if end < begin then Interval(end, end) else Interval(begin, end)
  }

  /** Operator |= of Interval: the hull, ignoring an empty operand. */
  function IntervalOr(a: Interval, b: Interval): Interval {
    if Empty(b) then a
    else if Empty(a) then b
    else Interval(if a.begin > b.begin then b.begin else a.begin,
                  if a.end < b.end then b.end else a.end)
  }

  function ExtentOr(a: Extent, b: Extent): Extent {
    Extent(IntervalOr(a.time, b.time), IntervalOr(a.addr, b.addr))
  }

  predicate DoesIntersect(a: Extent, b: Extent) {
    !IsEmpty(Extent(IntervalAnd(a.time, b.time), IntervalAnd(a.addr, b.addr)))
  }

  function Width(i: Interval): nat {
    i.end - i.begin
  }

  /** Some instant and some address lie in both extents. */
  ghost predicate SharePoint(a: Extent, b: Extent) {
    exists t: int, x: int ::
      InInterval(t, a.time) && InInterval(t, b.time) && InInterval(x, a.addr) && InInterval(x, b.addr)
  }

  /** The operator-based test means exactly "there is a common point". */
  lemma IntersectMeansSharedPoint(a: Extent, b: Extent)
    ensures DoesIntersect(a, b) <==> SharePoint(a, b)
  {
    if DoesIntersect(a, b) {
      var t := IntervalAnd(a.time, b.time).begin;
      var x := IntervalAnd(a.addr, b.addr).begin;
      assert InInterval(t, a.time) && InInterval(t, b.time) && InInterval(x, a.addr) && InInterval(x, b.addr);
    }
  }

  // ---------------------------------------------------------------- hulls

  ghost predicate Covers(k: Interval, s: set<Interval>) {
    forall i :: i in s && !Empty(i) ==> k.begin <= i.begin && i.end <= k.end
  }

  ghost predicate Blank(s: set<Interval>) {
    forall i :: i in s ==> Empty(i)
  }

  /** h is the least interval around the non-empty members of s. It depends on
      the set only, not on the order in which |= met the members. */
  ghost predicate HullOf(h: Interval, s: set<Interval>) {
    if Blank(s) then h == Interval(0, 0)
    else Covers(h, s) && forall k: Interval :: Covers(k, s) ==> k.begin <= h.begin && h.end <= k.end
  }

  lemma HullGrows(h: Interval, s: set<Interval>, x: Interval)
    requires HullOf(h, s)
    ensures HullOf(IntervalOr(h, x), s + {x})
  {
    var s' := s + {x};
    var h' := IntervalOr(h, x);
    assert forall i :: i in s ==> i in s';
    assert x in s';
    if !Blank(s) {
      assert !Blank(s');
      assert Covers(h', s');
      forall k: Interval | Covers(k, s') ensures k.begin <= h'.begin && h'.end <= k.end {
        assert Covers(k, s);
      }
    }
  }

  lemma HullUnique(h: Interval, k: Interval, s: set<Interval>)
    requires HullOf(h, s) && HullOf(k, s)
    ensures h == k
  {
  }

  lemma HullExists(s: set<Interval>)
    ensures exists h :: HullOf(h, s)
  {
    if s == {} {
      assert HullOf(Interval(0, 0), s);
    } else {
      var x :| x in s;
      HullExists(s - {x});
      var h :| HullOf(h, s - {x});
      HullGrows(h, s - {x}, x);
      assert s - {x} + {x} == s;
    }
  }

  ghost function Hull(s: set<Interval>): Interval {
    HullExists(s);
    var h :| HullOf(h, s);
    h
  }

  ghost function Times(xs: seq<Extent>, members: set<nat>): set<Interval> {
    set i | i in members && i < |xs| :: xs[i].time
  }

  ghost function Addrs(xs: seq<Extent>, members: set<nat>): set<Interval> {
    set i | i in members && i < |xs| :: xs[i].addr
  }

  /** The bounds of the extents of xs with the given indices, in each dimension. */
  ghost function Bounds(xs: seq<Extent>, members: set<nat>): Extent {
    Extent(Hull(Times(xs, members)), Hull(Addrs(xs, members)))
  }

  lemma BoundsEmpty(xs: seq<Extent>)
    ensures Bounds(xs, {}) == NO_EXTENT
  {
    assert Times(xs, {}) == {} && Addrs(xs, {}) == {};
    assert HullOf(Hull({}), {});
  }

  /** Folding |= over extents, in any order, computes their bounds. */
  lemma BoundsGrow(xs: seq<Extent>, members: set<nat>, k: nat)
    requires k < |xs|
    ensures Bounds(xs, members + {k}) == ExtentOr(Bounds(xs, members), xs[k])
  {
    var times, addrs := Times(xs, members), Addrs(xs, members);
    HullGrows(Hull(times), times, xs[k].time);
    HullGrows(Hull(addrs), addrs, xs[k].addr);
    assert Times(xs, members + {k}) == times + {xs[k].time};
    assert Addrs(xs, members + {k}) == addrs + {xs[k].addr};
    HullUnique(Hull(times + {xs[k].time}), IntervalOr(Hull(times), xs[k].time), times + {xs[k].time});
    HullUnique(Hull(addrs + {xs[k].addr}), IntervalOr(Hull(addrs), xs[k].addr), addrs + {xs[k].addr});
  }

  /** An extent meeting a member meets the bounds. */
  lemma BoundsCatch(q: Extent, xs: seq<Extent>, members: set<nat>, k: nat)
    requires k in members && k < |xs|
    requires DoesIntersect(q, xs[k])
    ensures DoesIntersect(q, Bounds(xs, members))
  {
    var times, addrs := Times(xs, members), Addrs(xs, members);
    assert HullOf(Hull(times), times) && HullOf(Hull(addrs), addrs);
    assert xs[k].time in times && xs[k].addr in addrs;
  }

  /** The bounds of one extent are that extent, unless it is empty. */
  lemma BoundsOfOne(xs: seq<Extent>, k: nat)
    requires k < |xs|
    ensures !IsEmpty(Bounds(xs, {k})) ==> Bounds(xs, {k}) == xs[k]
  {
    BoundsEmpty(xs);
    BoundsGrow(xs, {}, k);
    assert {} + {k} == {k};
  }
}
