/** How far one split separates its extents. The comment on buildChildren says the two
    halves lie on the two sides of a plane; nth_element is called with the window's last
    position excluded, so the last extent stays in the right half wherever it lies. */
module KdSplit {
  import opened Extents
  import opened KdTree
  import opened ExtentGroups
  import opened Sequences

  /** Left half at or below right half, in the chosen dimension, for window first..last. */
  ghost predicate Separated(xs: seq<Extent>, order: seq<nat>, first: nat, nth: nat, last: nat, byTime: bool)
    requires last < |order| && forall k :: 0 <= k < |order| ==> order[k] < |xs|
  {
    forall a, b :: first <= a <= nth < b <= last ==> Key(xs[order[a]], byTime) <= Key(xs[order[b]], byTime)
  }

  /** How many of the listed extents have a centre at or below the bound. */
  function CountBelow(xs: seq<Extent>, s: seq<nat>, bound: nat, byTime: bool): nat
    requires forall k :: 0 <= k < |s| ==> s[k] < |xs|
  {
    if s == [] then 0
    else (if Key(xs[s[0]], byTime) <= bound then 1 else 0) + CountBelow(xs, s[1..], bound, byTime)
  }

  lemma {:induction false} CountConcat(xs: seq<Extent>, s: seq<nat>, t: seq<nat>, bound: nat, byTime: bool)
    requires forall k :: 0 <= k < |s| ==> s[k] < |xs|
    requires forall k :: 0 <= k < |t| ==> t[k] < |xs|
    ensures CountBelow(xs, s + t, bound, byTime) == CountBelow(xs, s, bound, byTime) + CountBelow(xs, t, bound, byTime)
  {
    if s == [] {
      assert s + t == t;
    } else {
      assert (s + t)[1..] == s[1..] + t;
      CountConcat(xs, s[1..], t, bound, byTime);
    }
  }

  lemma CountWithout(xs: seq<Extent>, s: seq<nat>, j: nat, bound: nat, byTime: bool)
    requires j < |s| && forall k :: 0 <= k < |s| ==> s[k] < |xs|
    ensures forall k :: 0 <= k < |s| - 1 ==> Without(s, j)[k] < |xs|
    ensures CountBelow(xs, s, bound, byTime)
         == CountBelow(xs, Without(s, j), bound, byTime) + if Key(xs[s[j]], byTime) <= bound then 1 else 0
  {
    var rest := s[j + 1..];
    CountConcat(xs, s[..j], rest, bound, byTime);
    CountConcat(xs, s[..j], [s[j]] + rest, bound, byTime);
    assert s == s[..j] + ([s[j]] + rest);
    assert ([s[j]] + rest)[1..] == rest;
  }

  lemma {:induction false} CountPermuted(xs: seq<Extent>, s: seq<nat>, t: seq<nat>, bound: nat, byTime: bool)
    requires multiset(s) == multiset(t)
    requires forall k :: 0 <= k < |s| ==> s[k] < |xs|
    requires forall k :: 0 <= k < |t| ==> t[k] < |xs|
    ensures CountBelow(xs, s, bound, byTime) == CountBelow(xs, t, bound, byTime)
  {
    if s == [] {
      assert |multiset(t)| == |t|;
    } else {
      var j := PermutationHead(s, t);
      CountWithout(xs, t, j, bound, byTime);
      CountPermuted(xs, s[1..], Without(t, j), bound, byTime);
    }
  }

  lemma {:induction false} CountAll(xs: seq<Extent>, s: seq<nat>, bound: nat, byTime: bool)
    requires forall k :: 0 <= k < |s| ==> s[k] < |xs|
    ensures CountBelow(xs, s, bound, byTime) <= |s|
    ensures (forall k :: 0 <= k < |s| ==> Key(xs[s[k]], byTime) <= bound) ==> CountBelow(xs, s, bound, byTime) == |s|
    ensures (forall k :: 0 <= k < |s| ==> Key(xs[s[k]], byTime) > bound) ==> CountBelow(xs, s, bound, byTime) == 0
  {
    if s != [] {
      CountAll(xs, s[1..], bound, byTime);
    }
  }

  lemma CountReachesPivot(xs: seq<Extent>, r: seq<nat>, first: nat, nth: nat, last: nat, bound: nat, byTime: bool)
    requires first <= nth < last <= |r| && forall k :: 0 <= k < |r| ==> r[k] < |xs|
    requires Partitioned(xs, r, first, nth, last, byTime)
    ensures CountBelow(xs, r[first..last], bound, byTime) > nth - first <==> Key(xs[r[nth]], byTime) <= bound
  {
    if Key(xs[r[nth]], byTime) <= bound {
      var left, right := r[first..nth + 1], r[nth + 1..last];
      forall k | 0 <= k < |left| ensures Key(xs[left[k]], byTime) <= bound {
        assert left[k] == r[first + k];
      }
      assert r[first..last] == left + right;
      CountConcat(xs, left, right, bound, byTime);
      CountAll(xs, left, bound, byTime);
    } else {
      var low, high := r[first..nth], r[nth..last];
      forall k | 0 <= k < |high| ensures Key(xs[high[k]], byTime) > bound {
        assert high[k] == r[nth + k];
      }
      assert r[first..last] == low + high;
      CountConcat(xs, low, high, bound, byTime);
      CountAll(xs, low, bound, byTime);
      CountAll(xs, high, bound, byTime);
    }
  }

  /** A split separates its halves exactly when, before it, enough of the window's other
      extents were centred at or below the last one to fill the left half. */
  lemma SeparatedIff(xs: seq<Extent>, order: seq<nat>, r: seq<nat>, nd: Node, byTime: bool)
    requires nd.first < nd.last < |order| && forall k :: 0 <= k < |order| ==> order[k] < |xs|
    requires Shuffled(order, r, nd.first, nd.last) && forall k :: 0 <= k < |r| ==> r[k] < |xs|
    requires Partitioned(xs, r, nd.first, Middle(nd), nd.last, byTime)
    ensures Separated(xs, r, nd.first, Middle(nd), nd.last, byTime)
       <==> CountBelow(xs, order[nd.first..nd.last], Key(xs[order[nd.last]], byTime), byTime) > Middle(nd) - nd.first
  {
    var nth, bound := Middle(nd), Key(xs[order[nd.last]], byTime);
    CountPermuted(xs, order[nd.first..nd.last], r[nd.first..nd.last], bound, byTime);
    CountReachesPivot(xs, r, nd.first, nth, nd.last, bound, byTime);
    assert r[nd.last] == order[nd.last];
    if Key(xs[r[nth]], byTime) <= bound {
      forall a, b | nd.first <= a <= nth < b <= nd.last
        ensures Key(xs[r[a]], byTime) <= Key(xs[r[b]], byTime)
      {
        assert Key(xs[r[a]], byTime) <= Key(xs[r[nth]], byTime);
      }
    }
  }

  /** What buildChildren leaves: the extents of the left child are centred at or below those of the right
      one, in the wider dimension, exactly when enough of the others were centred at or below the last. */
  lemma BuiltSplitIff(xs: seq<Extent>, order: seq<nat>, r: seq<nat>, nd: Node, tree: seq<Node>, c: nat)
    requires nd.first < nd.last < |order| && forall k :: 0 <= k < |order| ==> order[k] < |xs|
    requires Shuffled(order, r, nd.first, nd.last) && Divided(xs, nd, tree, c, r)
    ensures var byTime := WiderInTime(nd.bounds);
            (forall a, b :: tree[c].first <= a <= tree[c].last && tree[c + 1].first <= b <= tree[c + 1].last ==>
               NotAfter(xs[r[a]], xs[r[b]], nd.bounds))
            <==> CountBelow(xs, order[nd.first..nd.last], Key(xs[order[nd.last]], byTime), byTime)
                 > tree[c].last - tree[c].first
  {
    hide CountBelow;
    var byTime := WiderInTime(nd.bounds);
    assert tree[c].last == Middle(nd);
    assert forall x: Extent, y: Extent :: NotAfter(x, y, nd.bounds) <==> Key(x, byTime) <= Key(y, byTime);
    SeparatedIff(xs, order, r, nd, byTime);
  }

  /** Two extents, the farther one first: the split leaves it in the left half. */
  lemma SplitNeedNotSeparate()
    ensures var t := Interval(0, 1);
            var xs := [Extent(t, Interval(10, 12)), Extent(t, Interval(0, 2))];
            var nd := Node(0, 0, 1, Extent(t, Interval(0, 12)));
            forall r: seq<nat> :: Shuffled([0, 1], r, 0, 1) && (forall k :: 0 <= k < |r| ==> r[k] < |xs|) ==>
              !Separated(xs, r, 0, Middle(nd), 1, false)
  {
    var t := Interval(0, 1);
    var xs := [Extent(t, Interval(10, 12)), Extent(t, Interval(0, 2))];
    var order: seq<nat> := [0, 1];
    forall r: seq<nat> | Shuffled(order, r, 0, 1) && (forall k :: 0 <= k < |r| ==> r[k] < |xs|)
      ensures !Separated(xs, r, 0, 0, 1, false)
    {
      assert r[0..1] == [r[0]] && order[0..1] == [0];
      assert r[0] in multiset(r[0..1]);
      assert r[1] == 1;
      assert Key(xs[r[0]], false) == 11 && Key(xs[r[1]], false) == 1;
    }
  }
}
