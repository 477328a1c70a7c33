/** A growing group of extents with its lazily built Kd-tree (core/src/ExtentGroup.cpp). */
module ExtentGroups {
  import opened Extents
  import opened KdTree

  /** Centre of an interval; the 64-bit sum wraps around before it is halved. Where it does not, the
      centre is as far from both ends, or nearer to the beginning by one. */
  function Centre(i: Interval): (c: nat)
    ensures i.begin + i.end < 0x1_0000_0000_0000_0000 ==>
              i.begin <= c <= i.end && 0 <= (i.end - c) - (c - i.begin) <= 1
  {
    ((i.begin + i.end) % 0x1_0000_0000_0000_0000) / 2
  }

  /** What CompareExtents orders by. */
  function Key(e: Extent, byTime: bool): nat {
    if byTime then Centre(e.time) else Centre(e.addr)
  }

  ghost predicate Partitioned(xs: seq<Extent>, order: seq<nat>, first: nat, nth: nat, last: nat, byTime: bool)
    requires last <= |order| && forall k :: 0 <= k < |order| ==> order[k] < |xs|
  {
    forall a, b :: first <= a <= nth <= b < last ==> Key(xs[order[a]], byTime) <= Key(xs[order[b]], byTime)
  }

  /** Position of a least key among positions from to last, last excluded. */
  method LeastFrom(xs: seq<Extent>, order: seq<nat>, from: nat, last: nat, byTime: bool) returns (m: nat)
    requires from < last <= |order| && forall k :: 0 <= k < |order| ==> order[k] < |xs|
    ensures from <= m < last
    ensures forall b :: from <= b < last ==> Key(xs[order[m]], byTime) <= Key(xs[order[b]], byTime)
  {
    m := from;
    for j := from + 1 to last
      invariant from <= m < last
      invariant forall b :: from <= b < j ==> Key(xs[order[m]], byTime) <= Key(xs[order[b]], byTime)
    {
      if Key(xs[order[j]], byTime) < Key(xs[order[m]], byTime) {
        m := j;
      }
    }
  }

  /** Positions before i hold least keys of what follows them. */
  ghost predicate Settled(xs: seq<Extent>, order: seq<nat>, first: nat, i: nat, last: nat, byTime: bool)
    requires last <= |order| && forall k :: 0 <= k < |order| ==> order[k] < |xs|
  {
    forall a, b :: first <= a < i && a <= b < last ==> Key(xs[order[a]], byTime) <= Key(xs[order[b]], byTime)
  }

  lemma SwapSettles(xs: seq<Extent>, r: seq<nat>, first: nat, i: nat, m: nat, last: nat, byTime: bool)
    requires first <= i <= m < last <= |r| && forall k :: 0 <= k < |r| ==> r[k] < |xs|
    requires Settled(xs, r, first, i, last, byTime)
    requires forall b :: i <= b < last ==> Key(xs[r[m]], byTime) <= Key(xs[r[b]], byTime)
    ensures Settled(xs, r[i := r[m]][m := r[i]], first, i + 1, last, byTime)
  {
  }

  /** The contract of std::nth_element over positions first to last, last excluded. */
  method NthElement(xs: seq<Extent>, order: seq<nat>, first: nat, nth: nat, last: nat, byTime: bool)
    returns (r: seq<nat>)
    requires first <= nth < last <= |order| && forall k :: 0 <= k < |order| ==> order[k] < |xs|
    ensures Shuffled(order, r, first, last)
    ensures forall k :: 0 <= k < |r| ==> r[k] < |xs|
    ensures Partitioned(xs, r, first, nth, last, byTime)
  {
    r := order;
    for i := first to nth + 1
      invariant Shuffled(order, r, first, last)
      invariant forall k :: 0 <= k < |r| ==> r[k] < |xs|
      invariant Settled(xs, r, first, i, last, byTime)
    {
      var m := LeastFrom(xs, r, i, last, byTime);
      SwapShuffles(order, r, first, last, i, m);
      SwapSettles(xs, r, first, i, m, last, byTime);
      r := r[i := r[m]][m := r[i]];
    }
  }

  lemma SwapShuffles(order: seq<nat>, r: seq<nat>, first: nat, last: nat, i: nat, m: nat)
    requires Shuffled(order, r, first, last) && first <= i < last && first <= m < last
    ensures Shuffled(order, r[i := r[m]][m := r[i]], first, last)
  {
    var w := r[first..last];
    assert r[i := r[m]][m := r[i]][first..last] == w[i - first := w[m - first]][m - first := w[i - first]];
  }

  /** Fold of |= over a window, as the loops of initializeTree and buildChildren do it. */
  method WindowHull(xs: seq<Extent>, order: seq<nat>, first: nat, last: nat) returns (h: Extent)
    requires first <= last < |order| && forall k :: 0 <= k < |order| ==> order[k] < |xs|
    ensures h == Bounds(xs, Window(order, first, last))
  {
    hide Hull;
    h := NO_EXTENT;
    ghost var met: set<nat> := {};
    BoundsEmpty(xs);
    for i := first to last + 1
      invariant met == set k | first <= k < i :: order[k]
      invariant h == Bounds(xs, met)
    {
      BoundsGrow(xs, met, order[i]);
      h := ExtentOr(h, xs[order[i]]);
      met := met + {order[i]};
    }
    assert met == Window(order, first, last);
  }

  /** The wider dimension is time; on a tie it is the address. */
  ghost predicate WiderInTime(e: Extent) {
    e.time.end - e.time.begin > e.addr.end - e.addr.begin
  }

  /** The node has been divided: its children take the two halves of its window, as near to equal in size
      as can be, the left one the larger, with the pivot of the wider dimension last in the left half. */
  ghost predicate Divided(xs: seq<Extent>, nd: Node, tree: seq<Node>, c: nat, order: seq<nat>) {
    && c + 1 < |tree| && nd.first < nd.last < |order| && (forall k :: 0 <= k < |order| ==> order[k] < |xs|)
    && var left, right := tree[c], tree[c + 1];
    && left.first == nd.first && left.last + 1 == right.first && right.last == nd.last
    && left.first <= left.last < right.last
    && 0 <= (left.last - left.first) - (right.last - right.first) <= 1
    && forall a, b :: nd.first <= a <= left.last <= b < nd.last ==> NotAfter(xs[order[a]], xs[order[b]], nd.bounds)
  }

  /** In the wider dimension of the bounds, the centre of one extent is not after that of the other. */
  ghost predicate NotAfter(x: Extent, y: Extent, bounds: Extent) {
    if WiderInTime(bounds) then Centre(x.time) <= Centre(y.time) else Centre(x.addr) <= Centre(y.addr)
  }

  /** Reorder a node's window about its middle and bound the two halves. */
  method Divide(xs: seq<Extent>, order: seq<nat>, nd: Node) returns (r: seq<nat>, left: Extent, right: Extent)
    requires nd.first < nd.last < |order| && forall k :: 0 <= k < |order| ==> order[k] < |xs|
    ensures Shuffled(order, r, nd.first, nd.last) && forall k :: 0 <= k < |r| ==> r[k] < |xs|
    ensures left == Bounds(xs, Window(r, nd.first, Middle(nd)))
    ensures right == Bounds(xs, Window(r, Middle(nd) + 1, nd.last))
    ensures Partitioned(xs, r, nd.first, Middle(nd), nd.last, WiderInTime(nd.bounds))
  {
    hide Hull;
    var byTime := Width(nd.bounds.time) > Width(nd.bounds.addr);
    r := NthElement(xs, order, nd.first, Middle(nd), nd.last, byTime);
    left := WindowHull(xs, r, nd.first, Middle(nd));
    right := WindowHull(xs, r, Middle(nd) + 1, nd.last);
  }

  /** std::vector::resize: keep what fits, pad with default nodes. */
  function Resize(tree: seq<Node>, n: nat): (t: seq<Node>)
    ensures |t| == n
  {
    if n <= |tree| then tree[..n] else tree + seq(n - |tree|, _ => NO_NODE)
  }

  /** The reference answer: test every extent of the group. */
  function LinearScan(xs: seq<Extent>, q: Extent): set<nat> {
    set i: nat | i in Indices(xs) && DoesIntersect(q, xs[i])
  }

  lemma IdentityMembers(n: nat)
    ensures forall i: nat :: i in Identity(n) <==> i < n
  {
    forall i: nat | i < n ensures i in Identity(n) {
      assert Identity(n)[i] == i;
    }
  }

  function Indices(xs: seq<Extent>): (s: set<nat>)
    ensures forall i: nat :: i in s <==> i < |xs|
  {
    IdentityMembers(|xs|);
    set i | i in Identity(|xs|)
  }

  // ---------------------------------------------------------------- traversal

  ghost predicate Below(pending: seq<nat>, next: nat) {
    forall k :: 0 <= k < |pending| ==> pending[k] < next
  }

  /** Everything enclosed by the pending nodes. */
  ghost function Reach(tree: seq<Node>, next: nat, order: seq<nat>, pending: seq<nat>): set<nat>
    requires next <= |tree| && Windows(tree, next, |order|)
    requires Below(pending, next)
  {
    if pending == [] then {}
    else Members(order, tree[pending[0]]) + Reach(tree, next, order, pending[1..])
  }

  /** Two nodes fewer than twice the pending windows: the traversal's variant. */
  ghost function Work(tree: seq<Node>, next: nat, n: nat, pending: seq<nat>): nat
    requires next <= |tree| && Windows(tree, next, n)
    requires Below(pending, next)
  {
    if pending == [] then 0
    else 2 * (tree[pending[0]].last - tree[pending[0]].first) + 1 + Work(tree, next, n, pending[1..])
  }

  lemma {:induction false} ReachPush(tree: seq<Node>, next: nat, order: seq<nat>, pending: seq<nat>, c: nat)
    requires next <= |tree| && Windows(tree, next, |order|) && c < next
    requires Below(pending, next)
    ensures Below(pending + [c], next)
    ensures Reach(tree, next, order, pending + [c]) == Reach(tree, next, order, pending) + Members(order, tree[c])
    ensures Work(tree, next, |order|, pending + [c])
         == Work(tree, next, |order|, pending) + 2 * (tree[c].last - tree[c].first) + 1
  {
    if pending == [] {
      assert pending + [c] == [c];
    } else {
      assert (pending + [c])[1..] == pending[1..] + [c];
      ReachPush(tree, next, order, pending[1..], c);
    }
  }

  lemma {:induction false} ReachKept(tree: seq<Node>, next: nat, order: seq<nat>, node: nat,
                                     t: seq<Node>, next': nat, order': seq<nat>, pending: seq<nat>)
    requires next <= |tree| && Windows(tree, next, |order|)
    requires Extends(tree, next, order, node, t, next', order') && Below(pending, next)
    ensures Below(pending, next')
    ensures Reach(t, next', order', pending) == Reach(tree, next, order, pending)
    ensures Work(t, next', |order|, pending) == Work(tree, next, |order|, pending)
  {
    if pending != [] {
      ReachKept(tree, next, order, node, t, next', order', pending[1..]);
    }
  }

  /** A node whose bounds the query misses encloses no answer. */
  lemma MissedNode(xs: seq<Extent>, tree: seq<Node>, next: nat, order: seq<nat>, node: nat, q: Extent)
    requires TreeOk(xs, tree, next, order) && node < next
    requires !DoesIntersect(q, tree[node].bounds)
    ensures Members(order, tree[node]) !! LinearScan(xs, q)
  {
    assert NodeBounded(xs, order, tree[node]);
    forall x | x in Members(order, tree[node]) && x in LinearScan(xs, q) ensures false {
      BoundsCatch(q, xs, Members(order, tree[node]), x);
    }
  }

  /** A leaf whose bounds the query meets is an answer. */
  lemma HitLeaf(xs: seq<Extent>, tree: seq<Node>, next: nat, order: seq<nat>, node: nat, q: Extent)
    requires TreeOk(xs, tree, next, order) && node < next && tree[node].children < 0
    requires DoesIntersect(q, tree[node].bounds)
    ensures var x := -(tree[node].children + 1);
            0 <= x < |xs| && Members(order, tree[node]) == {x} && DoesIntersect(q, xs[x])
  {
    NodeFacts(xs, tree, next, order, node);
    var x := -(tree[node].children + 1);
    WindowOfOne(order, tree[node].first);
    BoundsOfOne(xs, x);
  }

  /** Replacing a node by its children loses nothing and is less work. */
  lemma DescendNode(tree: seq<Node>, next: nat, order: seq<nat>, node: nat, rest: seq<nat>)
    requires next <= |tree| && Windows(tree, next, |order|)
    requires node < next && Link(tree, next, node) && tree[node].children > 0 && Below(rest, next)
    ensures var c := tree[node].children;
            var pending := rest + [c] + [c + 1];
            && Below(pending, next)
            && Reach(tree, next, order, pending) == Reach(tree, next, order, rest) + Members(order, tree[node])
            && Work(tree, next, |order|, pending)
               < Work(tree, next, |order|, rest) + 2 * (tree[node].last - tree[node].first) + 1
  {
    var c := tree[node].children;
    ChildrenCover(tree, next, order, node);
    ReachPush(tree, next, order, rest, c);
    ReachPush(tree, next, order, rest + [c], c + 1);
  }

  /** What the traversal does with a built node whose bounds the query meets. */
  method Expand(xs: seq<Extent>, tree: seq<Node>, next: nat, order: seq<nat>, q: Extent,
                node: nat, rest: seq<nat>, hits: set<nat>)
    returns (pending: seq<nat>, hits': set<nat>)
    requires TreeOk(xs, tree, next, order) && node < next && Below(rest, next)
    requires tree[node].children != 0 && DoesIntersect(q, tree[node].bounds)
    requires hits <= LinearScan(xs, q) <= hits + Members(order, tree[node]) + Reach(tree, next, order, rest)
    ensures Below(pending, next)
    ensures hits' <= LinearScan(xs, q) <= hits' + Reach(tree, next, order, pending)
    ensures Work(tree, next, |xs|, pending) <= Work(tree, next, |xs|, rest) + 2 * (tree[node].last - tree[node].first)
  {
    hide Hull;
    NodeFacts(xs, tree, next, order, node);
    if tree[node].children > 0 {
      DescendNode(tree, next, order, node, rest);
      pending, hits' := rest + [tree[node].children] + [tree[node].children + 1], hits;
    } else {
      HitLeaf(xs, tree, next, order, node, q);
      pending, hits' := rest, hits + {-(tree[node].children + 1)};
    }
  }

  class ExtentGroup {
    var extents: seq<Extent>
    var next: nat
    var tree: seq<Node>
    var order: seq<nat>

    /** An index of the group's size is one of its extents. Any other is rebuilt by the next query. */
    ghost predicate Valid()
      reads this
    {
      |order| == |extents| > 0 ==> TreeOk(extents, tree, next, order)
    }

    constructor ()
      ensures Valid() && extents == [] && order == []
    {
      extents, next, tree, order := [], 0, [], [];
    }

    /** A group that only grows past its index stays valid; one that was cut back does until it has
        grown to the size of the index again. */
    method Append(e: Extent)
      modifies this`extents
      ensures extents == old(extents) + [e]
      ensures old(|order| <= |extents|) ==> Valid() && |order| <= |extents|
      ensures |extents| != |order| ==> Valid()
    {
      extents := extents + [e];
    }

    /** Any other change of the group, removals too, keeps it valid if it ends with another size than
        the index has. */
    method Change(xs: seq<Extent>)
      modifies this`extents
      ensures extents == xs && (|xs| != |order| ==> Valid())
    {
      extents := xs;
    }

    method InitializeTree()
      requires Valid() && |extents| > 0
      modifies this`next, this`tree, this`order
      ensures TreeOk(extents, tree, next, order)
      ensures old(|order|) == |extents| ==> next == old(next) && tree == old(tree) && order == old(order)
    {
      hide Hull;
      if |order| > 0 && |order| == |extents| {
        return;
      }
      var bounds := WindowHull(extents, Identity(|extents|), 0, |extents| - 1);
      tree := Resize(tree, 2 * |extents|);
      order := Identity(|extents|);
      tree := tree[0 := Node(0, 0, |extents| - 1, bounds)];
      next := 1;
      RootOk(extents, tree, bounds);
    }

    /** Build the two children of an unbuilt node, or turn it into a leaf. */
    method BuildChildren(node: nat)
      requires TreeOk(extents, tree, next, order)
      requires node < next && tree[node].children == 0 && !IsEmpty(tree[node].bounds)
      modifies this`next, this`tree, this`order
      ensures TreeOk(extents, tree, next, order)
      ensures Extends(old(tree), old(next), old(order), node, tree, next, order)
      ensures tree[node].children != 0
      ensures old(tree[node].first < tree[node].last) ==>
                tree[node].children == old(next)
                && Divided(extents, old(tree[node]), tree, old(next), order)
                && Shuffled(old(order), order, old(tree[node].first), old(tree[node].last))
    {
      hide Hull, Laminar, Links, Owed, Bounded, IsPermutation;
      NodeFacts(extents, tree, next, order, node);
      var nd := tree[node];
      if nd.first == nd.last {
        LeafOk(extents, tree, next, order, node);
        tree := MakeLeaf(extents, tree, node, order[nd.first]);
        return;
      }
      var order', left, right := Divide(extents, order, nd);
      SplitOk(extents, tree, next, order, node, order', left, right);
      tree, next, order := Split(tree, next, node, left, right), next + 2, order';
    }

    method GetBounds() returns (b: Extent)
      requires Valid()
      modifies this`next, this`tree, this`order
      ensures Valid()
      ensures b == Bounds(extents, Indices(extents))
    {
      if |extents| == 0 {
        b := NO_EXTENT;
        BoundsEmpty(extents);
        assert Indices(extents) == {};
        return;
      }
      InitializeTree();
      b := tree[0].bounds;
      RootMembers(extents, tree, next, order);
      assert NodeBounded(extents, order, tree[0]);
      assert Members(order, tree[0]) == Indices(extents);
    }

    /** One turn of the traversal: drop the node, with nothing built below it, report it, or queue its
        children. */
    method Visit(q: Extent, node: nat, rest: seq<nat>, hits: set<nat>) returns (pending: seq<nat>, hits': set<nat>)
      requires TreeOk(extents, tree, next, order) && node < next && Below(rest, next)
      requires hits <= LinearScan(extents, q) <= hits + Members(order, tree[node]) + Reach(tree, next, order, rest)
      modifies this`next, this`tree, this`order
      ensures TreeOk(extents, tree, next, order) && Below(pending, next)
      ensures hits' <= LinearScan(extents, q) <= hits' + Reach(tree, next, order, pending)
      ensures Work(tree, next, |extents|, pending)
           <= old(Work(tree, next, |extents|, rest) + 2 * (tree[node].last - tree[node].first))
      ensures !DoesIntersect(q, old(tree[node].bounds)) ==>
                pending == rest && hits' == hits && tree == old(tree) && next == old(next) && order == old(order)
    {
      hide Hull;
      if !DoesIntersect(q, tree[node].bounds) {
        MissedNode(extents, tree, next, order, node, q);
        return rest, hits;
      }
      if tree[node].children == 0 {
        BuildChildren(node);
        ReachKept(old(tree), old(next), old(order), node, tree, next, order, rest);
      }
      pending, hits' := Expand(extents, tree, next, order, q, node, rest, hits);
    }

    /** Whatever was built by earlier queries, the answer is the linear scan's. */
    method GetIntersectionWith(q: Extent) returns (hits: set<nat>)
      requires Valid()
      modifies this`next, this`tree, this`order
      ensures Valid()
      ensures hits == LinearScan(extents, q) && (|extents| > 0 ==> |order| == |extents|)
      ensures |extents| > 0 ==> |tree| == 2 * |extents| && next <= 2 * |extents| - 1
    {
      hide Hull;
      hits := {};
      if |extents| == 0 {
        return;
      }
      InitializeTree();
      var pending: seq<nat> := [0];
      RootMembers(extents, tree, next, order);
      while pending != []
        invariant TreeOk(extents, tree, next, order)
        invariant Below(pending, next)
        invariant hits <= LinearScan(extents, q) <= hits + Reach(tree, next, order, pending)
        decreases Work(tree, next, |extents|, pending)
      {
        pending, hits := Visit(q, pending[0], pending[1..], hits);
      }
      OwedNonNegative(tree, next);
    }

    /** Intersection with another group: one query per extent of that group. */
    method GetIntersectionWithGroup(others: seq<Extent>) returns (hits: set<nat>)
      requires Valid()
      modifies this`next, this`tree, this`order
      ensures Valid()
      ensures forall i: nat ::
                i in hits <==> i < |extents| && exists k :: 0 <= k < |others| && DoesIntersect(others[k], extents[i])
    {
      hide Hull, TreeOk;
      hits := {};
      for k := 0 to |others|
        invariant Valid()
        invariant forall i: nat ::
                    i in hits <==> i < |extents| && exists j :: 0 <= j < k && DoesIntersect(others[j], extents[i])
      {
        var more := GetIntersectionWith(others[k]);
        hits := hits + more;
      }
    }
  }
}
