/** The index behind ExtentGroup as a value: a Kd-tree held in an array of nodes,
    over a permutation of the extents, of which any part may be unbuilt yet
    (core/include/KrellInstitute/Core/ExtentGroup.hpp, core/src/ExtentGroup.cpp). */
module KdTree {
  import opened Extents

  /** children > 0: index of the left child, the right one follows it;
      children < 0: a leaf for extent -(children + 1); 0: not built yet. */
  datatype Node = Node(children: int, first: nat, last: nat, bounds: Extent)

  const NO_NODE := Node(0, 0, 0, NO_EXTENT)

  /** The partitioning pivot: last position of the left half. The halves are of equal size, or the left
      one is larger by one. */
  function Middle(nd: Node): (m: nat)
    ensures nd.first <= nd.last ==>
              nd.first <= m <= nd.last && 0 <= (m - nd.first + 1) - (nd.last - m) <= 1
  {
    (nd.first + nd.last) / 2
  }

  /** The extents named by positions first to last of the map. */
  ghost function Window(order: seq<nat>, first: nat, last: nat): set<nat>
    requires last < |order|
  {
    set k | first <= k <= last :: order[k]
  }

  /** The extents enclosed by a node. */
  ghost function Members(order: seq<nat>, nd: Node): set<nat>
    requires nd.last < |order|
  {
    Window(order, nd.first, nd.last)
  }

  lemma WindowOfOne(order: seq<nat>, k: nat)
    requires k < |order|
    ensures Window(order, k, k) == {order[k]}
  {
  }

  ghost predicate Apart(a: Node, b: Node) {
    a.last < b.first || b.last < a.first
  }

  ghost predicate Encloses(a: Node, b: Node) {
    a.first <= b.first && b.last <= a.last && (a.first < b.first || b.last < a.last)
  }

  /** Every allocated node has a non-empty window of the map. */
  ghost predicate Windows(tree: seq<Node>, next: nat, n: nat)
    requires next <= |tree|
  {
    forall i: nat :: i < next ==> tree[i].first <= tree[i].last < n
  }

  /** How node i's children, if built, divide its window. */
  ghost predicate Link(tree: seq<Node>, next: nat, i: nat)
    requires i < next <= |tree|
  {
    var nd := tree[i];
    && (nd.children > 0 ==>
          var c := nd.children;
          && i < c && c + 1 < next
          && nd.first < nd.last
          && tree[c].first == nd.first && tree[c].last == Middle(nd)
          && tree[c + 1].first == Middle(nd) + 1 && tree[c + 1].last == nd.last)
    && (nd.children < 0 ==> nd.first == nd.last)
  }

  ghost predicate Links(tree: seq<Node>, next: nat)
    requires next <= |tree|
  {
    forall i: nat :: i < next ==> Link(tree, next, i)
  }

  /** A node without children (unbuilt or leaf) shares no window position with
      any other node, except its ancestors. */
  ghost predicate Nested(tree: seq<Node>, i: nat, j: nat)
    requires i < |tree| && j < |tree|
  {
    i != j && tree[j].children <= 0 ==> Apart(tree[i], tree[j]) || Encloses(tree[i], tree[j])
  }

  ghost predicate Laminar(tree: seq<Node>, next: nat)
    requires next <= |tree|
  {
    forall i: nat, j: nat :: i < next && j < next ==> Nested(tree, i, j)
  }

  /** Slots still owed: splitting a childless window of w extents down to leaves
      allocates 2 * (w - 1) more nodes. */
  ghost function Owed(tree: seq<Node>, k: nat): int
    requires k <= |tree|
  {
    if k == 0 then 0
    else Owed(tree, k - 1) + if tree[k - 1].children <= 0 then 2 * (tree[k - 1].last - tree[k - 1].first) else 0
  }

  /** A node's bounds are the hull of its members; a leaf names its one member. */
  ghost predicate NodeBounded(xs: seq<Extent>, order: seq<nat>, nd: Node)
    requires nd.first <= nd.last < |order|
  {
    && nd.bounds == Bounds(xs, Members(order, nd))
    && (nd.children < 0 ==> order[nd.first] == -(nd.children + 1))
  }

  ghost predicate Bounded(xs: seq<Extent>, tree: seq<Node>, next: nat, order: seq<nat>)
    requires next <= |tree| && |order| == |xs| && Windows(tree, next, |xs|)
  {
    forall i: nat :: i < next ==> NodeBounded(xs, order, tree[i])
  }

  function Identity(n: nat): (s: seq<nat>)
    ensures |s| == n && forall k :: 0 <= k < n ==> s[k] == k
  {
    seq(n, k requires 0 <= k => k)
  }

  ghost predicate IsPermutation(order: seq<nat>, n: nat) {
    multiset(order) == multiset(Identity(n))
  }

  lemma PermutationFacts(order: seq<nat>, n: nat)
    requires IsPermutation(order, n)
    ensures |order| == n
    ensures forall k :: 0 <= k < n ==> order[k] < n
    ensures forall x: nat :: x < n ==> x in order
  {
    var id := Identity(n);
    assert |multiset(order)| == |order| && |multiset(id)| == |id|;
    forall k | 0 <= k < |order| ensures order[k] < n {
      assert order[k] in multiset(order);
      assert order[k] in id;
    }
    forall x: nat | x < n ensures x in order {
      assert id[x] in multiset(id);
      assert x in multiset(order);
    }
  }

  /** The shape of the node array, whatever the extents are. */
  ghost predicate Structure(tree: seq<Node>, next: nat, n: nat) {
    && 1 <= next <= |tree| == 2 * n
    && Windows(tree, next, n) && Links(tree, next) && Laminar(tree, next)
    && tree[0].first == 0 && tree[0].last == n - 1
    && next + Owed(tree, next) == 2 * n - 1
  }

  ghost predicate Mapped(xs: seq<Extent>, order: seq<nat>) {
    && IsPermutation(order, |xs|)
    && |order| == |xs| && (forall k :: 0 <= k < |order| ==> order[k] < |xs|)
  }

  /** What every query leaves true of the index. */
  ghost predicate TreeOk(xs: seq<Extent>, tree: seq<Node>, next: nat, order: seq<nat>) {
    Mapped(xs, order) && Structure(tree, next, |xs|) && Bounded(xs, tree, next, order)
  }

  // ------------------------------------------------- one build of a node's children

  /** The node array after node p, with window [f, l], is split at nth. */
  function Split(tree: seq<Node>, next: nat, p: nat, left: Extent, right: Extent): (t: seq<Node>)
    requires p < next && next + 1 < |tree|
    ensures |t| == |tree| && t[p].children == next
  {
    var nd := tree[p];
    tree[p := nd.(children := next)]
        [next := Node(0, nd.first, Middle(nd), left)]
        [next + 1 := Node(0, Middle(nd) + 1, nd.last, right)]
  }

  lemma OwedUnchanged(tree: seq<Node>, t: seq<Node>, k: nat)
    requires k <= |tree| && k <= |t| && forall i :: 0 <= i < k ==> tree[i] == t[i]
    ensures Owed(tree, k) == Owed(t, k)
  {
    if k > 0 {
      OwedUnchanged(tree, t, k - 1);
    }
  }

  lemma OwedUpdate(tree: seq<Node>, p: nat, nd: Node, k: nat)
    requires p < k <= |tree| && tree[p].children <= 0
    requires nd.first == tree[p].first && nd.last == tree[p].last
    ensures Owed(tree[p := nd], k) ==
            Owed(tree, k) - (if nd.children > 0 then 2 * (nd.last - nd.first) else 0)
  {
    if p == k - 1 {
      OwedUnchanged(tree, tree[p := nd], k - 1);
    } else {
      OwedUpdate(tree, p, nd, k - 1);
    }
  }

  lemma SplitOwed(tree: seq<Node>, next: nat, p: nat, left: Extent, right: Extent)
    requires p < next && next + 1 < |tree|
    requires tree[p].children <= 0 && tree[p].first < tree[p].last
    ensures next + 2 + Owed(Split(tree, next, p, left, right), next + 2) == next + Owed(tree, next)
  {
    var t := Split(tree, next, p, left, right);
    OwedUpdate(tree, p, t[p], next);
    OwedUnchanged(tree[p := t[p]], t, next);
    assert Owed(t, next + 2) == Owed(t, next + 1) + 2 * (t[next + 1].last - t[next + 1].first);
    assert Owed(t, next + 1) == Owed(t, next) + 2 * (t[next].last - t[next].first);
  }

  lemma OwedAtLeast(tree: seq<Node>, p: nat, k: nat)
    requires p < k <= |tree| && tree[p].children <= 0
    requires forall i :: 0 <= i < k ==> tree[i].first <= tree[i].last
    ensures Owed(tree, k) >= 2 * (tree[p].last - tree[p].first)
  {
    if p < k - 1 {
      OwedAtLeast(tree, p, k - 1);
    } else {
      OwedNonNegative(tree, k - 1);
    }
  }

  lemma OwedNonNegative(tree: seq<Node>, k: nat)
    requires k <= |tree|
    requires forall i :: 0 <= i < k ==> tree[i].first <= tree[i].last
    ensures Owed(tree, k) >= 0
  {
    if k > 0 {
      OwedNonNegative(tree, k - 1);
    }
  }

  lemma SplitLinks(tree: seq<Node>, next: nat, n: nat, p: nat, left: Extent, right: Extent)
    requires p < next && next + 1 < |tree| && Windows(tree, next, n) && Links(tree, next)
    requires tree[p].children == 0 && tree[p].first < tree[p].last
    ensures var t := Split(tree, next, p, left, right);
            Windows(t, next + 2, n) && Links(t, next + 2)
  {
    var t := Split(tree, next, p, left, right);
    var next' := next + 2;
    assert Link(tree, next, p);
    forall i: nat | i < next' ensures Link(t, next', i) {
      if i < next {
        assert Link(tree, next, i);
      }
    }
  }

  lemma SplitLaminar(tree: seq<Node>, next: nat, p: nat, left: Extent, right: Extent)
    requires p < next && next + 1 < |tree| && Laminar(tree, next)
    requires tree[p].children == 0 && tree[p].first < tree[p].last
    ensures Laminar(Split(tree, next, p, left, right), next + 2)
  {
    var t := Split(tree, next, p, left, right);
    forall i: nat, j: nat | i < next + 2 && j < next + 2 ensures Nested(t, i, j) {
      if i < next && j < next {
        assert Nested(tree, i, j);
      } else if i < next {
        assert Nested(tree, i, p);
      } else if j < next {
        assert Nested(tree, p, j) && Nested(tree, j, p);
      }
    }
  }

  lemma SplitStructure(tree: seq<Node>, next: nat, n: nat, p: nat, left: Extent, right: Extent)
    requires p < next && next + 1 < |tree| && Structure(tree, next, n)
    requires tree[p].children == 0 && tree[p].first < tree[p].last
    ensures Structure(Split(tree, next, p, left, right), next + 2, n)
  {
    SplitLinks(tree, next, n, p, left, right);
    SplitLaminar(tree, next, p, left, right);
    SplitOwed(tree, next, p, left, right);
  }

  /** order' differs from order only inside positions a to b, b excluded, and there by a permutation. */
  ghost predicate Shuffled(order: seq<nat>, order': seq<nat>, a: nat, b: nat) {
    && a <= b <= |order| && |order'| == |order|
    && (forall k :: 0 <= k < a || b <= k < |order| ==> order'[k] == order[k])
    && multiset(order'[a..b]) == multiset(order[a..b])
  }

  /** Reordering positions inside p's window changes no other node's members:
      other windows lie outside it or contain all of it. */
  lemma MembersKept(tree: seq<Node>, next: nat, order: seq<nat>, order': seq<nat>, p: nat, i: nat)
    requires next <= |tree| && Windows(tree, next, |order|) && Laminar(tree, next)
    requires p < next && tree[p].children == 0 && i < next
    requires Shuffled(order, order', tree[p].first, tree[p].last)
    ensures Members(order', tree[i]) == Members(order, tree[i])
    ensures Apart(tree[i], tree[p]) ==> forall k :: tree[i].first <= k <= tree[i].last ==> order'[k] == order[k]
  {
    assert Nested(tree, i, p);
    if i == p || Encloses(tree[i], tree[p]) {
      WindowKept(order, order', tree[p].first, tree[p].last, tree[i].first, tree[i].last);
      WindowKept(order', order, tree[p].first, tree[p].last, tree[i].first, tree[i].last);
    }
  }

  lemma WindowKept(order: seq<nat>, order': seq<nat>, a: nat, b: nat, f: nat, l: nat)
    requires f <= a <= b <= l < |order| && Shuffled(order, order', a, b)
    ensures Window(order, f, l) <= Window(order', f, l)
  {
    forall k | f <= k <= l ensures order[k] in Window(order', f, l) {
      if a <= k < b {
        assert order[a..b][k - a] in multiset(order[a..b]);
        assert order[k] in order'[a..b];
        var j :| 0 <= j < b - a && order'[a..b][j] == order[k];
        assert order'[a + j] == order[k];
      } else {
        assert order'[k] == order[k];
      }
    }
  }

  lemma PermutationKept(order: seq<nat>, order': seq<nat>, n: nat, a: nat, b: nat)
    requires IsPermutation(order, n) && Shuffled(order, order', a, b)
    ensures IsPermutation(order', n)
  {
    assert order == order[..a] + order[a..b] + order[b..];
    assert order' == order[..a] + order'[a..b] + order[b..];
  }

  /** Splitting always finds two free slots: at most 2n - 1 are ever used. */
  lemma RoomForTwo(tree: seq<Node>, next: nat, n: nat, p: nat)
    requires Structure(tree, next, n)
    requires p < next && tree[p].children == 0 && tree[p].first < tree[p].last
    ensures next + 2 <= 2 * n - 1
  {
    OwedAtLeast(tree, p, next);
  }

  lemma NodeBoundedKept(xs: seq<Extent>, tree: seq<Node>, next: nat, order: seq<nat>, p: nat,
                        order': seq<nat>, i: nat)
    requires next <= |tree| && Windows(tree, next, |order|) && Laminar(tree, next)
    requires p < next && tree[p].children == 0 && i < next && Link(tree, next, i)
    requires tree[p].first < tree[p].last
    requires Shuffled(order, order', tree[p].first, tree[p].last)
    requires forall k :: 0 <= k < |order| ==> order[k] < |xs| && order'[k] < |xs|
    requires NodeBounded(xs, order, tree[i])
    ensures NodeBounded(xs, order', tree[i])
  {
    MembersKept(tree, next, order, order', p, i);
    if tree[i].children < 0 {
      assert Nested(tree, p, i) && Nested(tree, i, p);
      assert order'[tree[i].first] == order[tree[i].first];
    }
  }

  lemma SplitBounded(xs: seq<Extent>, tree: seq<Node>, next: nat, order: seq<nat>, p: nat,
                     order': seq<nat>, left: Extent, right: Extent)
    requires next + 2 <= |tree| && |order| == |xs|
    requires Windows(tree, next, |xs|) && Links(tree, next) && Laminar(tree, next)
    requires p < next && tree[p].children == 0 && tree[p].first < tree[p].last
    requires Shuffled(order, order', tree[p].first, tree[p].last)
    requires forall k :: 0 <= k < |order| ==> order[k] < |xs| && order'[k] < |xs|
    requires Bounded(xs, tree, next, order)
    requires Windows(Split(tree, next, p, left, right), next + 2, |xs|)
    requires left == Bounds(xs, Window(order', tree[p].first, Middle(tree[p])))
    requires right == Bounds(xs, Window(order', Middle(tree[p]) + 1, tree[p].last))
    ensures Bounded(xs, Split(tree, next, p, left, right), next + 2, order')
  {
    hide Hull, Bounds, Window, Laminar;
    assert |order'| == |order|;
    hide Shuffled;
    var t := Split(tree, next, p, left, right);
    forall i: nat | i < next ensures NodeBounded(xs, order', t[i]) {
      assert Link(tree, next, i) && NodeBounded(xs, order, tree[i]);
      NodeBoundedKept(xs, tree, next, order, p, order', i);
    }
    assert NodeBounded(xs, order', t[next]) && NodeBounded(xs, order', t[next + 1]);
  }

  /** Nothing an earlier traversal relied on is disturbed: existing nodes keep window,
      bounds and members, and all but p keep their children. */
  ghost predicate Extends(tree: seq<Node>, next: nat, order: seq<nat>, p: nat,
                          t: seq<Node>, next': nat, order': seq<nat>)
    requires next <= |tree| && Windows(tree, next, |order|)
  {
    && next <= next' <= |t| && |order'| == |order| && Windows(t, next', |order|)
    && forall i: nat :: i < next ==>
         && t[i].first == tree[i].first && t[i].last == tree[i].last && t[i].bounds == tree[i].bounds
         && (i != p ==> t[i].children == tree[i].children)
         && Members(order', t[i]) == Members(order, tree[i])
  }

  lemma SplitExtends(tree: seq<Node>, next: nat, order: seq<nat>, p: nat,
                     order': seq<nat>, left: Extent, right: Extent)
    requires next + 2 <= |tree| && Windows(tree, next, |order|) && Laminar(tree, next)
    requires p < next && tree[p].children == 0
    requires Shuffled(order, order', tree[p].first, tree[p].last)
    requires Windows(Split(tree, next, p, left, right), next + 2, |order|)
    ensures Extends(tree, next, order, p, Split(tree, next, p, left, right), next + 2, order')
  {
    var t := Split(tree, next, p, left, right);
    forall i: nat | i < next ensures Members(order', t[i]) == Members(order, tree[i]) {
      MembersKept(tree, next, order, order', p, i);
    }
  }

  /** Splitting an unbuilt node keeps the index valid and disturbs no existing node. */
  lemma SplitOk(xs: seq<Extent>, tree: seq<Node>, next: nat, order: seq<nat>, p: nat,
                order': seq<nat>, left: Extent, right: Extent)
    requires TreeOk(xs, tree, next, order)
    requires p < next && tree[p].children == 0 && tree[p].first < tree[p].last
    requires Shuffled(order, order', tree[p].first, tree[p].last)
    requires forall k :: 0 <= k < |order'| ==> order'[k] < |xs|
    requires left == Bounds(xs, Window(order', tree[p].first, Middle(tree[p])))
    requires right == Bounds(xs, Window(order', Middle(tree[p]) + 1, tree[p].last))
    requires next + 2 <= |tree|
    ensures TreeOk(xs, Split(tree, next, p, left, right), next + 2, order')
    ensures Extends(tree, next, order, p, Split(tree, next, p, left, right), next + 2, order')
  {
    SplitStructure(tree, next, |xs|, p, left, right);
    PermutationKept(order, order', |xs|, tree[p].first, tree[p].last);
    SplitBounded(xs, tree, next, order, p, order', left, right);
    SplitExtends(tree, next, order, p, order', left, right);
  }

  /** The node array after node p, whose window is one extent, becomes a leaf. */
  function MakeLeaf(xs: seq<Extent>, tree: seq<Node>, p: nat, x: nat): (t: seq<Node>)
    requires p < |tree| && x < |xs|
    ensures |t| == |tree| && t[p].children < 0
  {
    tree[p := tree[p].(children := -(x + 1), bounds := xs[x])]
  }

  lemma LeafBounded(xs: seq<Extent>, tree: seq<Node>, next: nat, order: seq<nat>, p: nat)
    requires next <= |tree| && |order| == |xs| && Windows(tree, next, |xs|)
    requires forall k :: 0 <= k < |order| ==> order[k] < |xs|
    requires Bounded(xs, tree, next, order)
    requires p < next && tree[p].first == tree[p].last && !IsEmpty(tree[p].bounds)
    ensures var t := MakeLeaf(xs, tree, p, order[tree[p].first]);
            Windows(t, next, |xs|) && Bounded(xs, t, next, order) && t[p].bounds == tree[p].bounds
  {
    var x := order[tree[p].first];
    assert NodeBounded(xs, order, tree[p]);
    WindowOfOne(order, tree[p].first);
    BoundsOfOne(xs, x);
    var t := MakeLeaf(xs, tree, p, x);
    forall i: nat | i < next ensures NodeBounded(xs, order, t[i]) {
      assert NodeBounded(xs, order, tree[i]);
    }
  }

  lemma LeafStructure(tree: seq<Node>, next: nat, n: nat, p: nat, leaf: Node)
    requires Structure(tree, next, n)
    requires p < next && tree[p].children == 0 && tree[p].first == tree[p].last
    requires leaf.first == tree[p].first && leaf.last == tree[p].last && leaf.children < 0
    ensures Structure(tree[p := leaf], next, n)
  {
    var t := tree[p := leaf];
    forall i: nat | i < next ensures Link(t, next, i) {
      assert Link(tree, next, i);
    }
    forall i: nat, j: nat | i < next && j < next ensures Nested(t, i, j) {
      assert Nested(tree, i, j);
    }
    OwedUpdate(tree, p, leaf, next);
  }

  lemma LeafExtends(tree: seq<Node>, next: nat, order: seq<nat>, p: nat, leaf: Node)
    requires next <= |tree| && Windows(tree, next, |order|) && p < next
    requires leaf.first == tree[p].first && leaf.last == tree[p].last && leaf.bounds == tree[p].bounds
    ensures Extends(tree, next, order, p, tree[p := leaf], next, order)
  {
  }

  lemma LeafOk(xs: seq<Extent>, tree: seq<Node>, next: nat, order: seq<nat>, p: nat)
    requires TreeOk(xs, tree, next, order)
    requires p < next && tree[p].children == 0 && tree[p].first == tree[p].last
    requires !IsEmpty(tree[p].bounds)
    ensures var t := MakeLeaf(xs, tree, p, order[tree[p].first]);
            TreeOk(xs, t, next, order) && Extends(tree, next, order, p, t, next, order)
  {
    hide Hull, IsPermutation, Laminar, Links, Owed;
    LeafBounded(xs, tree, next, order, p);
    var leaf := MakeLeaf(xs, tree, p, order[tree[p].first])[p];
    LeafStructure(tree, next, |xs|, p, leaf);
    LeafExtends(tree, next, order, p, leaf);
  }

  /** A built node's children share out its members. */
  lemma ChildrenCover(tree: seq<Node>, next: nat, order: seq<nat>, p: nat)
    requires next <= |tree| && Windows(tree, next, |order|)
    requires p < next && Link(tree, next, p) && tree[p].children > 0
    ensures var c := tree[p].children;
            Members(order, tree[p]) == Members(order, tree[c]) + Members(order, tree[c + 1])
  {
    var c := tree[p].children;
    forall x | x in Members(order, tree[p]) ensures x in Members(order, tree[c]) + Members(order, tree[c + 1]) {
      var k :| tree[p].first <= k <= tree[p].last && order[k] == x;
      if k <= tree[c].last {
        assert order[k] in Members(order, tree[c]);
      } else {
        assert order[k] in Members(order, tree[c + 1]);
      }
    }
  }

  /** The freshly made root encloses everything. */
  lemma RootOk(xs: seq<Extent>, tree: seq<Node>, bounds: Extent)
    requires |xs| > 0 && |tree| == 2 * |xs|
    requires tree[0] == Node(0, 0, |xs| - 1, bounds)
    requires bounds == Bounds(xs, Window(Identity(|xs|), 0, |xs| - 1))
    ensures TreeOk(xs, tree, 1, Identity(|xs|))
  {
    hide Hull;
    assert Owed(tree, 1) == Owed(tree, 0) + 2 * (|xs| - 1);
    assert Link(tree, 1, 0);
  }

  /** The root encloses every extent. */
  lemma RootMembers(xs: seq<Extent>, tree: seq<Node>, next: nat, order: seq<nat>)
    requires Mapped(xs, order) && Structure(tree, next, |xs|)
    ensures forall x: nat :: x in Members(order, tree[0]) <==> x < |xs|
  {
    PermutationFacts(order, |xs|);
    forall x: nat | x < |xs| ensures x in Members(order, tree[0]) {
      assert x in order;
      var k :| 0 <= k < |order| && order[k] == x;
      assert order[k] in Window(order, 0, |xs| - 1);
    }
  }

  /** The facts about a node that building or visiting it relies on. */
  lemma NodeFacts(xs: seq<Extent>, tree: seq<Node>, next: nat, order: seq<nat>, p: nat)
    requires TreeOk(xs, tree, next, order) && p < next
    ensures |order| == |xs| && |tree| == 2 * |xs| && next <= |tree|
    ensures forall k :: 0 <= k < |order| ==> order[k] < |xs|
    ensures tree[p].first <= tree[p].last < |order|
    ensures tree[p].children == 0 && tree[p].first < tree[p].last ==> next + 2 <= 2 * |xs| - 1
    ensures Windows(tree, next, |order|) && Link(tree, next, p) && NodeBounded(xs, order, tree[p])
  {
    if tree[p].children == 0 && tree[p].first < tree[p].last {
      RoomForTwo(tree, next, |xs|, p);
    }
  }
}
