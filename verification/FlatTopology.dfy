/** The flattened topology: a tree built level by level over the nodes, and the per-host process
    indices (core/src/CBTFTopology.cpp, BuildFlattenedTopology and AssignTopologyIndices). */
module FlatTopology {

  datatype TopologyNode = TopologyNode(hostname: string, children: seq<TopologyNode>)

  function LeavesOf(level: seq<TopologyNode>): seq<string> {
    if level == [] then [] else Leaves(level[0]) + LeavesOf(level[1..])
  }

  /** Hosts at the leaves, left to right. */
  function Leaves(n: TopologyNode): seq<string> {
    if n.children == [] then [n.hostname] else LeavesOf(n.children)
  }

  lemma {:induction false} LeavesConcat(a: seq<TopologyNode>, b: seq<TopologyNode>)
    ensures LeavesOf(a + b) == LeavesOf(a) + LeavesOf(b)
  {
    if a == [] {
      assert a + b == b;
    } else {
      assert (a + b)[1..] == a[1..] + b;
      LeavesConcat(a[1..], b);
    }
  }

  /** All leaves at depth d, 1 to fanout children at every inner node, each named after its first. */
  ghost predicate Uniform(n: TopologyNode, d: nat, fanout: nat) {
    if d == 0 then n.children == []
    else
      && 1 <= |n.children| <= fanout && n.hostname == n.children[0].hostname
      && forall i :: 0 <= i < |n.children| ==> Uniform(n.children[i], d - 1, fanout)
  }

  ghost predicate AllUniform(level: seq<TopologyNode>, d: nat, fanout: nat) {
    forall i :: 0 <= i < |level| ==> Uniform(level[i], d, fanout)
  }

  // ---------------------------------------------------------------- one level

  function Ceil(n: nat, f: nat): nat
    requires f > 0
  {
    n / f + if n % f != 0 then 1 else 0
  }

  /** Parents of groups of at most fanout consecutive nodes. */
  function Group(level: seq<TopologyNode>, fanout: nat): seq<TopologyNode>
    requires fanout > 0
  {
    if level == [] then []
    else
      var k := if fanout < |level| then fanout else |level|;
      [TopologyNode(level[0].hostname, level[..k])] + Group(level[k..], fanout)
  }

  lemma {:induction false} GroupFacts(level: seq<TopologyNode>, fanout: nat, d: nat)
    requires fanout > 0 && AllUniform(level, d, fanout)
    ensures AllUniform(Group(level, fanout), d + 1, fanout)
    ensures LeavesOf(Group(level, fanout)) == LeavesOf(level)
    decreases |level|
  {
    if level != [] {
      var k := if fanout < |level| then fanout else |level|;
      GroupFacts(level[k..], fanout, d);
      LeavesConcat(level[..k], level[k..]);
      assert level == level[..k] + level[k..];
      assert Uniform(TopologyNode(level[0].hostname, level[..k]), d + 1, fanout);
    }
  }

  lemma CeilStep(n: nat, f: nat)
    requires 0 < f < n
    ensures Ceil(n, f) == 1 + Ceil(n - f, f)
  {
    DivMod(n - f, f, (n - f) / f, (n - f) % f);
    DivMod(n, f, (n - f) / f + 1, (n - f) % f);
  }

  lemma DivMod(n: nat, f: nat, q: nat, r: nat)
    requires n == q * f + r && r < f
    ensures n / f == q && n % f == r
  {
    var k := n / f - q;
    assert k * f == (n / f) * f - q * f == r - n % f;
    SmallMultiple(k, f);
  }

  lemma SmallMultiple(k: int, f: int)
    requires -f < k * f < f
    ensures k == 0
  {
    if k > 0 {
      Scale(1, k, f);
      assert false;
    } else if k < 0 {
      assert false;
    }
  }

  lemma CeilSmall(n: nat, f: nat)
    requires 0 < n <= f
    ensures Ceil(n, f) == 1
  {
    if n == f {
      DivMod(n, f, 1, 0);
    } else {
      DivMod(n, f, 0, n);
    }
  }

  /** There are as many parents as the source computes. */
  lemma {:induction false} GroupSize(level: seq<TopologyNode>, fanout: nat)
    requires fanout > 0
    ensures |Group(level, fanout)| == Ceil(|level|, fanout)
    decreases |level|
  {
    if level != [] {
      if fanout < |level| {
        GroupSize(level[fanout..], fanout);
        CeilStep(|level|, fanout);
      } else {
        assert level[|level|..] == [];
        CeilSmall(|level|, fanout);
      }
    }
  }

  /** The i-th parent has the nodes from i * fanout on. */
  lemma {:induction false} GroupAt(level: seq<TopologyNode>, fanout: nat, i: nat, at: nat)
    requires fanout > 0 && at == i * fanout && at < |level|
    ensures |Group(level, fanout)| > i
    ensures var end := if at + fanout < |level| then at + fanout else |level|;
            Group(level, fanout)[i] == TopologyNode(level[at].hostname, level[at..end])
    decreases i, 1
  {
    if i > 0 {
      assert at - fanout == (i - 1) * fanout >= 0;
      GroupTail(level, fanout, i, at);
    }
  }

  lemma GroupTail(level: seq<TopologyNode>, fanout: nat, i: nat, at: nat)
    requires fanout > 0 && i > 0 && fanout <= at < |level| && at - fanout == (i - 1) * fanout
    ensures |Group(level, fanout)| > i
    ensures var end := if at + fanout < |level| then at + fanout else |level|;
            Group(level, fanout)[i] == TopologyNode(level[at].hostname, level[at..end])
    decreases i, 0
  {
    hide Group;
    var rest := level[fanout..];
    GroupMore(level, fanout);
    GroupAt(rest, fanout, i - 1, at - fanout);
    var end := if at + fanout < |level| then at + fanout else |level|;
    assert rest[at - fanout..end - fanout] == level[at..end];
  }

  lemma GroupMore(level: seq<TopologyNode>, fanout: nat)
    requires 0 < fanout < |level|
    ensures Group(level, fanout) == [TopologyNode(level[0].hostname, level[..fanout])] + Group(level[fanout..], fanout)
  {
  }

  method BuildLevel(oldLevel: seq<TopologyNode>, fanout: nat) returns (currLevel: seq<TopologyNode>)
    requires fanout > 0
    ensures currLevel == Group(oldLevel, fanout)
  {
    currLevel := [];
    var nNodesThisLevel := |oldLevel| / fanout;
    if |oldLevel| % fanout != 0 {
      nNodesThisLevel := nNodesThisLevel + 1;
    }
    GroupSize(oldLevel, fanout);
    for i := 0 to nNodesThisLevel
      invariant |currLevel| == i && currLevel == Group(oldLevel, fanout)[..i]
    {
      ParentHasChild(|oldLevel|, fanout, i);
      var children := [];
      var j := 0;
      while j < fanout
        invariant j <= fanout && i * fanout + j <= |oldLevel|
        invariant children == oldLevel[i * fanout..i * fanout + j]
      {
        if i * fanout + j < |oldLevel| {
          children := children + [oldLevel[i * fanout + j]];
        } else {
          break;
        }
        j := j + 1;
      }
      GroupAt(oldLevel, fanout, i, i * fanout);
      currLevel := currLevel + [TopologyNode(oldLevel[i * fanout].hostname, children)];
    }
  }

  lemma ParentHasChild(n: nat, f: nat, i: nat)
    requires f > 0 && i < Ceil(n, f)
    ensures i * f < n
  {
    assert (n / f) * f + n % f == n;
    if i < n / f {
      assert (i + 1) * f <= (n / f) * f;
      assert (i + 1) * f == i * f + f;
    }
  }

  // ---------------------------------------------------------------- the tree

  function Pow(b: nat, e: nat): nat {
    if e == 0 then 1 else b * Pow(b, e - 1)
  }

  /** s is n divided by f^k, rounded up. */
  ghost predicate CeilOfPow(n: nat, f: nat, k: nat, s: nat) {
    s >= 1 && (s - 1) * Pow(f, k) < n <= s * Pow(f, k)
  }

  lemma CeilBounds(m: nat, f: nat)
    requires m >= 1 && f >= 1
    ensures Ceil(m, f) >= 1 && (Ceil(m, f) - 1) * f < m <= Ceil(m, f) * f
  {
    assert (m / f) * f + m % f == m;
    if m % f != 0 {
      assert (m / f + 1) * f == (m / f) * f + f;
    } else {
      assert m / f >= 1;
      assert (m / f - 1) * f == (m / f) * f - f;
    }
  }

  lemma CeilTwice(n: nat, f: nat, k: nat, m: nat)
    requires f >= 1 && CeilOfPow(n, f, k, m)
    ensures CeilOfPow(n, f, k + 1, Ceil(m, f))
  {
    hide Ceil;
    var p, s := Pow(f, k), Ceil(m, f);
    CeilBounds(m, f);
    assert Pow(f, k + 1) == f * p;
    Scale((s - 1) * f, m - 1, p);
    Scale(m, s * f, p);
    Associate(s - 1, f, p);
    Associate(s, f, p);
  }

  lemma Scale(a: nat, b: nat, p: nat)
    requires a <= b
    ensures a * p <= b * p
  {
  }

  lemma Associate(a: nat, b: nat, c: nat)
    ensures (a * b) * c == a * (b * c)
  {
  }

  lemma CeilShrinks(m: nat, f: nat)
    requires m >= 2 && f >= 2
    ensures Ceil(m, f) < m
  {
    hide Ceil;
    CeilBounds(m, f);
    Scale(2, f, Ceil(m, f) - 1);
  }

  /** d is the least depth, at least 1, at which a tree of this fanout has room for n leaves. */
  ghost predicate LeastDepth(n: nat, f: nat, d: nat) {
    d >= 1 && n <= Pow(f, d) && forall e :: 1 <= e < d ==> Pow(f, e) < n
  }

  lemma {:induction false} PowGrows(f: nat, a: nat, b: nat)
    requires f >= 1 && a <= b
    ensures 1 <= Pow(f, a) <= Pow(f, b)
    decreases b
  {
    if a < b {
      PowGrows(f, a, b - 1);
      assert Pow(f, b) == f * Pow(f, b - 1) >= 1 * Pow(f, b - 1);
    } else if a > 0 {
      PowGrows(f, a - 1, a - 1);
      assert Pow(f, a) == f * Pow(f, a - 1) >= 1 * Pow(f, a - 1);
    }
  }

  lemma LastLevelIsLeast(n: nat, f: nat, d: nat, s: nat)
    requires f >= 1 && d >= 1 && CeilOfPow(n, f, d, 1)
    requires d == 1 || (s >= 2 && CeilOfPow(n, f, d - 1, s))
    ensures LeastDepth(n, f, d)
  {
    if d > 1 {
      Scale(1, s - 1, Pow(f, d - 1));
      forall e | 1 <= e < d
        ensures Pow(f, e) < n
      {
        PowGrows(f, e, d - 1);
      }
    }
  }

  function Tips(nodes: seq<string>): seq<TopologyNode> {
    seq(|nodes|, i requires 0 <= i < |nodes| => TopologyNode(nodes[i], []))
  }

  lemma {:induction false} TipsLeaves(nodes: seq<string>)
    ensures LeavesOf(Tips(nodes)) == nodes
  {
    if nodes != [] {
      TipsLeaves(nodes[1..]);
      assert Tips(nodes)[1..] == Tips(nodes[1..]);
    }
  }

  /** The loop over the levels ends for these arguments, and only for these: LevelsEndIff. */
  predicate LevelsEnd(n: nat, fanout: nat) {
    (fanout >= 2 && n >= 1) || (fanout == 1 && n == 1)
  }

  /** The tree before the root is given to the front end. */
  method BuildTree(fanout: nat, nodes: seq<string>) returns (root: TopologyNode, ghost d: nat)
    requires LevelsEnd(|nodes|, fanout)
    ensures LeastDepth(|nodes|, fanout, d) && Uniform(root, d, fanout) && Leaves(root) == nodes
  {
    hide Ceil, LeastDepth, Pow;
    var currLevel := [];
    for i := 0 to |nodes|
      invariant currLevel == Tips(nodes)[..i]
    {
      currLevel := currLevel + [TopologyNode(nodes[i], [])];
    }
    assert currLevel == Tips(nodes);
    TipsLeaves(nodes);
    PowZero(fanout, |nodes|);
    d := 0;
    var done := false;
    while !done
      invariant AllUniform(currLevel, d, fanout) && LeavesOf(currLevel) == nodes
      invariant CeilOfPow(|nodes|, fanout, d, |currLevel|)
      invariant done <==> d >= 1 && |currLevel| == 1
      invariant done ==> LeastDepth(|nodes|, fanout, d)
      invariant fanout == 1 ==> |currLevel| == 1
      decreases !done, |currLevel|, if d == 0 then 1 else 0
    {
      var oldLevel := currLevel;
      currLevel := BuildLevel(oldLevel, fanout);
      GroupFacts(oldLevel, fanout, d);
      GroupSize(oldLevel, fanout);
      CeilTwice(|nodes|, fanout, d, |oldLevel|);
      if |oldLevel| >= 2 {
        CeilShrinks(|oldLevel|, fanout);
      } else {
        CeilSmall(1, fanout);
      }
      d := d + 1;
      if |currLevel| == 1 {
        done := true;
        LastLevelIsLeast(|nodes|, fanout, d, |oldLevel|);
      }
    }
    root := currLevel[0];
    assert currLevel == [root] && LeavesOf([root]) == Leaves(root) + LeavesOf([]) == Leaves(root);
  }

  lemma PowZero(f: nat, n: nat)
    requires n >= 1
    ensures CeilOfPow(n, f, 0, n)
  {
  }

  // ---------------------------------------------------------------- when the loop ends

  /** Nodes in the level after k rounds. */
  function LevelSize(n: nat, fanout: nat, k: nat): nat
    requires fanout > 0
  {
    if k == 0 then n else Ceil(LevelSize(n, fanout, k - 1), fanout)
  }

  /** Some round of the loop leaves one node, exactly for the arguments of LevelsEnd. */
  lemma LevelsEndIff(n: nat, fanout: nat)
    requires fanout > 0
    ensures LevelsEnd(n, fanout) <==> exists k :: k >= 1 && LevelSize(n, fanout, k) == 1
  {
    hide Ceil;
    if LevelsEnd(n, fanout) {
      var k := Rounds(n, fanout);
      assert LevelSize(n, fanout, k) == 1;
    } else {
      forall k: nat
        ensures LevelSize(n, fanout, k) == n != 1
      {
        LevelStays(n, fanout, k);
      }
    }
  }

  lemma {:induction false} Rounds(n: nat, fanout: nat) returns (k: nat)
    requires LevelsEnd(n, fanout)
    ensures k >= 1 && LevelSize(n, fanout, k) == 1
    decreases n
  {
    if n == 1 {
      CeilSmall(1, fanout);
      assert LevelSize(1, fanout, 0) == 1;
      k := 1;
    } else {
      CeilShrinks(n, fanout);
      CeilBounds(n, fanout);
      k := Rounds(Ceil(n, fanout), fanout);
      LevelSizeShift(n, fanout, k);
      k := k + 1;
    }
  }

  lemma {:induction false} LevelSizeShift(n: nat, fanout: nat, k: nat)
    requires fanout > 0
    ensures LevelSize(n, fanout, k + 1) == LevelSize(Ceil(n, fanout), fanout, k)
  {
    hide Ceil;
    if k > 0 {
      LevelSizeShift(n, fanout, k - 1);
    } else {
      assert LevelSize(n, fanout, 0) == n;
    }
  }

  lemma {:induction false} LevelStays(n: nat, fanout: nat, k: nat)
    requires fanout == 1 || (fanout > 0 && n == 0)
    ensures LevelSize(n, fanout, k) == n
  {
    if k > 0 {
      LevelStays(n, fanout, k - 1);
    }
  }

  // ---------------------------------------------------------------- process indices

  function HostsOf(level: seq<TopologyNode>): seq<string> {
    if level == [] then [] else Hosts(level[0]) + HostsOf(level[1..])
  }

  /** Hosts of the processes, in the order in which they are numbered. */
  function Hosts(n: TopologyNode): seq<string> {
    [n.hostname] + HostsOf(n.children)
  }

  /** Reading a missing key of the map gives 0. */
  function Next(indexMap: map<string, nat>, h: string): nat {
    if h in indexMap then indexMap[h] else 0
  }

  function Numbered(hosts: seq<string>, indexMap: map<string, nat>): seq<nat> {
    if hosts == [] then []
    else [Next(indexMap, hosts[0])] + Numbered(hosts[1..], Bump(indexMap, hosts[0]))
  }

  function Bump(indexMap: map<string, nat>, h: string): map<string, nat> {
    indexMap[h := Next(indexMap, h) + 1]
  }

  function Bumped(hosts: seq<string>, indexMap: map<string, nat>): map<string, nat> {
    if hosts == [] then indexMap
    else Bumped(hosts[1..], Bump(indexMap, hosts[0]))
  }

  lemma {:induction false} NumberedConcat(a: seq<string>, b: seq<string>, m: map<string, nat>)
    ensures Numbered(a + b, m) == Numbered(a, m) + Numbered(b, Bumped(a, m))
    ensures Bumped(a + b, m) == Bumped(b, Bumped(a, m))
  {
    if a == [] {
      assert a + b == b;
    } else {
      assert (a + b)[1..] == a[1..] + b;
      NumberedConcat(a[1..], b, Bump(m, a[0]));
    }
  }

  /** Recursion over the tree, with the map passed along. */
  method AssignTopologyIndices(n: TopologyNode, indexMap0: map<string, nat>)
    returns (indices: seq<nat>, indexMap: map<string, nat>)
    ensures indices == Numbered(Hosts(n), indexMap0) && indexMap == Bumped(Hosts(n), indexMap0)
    decreases n
  {
    indexMap := indexMap0;
    indices := [Next(indexMap, n.hostname)];
    indexMap := Bump(indexMap, n.hostname);
    ghost var hosts := [n.hostname];
    assert hosts[1..] == [];
    for i := 0 to |n.children|
      invariant hosts + HostsOf(n.children[i..]) == Hosts(n)
      invariant indices == Numbered(hosts, indexMap0) && indexMap == Bumped(hosts, indexMap0)
    {
      var more;
      more, indexMap := AssignTopologyIndices(n.children[i], indexMap);
      indices := indices + more;
      NumberedConcat(hosts, Hosts(n.children[i]), indexMap0);
      assert n.children[i..][1..] == n.children[i + 1..];
      hosts := hosts + Hosts(n.children[i]);
    }
    assert hosts + [] == hosts;
  }

  /** Process i of the numbering is number i among the processes of its host. */
  lemma {:induction false} NumberIsRank(hosts: seq<string>, m: map<string, nat>, i: nat)
    requires i < |hosts|
    ensures |Numbered(hosts, m)| == |hosts|
    ensures Numbered(hosts, m)[i] == Next(m, hosts[i]) + multiset(hosts[..i])[hosts[i]]
  {
    var m1 := Bump(m, hosts[0]);
    if i > 0 {
      NumberIsRank(hosts[1..], m1, i - 1);
      assert hosts[..i] == [hosts[0]] + hosts[1..][..i - 1];
    } else if |hosts| > 1 {
      NumberIsRank(hosts[1..], m1, 0);
    }
  }

  /** Processes are told apart by host and index, and a host with k processes uses exactly 0..k-1. */
  ghost predicate ContiguousIndices(hosts: seq<string>, indices: seq<nat>) {
    && |indices| == |hosts|
    && (forall i, j :: 0 <= i < j < |hosts| && hosts[i] == hosts[j] ==> indices[i] < indices[j])
    && (forall i :: 0 <= i < |hosts| ==> indices[i] < multiset(hosts)[hosts[i]])
    && (forall h: string, v: nat {:trigger Uses(hosts, indices, h, v)} ::
          v < multiset(hosts)[h] ==> Uses(hosts, indices, h, v))
  }

  ghost predicate Uses(hosts: seq<string>, indices: seq<nat>, h: string, v: nat) {
    exists i: nat :: i < |hosts| && i < |indices| && hosts[i] == h && indices[i] == v
  }

  lemma {:induction false} FindRank(hosts: seq<string>, h: string, v: nat) returns (i: nat)
    requires v < multiset(hosts)[h]
    ensures i < |hosts| && hosts[i] == h && multiset(hosts[..i])[h] == v
  {
    var n := |hosts| - 1;
    assert hosts == hosts[..n] + [hosts[n]];
    if v < multiset(hosts[..n])[h] {
      i := FindRank(hosts[..n], h, v);
      assert hosts[..n][..i] == hosts[..i];
    } else {
      i := n;
    }
  }

  lemma CountGrows(hosts: seq<string>, i: nat, j: nat, h: string)
    requires i < j <= |hosts| && hosts[i] == h
    ensures multiset(hosts[..i])[h] < multiset(hosts[..j])[h]
  {
    assert hosts[..j] == hosts[..i] + [h] + hosts[i + 1..j];
  }

  /** Each index is the number of earlier processes on the same host. */
  ghost predicate Ranked(hosts: seq<string>, indices: seq<nat>) {
    |indices| == |hosts| && forall i :: 0 <= i < |hosts| ==> indices[i] == multiset(hosts[..i])[hosts[i]]
  }

  lemma NumberedIsRanked(hosts: seq<string>, m: map<string, nat>)
    requires forall h :: Next(m, h) == 0
    ensures Ranked(hosts, Numbered(hosts, m))
  {
    hide Next, Numbered;
    if hosts == [] {
      NumberedNothing(m);
    }
    forall i | 0 <= i < |hosts|
      ensures |Numbered(hosts, m)| == |hosts| && Numbered(hosts, m)[i] == multiset(hosts[..i])[hosts[i]]
    {
      NumberIsRank(hosts, m, i);
    }
    assert hosts != [] ==> hosts[0] == hosts[0];
  }

  lemma RankedIsContiguous(hosts: seq<string>, indices: seq<nat>)
    requires Ranked(hosts, indices)
    ensures ContiguousIndices(hosts, indices)
  {
    forall i | 0 <= i < |hosts|
      ensures indices[i] < multiset(hosts)[hosts[i]]
    {
      CountGrows(hosts, i, |hosts|, hosts[i]);
      assert hosts[..|hosts|] == hosts;
    }
    forall i, j | 0 <= i < j < |hosts| && hosts[i] == hosts[j]
      ensures indices[i] < indices[j]
    {
      CountGrows(hosts, i, j, hosts[i]);
    }
    forall h: string, v: nat | v < multiset(hosts)[h]
      ensures Uses(hosts, indices, h, v)
    {
      var i := FindRank(hosts, h, v);
      assert hosts[i] == h && indices[i] == v;
    }
  }

  lemma IndicesAreContiguous(hosts: seq<string>, m: map<string, nat>)
    requires forall h :: Next(m, h) == 0
    ensures ContiguousIndices(hosts, Numbered(hosts, m))
  {
    hide Next, Numbered, Ranked, ContiguousIndices;
    NumberedIsRanked(hosts, m);
    RankedIsContiguous(hosts, Numbered(hosts, m));
  }

  lemma RootIsFirst(root: TopologyNode, m: map<string, nat>)
    requires forall h :: Next(m, h) == 0
    ensures var hosts := Hosts(root); hosts[0] == root.hostname && Numbered(hosts, m)[0] == 0
  {
  }

  /** Processes below a node. */
  ghost function Size(n: TopologyNode): nat {
    1 + SizeOf(n.children)
  }

  ghost function SizeOf(level: seq<TopologyNode>): nat {
    if level == [] then 0 else Size(level[0]) + SizeOf(level[1..])
  }

  /** The numbering goes through a node before its children, and through one child and all below it before
      the next: those of child i come after the node and the children before it. */
  lemma {:induction false} Preorder(n: TopologyNode, i: nat)
    requires i < |n.children|
    ensures |Hosts(n)| == Size(n) && Hosts(n)[0] == n.hostname
    ensures var at := 1 + SizeOf(n.children[..i]);
            at + Size(n.children[i]) <= |Hosts(n)| && Hosts(n)[at..at + Size(n.children[i])] == Hosts(n.children[i])
  {
    var before, child, after := n.children[..i], n.children[i], n.children[i + 1..];
    assert n.children == before + ([child] + after);
    HostsConcat(before, [child] + after);
    assert ([child] + after)[1..] == after;
    HostsSize(n);
    HostsOfSize(before);
    HostsSize(child);
    var a, b, c := HostsOf(before), Hosts(child), HostsOf(after);
    assert Hosts(n) == [n.hostname] + (a + (b + c));
    assert Hosts(n)[1 + |a|..1 + |a| + |b|] == b;
  }

  lemma {:induction false} HostsConcat(a: seq<TopologyNode>, b: seq<TopologyNode>)
    ensures HostsOf(a + b) == HostsOf(a) + HostsOf(b)
  {
    if a == [] {
      assert a + b == b;
    } else {
      assert (a + b)[1..] == a[1..] + b;
      HostsConcat(a[1..], b);
    }
  }

  lemma {:induction false} HostsSize(n: TopologyNode)
    ensures |Hosts(n)| == Size(n)
  {
    HostsOfSize(n.children);
  }

  lemma {:induction false} HostsOfSize(level: seq<TopologyNode>)
    ensures |HostsOf(level)| == SizeOf(level)
  {
    if level != [] {
      HostsSize(level[0]);
      HostsOfSize(level[1..]);
    }
  }

  lemma NumberedNothing(m: map<string, nat>)
    ensures Numbered([], m) == []
  {
  }

  /** The tree below a root given to the front end. */
  ghost predicate FlatTree(root: TopologyNode, feHost: string, nodes: seq<string>, fanout: nat, d: nat) {
    && root.hostname == feHost && 1 <= |root.children| <= fanout
    && d >= 1 && AllUniform(root.children, d - 1, fanout) && Leaves(root) == nodes
  }

  method BuildFlattenedTopology(fanout: nat, feHost: string, nodes: seq<string>)
    returns (root: TopologyNode, indices: seq<nat>, ghost d: nat)
    requires LevelsEnd(|nodes|, fanout)
    requires forall i, j :: 0 <= i < j < |nodes| ==> nodes[i] != nodes[j]
    ensures FlatTree(root, feHost, nodes, fanout, d) && LeastDepth(|nodes|, fanout, d)
    ensures ContiguousIndices(Hosts(root), indices)
    ensures Hosts(root)[0] == feHost && indices[0] == 0
  {
    hide Numbered, ContiguousIndices, Hosts, Pow;
    var tree;
    tree, d := BuildTree(fanout, nodes);
    root := TopologyNode(feHost, tree.children);
    var indexMap: map<string, nat> := map[];
    for i := 0 to |nodes|
      invariant forall h :: h in indexMap ==> indexMap[h] == 0 && h in nodes[..i]
    {
      assert nodes[i] !in indexMap;
      indexMap := indexMap[nodes[i] := 0];
    }
    IndicesAreContiguous(Hosts(root), indexMap);
    RootIsFirst(root, indexMap);
    indices, indexMap := AssignTopologyIndices(root, indexMap);
  }
}
