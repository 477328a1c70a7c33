/** Partitioning a set of addresses at its widest gaps (core/src/SymbolTable.cpp). A std::set is
    its increasing enumeration; splitting it at an iterator is splitting that sequence. */
module AddressSets {

  import opened Extents
  import opened Sequences

  type Address = Word

  /** Bits of an AddressRange header: 8 * (sizeof(uint32_t) + 2 * sizeof(uint64_t)). */
  const CRITERIA: int := 160

  /** The gap between neighbours: an unsigned width minus one, stored in a signed 64-bit variable. */
  function Gap(prev: Address, current: Address): int
    requires prev < current
  {
    var g := current - prev - 1;
    if g < 0x8000_0000_0000_0000 then g else g - 0x1_0000_0000_0000_0000
  }

  /** Whether the partitioning ever separates these neighbours. */
  predicate Splits(prev: Address, current: Address)
    requires prev < current
  {
    Gap(prev, current) > CRITERIA
  }

  // ---------------------------------------------------------------- canonical clusters

  /** One pass from left to right: start a new cluster at every splitting gap. */
  function Clusters(s: seq<Address>): (cs: seq<seq<Address>>)
    requires Increasing(s)
    ensures s == [] <==> cs == []
    ensures s != [] ==> cs[0] != [] && cs[0][0] == s[0]
  {
    if s == [] then []
    else
      var rest := Clusters(s[1..]);
      Prepend(s[0], rest == [] || Splits(s[0], s[1]), rest)
  }

  /** An address put before the clusters, as a cluster of its own or in the first. */
  function Prepend(a: Address, alone: bool, rest: seq<seq<Address>>): seq<seq<Address>>
    requires alone || rest != []
  {
    if alone then [[a]] + rest else [[a] + rest[0]] + rest[1..]
  }

  lemma PrependConcat(a: Address, alone: bool, xs: seq<seq<Address>>, ys: seq<seq<Address>>)
    requires xs != []
    ensures Prepend(a, alone, xs + ys) == Prepend(a, alone, xs) + ys
  {
    assert (xs + ys)[1..] == xs[1..] + ys;
  }

  /** The gap just before position i splits. */
  ghost predicate CutAt(s: seq<Address>, i: int) {
    0 < i < |s| && s[i - 1] < s[i] && Splits(s[i - 1], s[i])
  }

  /** No gap inside splits. */
  ghost predicate Tight(s: seq<Address>) {
    forall i :: !CutAt(s, i)
  }

  lemma {:induction false} TightIsOneCluster(s: seq<Address>)
    requires Increasing(s) && s != [] && Tight(s)
    ensures Clusters(s) == [s]
  {
    if |s| == 1 {
      assert s[1..] == [] && s == [s[0]];
    } else {
      forall i ensures !CutAt(s[1..], i) {
        assert !CutAt(s, i + 1);
      }
      TightIsOneCluster(s[1..]);
      assert !CutAt(s, 1);
      assert s == [s[0]] + s[1..];
    }
  }

  /** Cutting at a splitting gap cuts between clusters, wherever the cut is made. */
  lemma {:induction false} ClustersSplit(s: seq<Address>, k: nat)
    requires Increasing(s) && CutAt(s, k)
    ensures Clusters(s) == Clusters(s[..k]) + Clusters(s[k..])
  {
    if k == 1 {
      ClustersSplitFirst(s);
    } else {
      hide Splits, Prepend;
      var left := s[..k];
      assert CutAt(s[1..], k - 1);
      assert s[1..][..k - 1] == left[1..] && s[1..][k - 1..] == s[k..];
      ClustersSplit(s[1..], k - 1);
      assert left[1] == s[1] && left[1..] != [];
      PrependConcat(s[0], Splits(s[0], s[1]), Clusters(left[1..]), Clusters(s[k..]));
    }
  }

  lemma ClustersSplitFirst(s: seq<Address>)
    requires Increasing(s) && CutAt(s, 1)
    ensures Clusters(s) == Clusters(s[..1]) + Clusters(s[1..])
  {
    hide Splits;
    var left := s[..1];
    assert left[1..] == [];
    assert Clusters(left) == [[s[0]]];
  }

  ghost predicate Run(c: seq<Address>) {
    c != [] && Increasing(c) && Tight(c)
  }

  /** Cluster i ends, and the next begins, at a splitting gap. */
  ghost predicate Boundary(cs: seq<seq<Address>>, i: int) {
    0 <= i < |cs| - 1 ==>
      var a, b := cs[i], cs[i + 1];
      a != [] && b != [] && a[|a| - 1] < b[0] && Splits(a[|a| - 1], b[0])
  }

  /** A list of clusters that partitions s into maximal tight runs, in order. */
  ghost predicate MaximalRuns(cs: seq<seq<Address>>, s: seq<Address>) {
    && Flatten(cs) == s
    && (forall i :: 0 <= i < |cs| ==> Run(cs[i]))
    && (forall i :: Boundary(cs, i))
  }

  /** The one-pass clusters are maximal tight runs. */
  lemma {:induction false} ClustersAreMaximalRuns(s: seq<Address>)
    requires Increasing(s)
    ensures MaximalRuns(Clusters(s), s)
  {
    if s != [] {
      var rest := Clusters(s[1..]);
      ClustersAreMaximalRuns(s[1..]);
      if rest == [] || Splits(s[0], s[1]) {
        NewRun(s, rest);
      } else {
        LongerRun(s, rest);
      }
    }
  }

  lemma NewRun(s: seq<Address>, rest: seq<seq<Address>>)
    requires Increasing(s) && s != [] && MaximalRuns(rest, s[1..])
    requires rest != [] ==> |s| > 1 && rest[0][0] == s[1] && Splits(s[0], s[1])
    ensures MaximalRuns([[s[0]]] + rest, s)
  {
    var cs := [[s[0]]] + rest;
    assert cs[1..] == rest && s == [s[0]] + s[1..];
    forall i ensures Boundary(cs, i) {
      assert Boundary(rest, i - 1);
    }
  }

  lemma LongerRun(s: seq<Address>, rest: seq<seq<Address>>)
    requires Increasing(s) && |s| > 1 && MaximalRuns(rest, s[1..])
    requires rest != [] && rest[0][0] == s[1] && !Splits(s[0], s[1])
    ensures MaximalRuns([[s[0]] + rest[0]] + rest[1..], s)
  {
    var c := [s[0]] + rest[0];
    var cs := [c] + rest[1..];
    assert cs[1..] == rest[1..] && s == [s[0]] + s[1..];
    assert Flatten(cs) == s;
    assert forall i :: 0 <= i < |c| ==> c[i] == s[i];
    assert Run(rest[0]);
    forall i ensures !CutAt(c, i) {
      assert !CutAt(rest[0], i - 1);
    }
    assert Run(c);
    assert forall i :: 1 <= i < |cs| ==> cs[i] == rest[i];
    forall i ensures Boundary(cs, i) {
      assert Boundary(rest, i);
    }
  }

  /** There is only one way to cut s into maximal tight runs. */
  lemma {:induction false} MaximalRunsUnique(cs: seq<seq<Address>>, s: seq<Address>)
    requires Increasing(s) && MaximalRuns(cs, s)
    ensures cs == Clusters(s)
  {
    hide Splits, Clusters, Tight;
    if cs == [] {
      assert Clusters(s) == [];
    } else if |cs| == 1 {
      assert Flatten(cs[1..]) == [];
      assert cs[0] == s;
      TightIsOneCluster(s);
    } else {
      var k := |cs[0]|;
      var tail := cs[1..];
      assert s == cs[0] + (tail[0] + Flatten(tail[1..]));
      assert s[..k] == cs[0] && s[k..] == Flatten(tail);
      assert Boundary(cs, 0) && Run(cs[0]);
      assert s[k] == tail[0][0] && s[k - 1] == cs[0][k - 1];
      forall i ensures Boundary(tail, i) {
        assert Boundary(cs, i + 1);
      }
      MaximalRunsUnique(tail, s[k..]);
      TightIsOneCluster(cs[0]);
      ClustersSplit(s, k);
    }
  }

  // ---------------------------------------------------------------- the worklist

  /** Position and size of the widest gap, by the signed measure; position 0 if none is positive. */
  method WidestGap(s: seq<Address>) returns (at: nat, widest: int)
    requires Increasing(s) && |s| > 1
    ensures 0 <= widest && at < |s|
    ensures at > 0 ==> widest == Gap(s[at - 1], s[at])
    ensures at == 0 ==> widest == 0
    ensures forall j :: 0 < j < |s| ==> Gap(s[j - 1], s[j]) <= widest
  {
    at, widest := 0, 0;
    for current := 1 to |s|
      invariant 0 <= widest && at < current
      invariant at > 0 ==> widest == Gap(s[at - 1], s[at])
      invariant at == 0 ==> widest == 0
      invariant forall j :: 0 < j < current ==> Gap(s[j - 1], s[j]) <= widest
    {
      var gap := Gap(s[current - 1], s[current]);
      if gap > widest {
        at, widest := current, gap;
      }
    }
  }

  ghost predicate AllIncreasing(queue: seq<seq<Address>>) {
    forall i :: 0 <= i < |queue| ==> Increasing(queue[i])
  }

  ghost function QueueClusters(queue: seq<seq<Address>>): multiset<seq<Address>>
    requires AllIncreasing(queue)
  {
    if queue == [] then multiset{} else multiset(Clusters(queue[0])) + QueueClusters(queue[1..])
  }

  /** Twice the addresses less one, for each queued set. */
  ghost function QueueWeight(queue: seq<seq<Address>>): nat {
    if queue == [] then 0
    else (if queue[0] == [] then 1 else 2 * |queue[0]| - 1) + QueueWeight(queue[1..])
  }

  lemma {:induction false} QueuePush(queue: seq<seq<Address>>, s: seq<Address>)
    requires AllIncreasing(queue) && Increasing(s)
    ensures AllIncreasing(queue + [s])
    ensures QueueClusters(queue + [s]) == QueueClusters(queue) + multiset(Clusters(s))
    ensures QueueWeight(queue + [s]) == QueueWeight(queue) + if s == [] then 1 else 2 * |s| - 1
  {
    hide Clusters;
    if queue == [] {
      assert queue + [s] == [s] && [s][1..] == [];
    } else {
      assert (queue + [s])[1..] == queue[1..] + [s];
      QueuePush(queue[1..], s);
    }
  }

  /** Replacing a queued set by its two sides of a splitting gap keeps the clusters. */
  lemma QueueSplit(queue: seq<seq<Address>>, s: seq<Address>, at: nat)
    requires AllIncreasing(queue) && Increasing(s) && CutAt(s, at)
    ensures AllIncreasing(queue + [s[..at]] + [s[at..]])
    ensures QueueClusters(queue + [s[..at]] + [s[at..]]) == QueueClusters(queue) + multiset(Clusters(s))
    ensures QueueWeight(queue + [s[..at]] + [s[at..]]) < QueueWeight(queue) + 2 * |s| - 1
  {
    hide Clusters;
    ClustersSplit(s, at);
    QueuePush(queue, s[..at]);
    QueuePush(queue + [s[..at]], s[at..]);
  }

  /** A set without a splitting gap is a cluster. */
  lemma NarrowIsCluster(s: seq<Address>, widest: int)
    requires Increasing(s) && s != [] && widest <= CRITERIA
    requires forall j :: 0 < j < |s| ==> Gap(s[j - 1], s[j]) <= widest
    ensures Tight(s) && Clusters(s) == [s]
  {
    TightIsOneCluster(s);
  }

  /** Sets already final, and the clusters of those still queued, make up all the clusters. */
  ghost predicate Accounted(addresses: seq<Address>, final: seq<seq<Address>>, queue: seq<seq<Address>>) {
    && Increasing(addresses) && AllIncreasing(queue)
    && multiset(final) + QueueClusters(queue) == multiset(Clusters(addresses))
  }

  lemma AccountStart(addresses: seq<Address>)
    requires Increasing(addresses)
    ensures Accounted(addresses, [], [addresses])
  {
    hide Clusters;
    var queue := [addresses];
    assert queue[1..] == [];
    assert QueueClusters(queue) == multiset(Clusters(addresses)) + QueueClusters([]);
  }

  /** What handling the front of the queue may rely on. */
  lemma AccountFront(addresses: seq<Address>, final: seq<seq<Address>>, queue: seq<seq<Address>>)
    requires Accounted(addresses, final, queue) && queue != []
    ensures Increasing(queue[0])
    ensures queue[0] == [] ==> Accounted(addresses, final, queue[1..])
    ensures QueueWeight(queue[1..]) < QueueWeight(queue)
  {
  }

  lemma AccountSplit(addresses: seq<Address>, final: seq<seq<Address>>, queue: seq<seq<Address>>, at: nat)
    requires Accounted(addresses, final, queue) && queue != [] && CutAt(queue[0], at)
    ensures var queue' := queue[1..] + [queue[0][..at]] + [queue[0][at..]];
            Accounted(addresses, final, queue') && QueueWeight(queue') < QueueWeight(queue)
  {
    hide Clusters;
    QueueSplit(queue[1..], queue[0], at);
  }

  lemma AccountKeep(addresses: seq<Address>, final: seq<seq<Address>>, queue: seq<seq<Address>>, widest: int)
    requires Accounted(addresses, final, queue) && queue != [] && queue[0] != [] && widest <= CRITERIA
    requires forall j :: 0 < j < |queue[0]| ==> Gap(queue[0][j - 1], queue[0][j]) <= widest
    ensures Accounted(addresses, final + [queue[0]], queue[1..])
  {
    hide Clusters;
    NarrowIsCluster(queue[0], widest);
  }

  lemma AccountEnd(addresses: seq<Address>, final: seq<seq<Address>>)
    requires Accounted(addresses, final, [])
    ensures multiset(final) == multiset(Clusters(addresses))
  {
  }

  /** Whatever order the widest gaps are found in, the result is a permutation of the
      one-pass clusters. */
  method PartitionAddressSet(addresses: seq<Address>) returns (result: seq<seq<Address>>)
    requires Increasing(addresses)
    ensures multiset(result) == multiset(Clusters(addresses))
  {
    hide Accounted, QueueWeight;
    result := [];
    var queue := [addresses];
    AccountStart(addresses);
    while queue != []
      invariant Accounted(addresses, result, queue)
      decreases QueueWeight(queue)
    {
      var s := queue[0];
      AccountFront(addresses, result, queue);
      if |s| == 0 {
        queue := queue[1..];
        continue;
      }
      if |s| == 1 {
        AccountKeep(addresses, result, queue, 0);
        result, queue := result + [s], queue[1..];
        continue;
      }
      var at, widest := WidestGap(s);
      if widest > CRITERIA {
        WidestCuts(s, at, widest);
        AccountSplit(addresses, result, queue, at);
        queue := queue[1..] + [s[..at]] + [s[at..]];
      } else {
        AccountKeep(addresses, result, queue, widest);
        result, queue := result + [s], queue[1..];
      }
    }
    AccountEnd(addresses, result);
  }

  lemma WidestCuts(s: seq<Address>, at: nat, widest: int)
    requires Increasing(s) && at < |s| && widest > CRITERIA
    requires at > 0 ==> widest == Gap(s[at - 1], s[at])
    requires at == 0 ==> widest == 0
    ensures CutAt(s, at)
  {
  }

  // ---------------------------------------------------------------- what the clusters are like

  /** a and b stand next to each other in s. */
  ghost predicate Neighbours(s: seq<Address>, a: Address, b: Address) {
    exists i :: 0 < i < |s| && s[i - 1] == a && s[i] == b
  }

  lemma {:induction false} NeighboursInCluster(cs: seq<seq<Address>>, k: nat, a: Address, b: Address)
    requires k < |cs| && Neighbours(cs[k], a, b)
    ensures Neighbours(Flatten(cs), a, b)
  {
    var s := Flatten(cs);
    if k == 0 {
      var i :| 0 < i < |cs[0]| && cs[0][i - 1] == a && cs[0][i] == b;
      assert s[i - 1] == a && s[i] == b;
    } else {
      NeighboursInCluster(cs[1..], k - 1, a, b);
      var i :| 0 < i < |Flatten(cs[1..])| && Flatten(cs[1..])[i - 1] == a && Flatten(cs[1..])[i] == b;
      var j := i + |cs[0]|;
      assert s[j - 1] == a && s[j] == b;
    }
  }

  /** Neighbours that never split end up in one cluster. */
  lemma {:induction false} NeighboursStay(s: seq<Address>, i: nat) returns (k: nat)
    requires Increasing(s) && 0 < i < |s| && !Splits(s[i - 1], s[i])
    ensures k < |Clusters(s)| && Neighbours(Clusters(s)[k], s[i - 1], s[i])
  {
    var rest := Clusters(s[1..]);
    var cs := Clusters(s);
    if i == 1 {
      k := 0;
      assert cs[0][0] == s[0] && cs[0][1] == s[1];
    } else {
      assert s[1..][i - 2] == s[i - 1] && s[1..][i - 1] == s[i];
      var j := NeighboursStay(s[1..], i - 1);
      if Splits(s[0], s[1]) {
        k := j + 1;
      } else {
        k := j;
        if j == 0 {
          var m :| 0 < m < |rest[0]| && rest[0][m - 1] == s[i - 1] && rest[0][m] == s[i];
          assert cs[0] == [s[0]] + rest[0];
          assert cs[0][m + 1 - 1] == s[i - 1] && cs[0][m + 1] == s[i];
        }
      }
    }
  }

  /** The unsigned distances that fit the signed gap variable. */
  ghost predicate NoHugeGap(s: seq<Address>) {
    forall a: Address, b: Address :: Neighbours(s, a, b) && a < b ==> b - a - 1 < 0x8000_0000_0000_0000
  }

  /** What the comment on the function promises of each set: no gap wider than the criteria. */
  ghost predicate Compact(c: seq<Address>) {
    forall a: Address, b: Address :: Neighbours(c, a, b) && a < b ==> b - a - 1 <= CRITERIA
  }

  lemma CompactIfNoHugeGap(s: seq<Address>, k: nat)
    requires Increasing(s) && NoHugeGap(s) && k < |Clusters(s)|
    ensures Compact(Clusters(s)[k])
  {
    hide Clusters, Neighbours, NoHugeGap, Run, Flatten;
    var cs := Clusters(s);
    ClustersAreMaximalRuns(s);
    forall a: Address, b: Address | Neighbours(cs[k], a, b) && a < b ensures b - a - 1 <= CRITERIA {
      NeighboursInCluster(cs, k, a, b);
      CloseInRun(s, cs[k], a, b);
    }
  }

  lemma CloseInRun(s: seq<Address>, c: seq<Address>, a: Address, b: Address)
    requires NoHugeGap(s) && Run(c) && Neighbours(s, a, b) && Neighbours(c, a, b) && a < b
    ensures b - a - 1 <= CRITERIA
  {
    var i :| 0 < i < |c| && c[i - 1] == a && c[i] == b;
    assert !CutAt(c, i);
  }

  /** Every resulting set is compact exactly when no two neighbouring addresses are more than
      2^63 apart: a wider gap is negative in the signed variable and is never split. */
  lemma CompactIff(s: seq<Address>)
    requires Increasing(s)
    ensures (forall k :: 0 <= k < |Clusters(s)| ==> Compact(Clusters(s)[k])) <==> NoHugeGap(s)
  {
    hide Clusters;
    if NoHugeGap(s) {
      forall k | 0 <= k < |Clusters(s)| ensures Compact(Clusters(s)[k]) {
        CompactIfNoHugeGap(s, k);
      }
    } else {
      var a: Address, b: Address :| Neighbours(s, a, b) && a < b && b - a - 1 >= 0x8000_0000_0000_0000;
      var i :| 0 < i < |s| && s[i - 1] == a && s[i] == b;
      var k := NeighboursStay(s, i);
      assert !Compact(Clusters(s)[k]);
    }
  }

  /** Two addresses 2^63 + 1 apart stay in one set. */
  lemma HugeGapIsKept()
    ensures Clusters([0, 0x8000_0000_0000_0001]) == [[0, 0x8000_0000_0000_0001]]
  {
    var s: seq<Address> := [0, 0x8000_0000_0000_0001];
    assert Increasing(s);
    TightIsOneCluster(s);
  }

  /** From the first to the last address of a set. */
  function Span(c: seq<Address>): int {
    if c == [] then 0 else c[|c| - 1] as int - c[0] as int + 1
  }

  lemma {:induction false} CompactSpan(c: seq<Address>)
    requires Increasing(c) && c != [] && Compact(c)
    ensures Span(c) <= 161 * |c| - 160
  {
    if |c| > 1 {
      var front := c[..|c| - 1];
      forall a: Address, b: Address | Neighbours(front, a, b) && a < b ensures b - a - 1 <= CRITERIA {
        var i :| 0 < i < |front| && front[i - 1] == a && front[i] == b;
        assert c[i - 1] == a && c[i] == b;
        assert Neighbours(c, a, b);
      }
      CompactSpan(front);
      assert Neighbours(c, c[|c| - 2], c[|c| - 1]) by {
        var i := |c| - 1;
        assert c[i - 1] == c[|c| - 2];
      }
    }
  }

  lemma {:induction false} SpansBounded(cs: seq<seq<Address>>)
    requires forall k :: 0 <= k < |cs| ==> Increasing(cs[k]) && cs[k] != [] && Compact(cs[k])
    ensures SumBy(Span, cs) <= 161 * |Flatten(cs)|
  {
    if cs != [] {
      CompactSpan(cs[0]);
      SpansBounded(cs[1..]);
    }
  }

  /** The bitmaps needed for a partition, in bits: at most 161 per address. */
  lemma TotalSpan(s: seq<Address>, result: seq<seq<Address>>)
    requires Increasing(s) && NoHugeGap(s) && multiset(result) == multiset(Clusters(s))
    ensures SumBy(Span, result) <= 161 * |s|
  {
    ClustersAreMaximalRuns(s);
    forall k | 0 <= k < |Clusters(s)| ensures Run(Clusters(s)[k]) && Compact(Clusters(s)[k]) {
      CompactIfNoHugeGap(s, k);
    }
    SpansBounded(Clusters(s));
    SumByPermutation(Span, result, Clusters(s));
  }

  /** One set lies entirely below the other. */
  ghost predicate Below(a: seq<Address>, b: seq<Address>) {
    a != [] && b != [] && (a[|a| - 1] < b[0] || b[|b| - 1] < a[0])
  }

  lemma {:induction false} FlattenAt(cs: seq<seq<Address>>, k: nat, i: nat) returns (p: nat)
    requires k < |cs| && i < |cs[k]|
    ensures p < |Flatten(cs)| && Flatten(cs)[p] == cs[k][i]
    ensures k > 0 ==> p >= |cs[0]|
    ensures k == 0 ==> p == i
  {
    if k == 0 {
      p := i;
    } else {
      var q := FlattenAt(cs[1..], k - 1, i);
      p := q + |cs[0]|;
    }
  }

  lemma {:induction false} ClustersOrdered(cs: seq<seq<Address>>, i: nat, j: nat)
    requires i < j < |cs| && Increasing(Flatten(cs)) && cs[i] != [] && cs[j] != []
    ensures cs[i][|cs[i]| - 1] < cs[j][0]
  {
    if i == 0 {
      var p := FlattenAt(cs, 0, |cs[0]| - 1);
      var q := FlattenAt(cs, j, 0);
    } else {
      var tail := Flatten(cs[1..]);
      assert forall m :: 0 <= m < |tail| ==> tail[m] == Flatten(cs)[m + |cs[0]|];
      ClustersOrdered(cs[1..], i - 1, j - 1);
    }
  }

  /** The resulting sets occupy pairwise disjoint ranges. */
  lemma DisjointSpans(s: seq<Address>, result: seq<seq<Address>>)
    requires Increasing(s) && multiset(result) == multiset(Clusters(s))
    ensures Pairwise(Below, result)
  {
    var cs := Clusters(s);
    ClustersAreMaximalRuns(s);
    forall i, j | 0 <= i < |cs| && 0 <= j < |cs| && i != j ensures Below(cs[i], cs[j]) {
      assert Run(cs[i]) && Run(cs[j]);
      if i < j {
        ClustersOrdered(cs, i, j);
      } else {
        ClustersOrdered(cs, j, i);
      }
    }
    PairwisePermutation(Below, result, cs);
  }

  /** The resulting sets hold exactly the given addresses. */
  lemma CoversExactly(s: seq<Address>, result: seq<seq<Address>>, a: Address)
    requires Increasing(s) && multiset(result) == multiset(Clusters(s))
    ensures a in s <==> exists k :: 0 <= k < |result| && a in result[k]
  {
    var cs := Clusters(s);
    ClustersAreMaximalRuns(s);
    FlattenMembers(cs, a);
    if a in s {
      var k :| 0 <= k < |cs| && a in cs[k];
      assert cs[k] in multiset(result);
    }
    if k :| 0 <= k < |result| && a in result[k] {
      assert result[k] in multiset(cs);
    }
  }

  lemma {:induction false} FlattenMembers(cs: seq<seq<Address>>, a: Address)
    ensures a in Flatten(cs) <==> exists k :: 0 <= k < |cs| && a in cs[k]
  {
    if cs != [] {
      FlattenMembers(cs[1..], a);
      if a in Flatten(cs[1..]) {
        var k :| 0 <= k < |cs[1..]| && a in cs[1..][k];
        assert a in cs[k + 1];
      }
      if k :| 0 <= k < |cs| && a in cs[k] {
        if k > 0 {
          assert a in cs[1..][k - 1];
        }
      }
    }
  }

  // ---------------------------------------------------------------- who stays together

  ghost predicate Together(result: seq<seq<Address>>, a: Address, b: Address) {
    exists k :: 0 <= k < |result| && a in result[k] && b in result[k]
  }

  lemma SplitsIff(a: Address, b: Address)
    requires a < b
    ensures Splits(a, b) <==> 160 < b - a - 1 < 0x8000_0000_0000_0000
  {
  }

  /** Nothing lies between neighbours of s, so they are neighbours in a cluster that holds both. */
  lemma NoneBetween(s: seq<Address>, i: nat, c: seq<Address>)
    requires Increasing(s) && 0 < i < |s| && Increasing(c) && s[i - 1] in c && s[i] in c
    requires forall x: Address :: x in c ==> x in s
    ensures Neighbours(c, s[i - 1], s[i])
  {
    var p :| 0 <= p < |c| && c[p] == s[i - 1];
    var q :| 0 <= q < |c| && c[q] == s[i];
    forall x: Address | x in c && s[i - 1] < x
      ensures s[i] <= x
    {
      var j :| 0 <= j < |s| && s[j] == x;
    }
    assert p < q && c[p + 1] in c;
    assert c[q - 1] == s[i - 1];
  }

  lemma RunDoesNotSplit(cs: seq<seq<Address>>, s: seq<Address>, j: nat, i: nat)
    requires Increasing(s) && MaximalRuns(cs, s) && 0 < i < |s| && j < |cs| && s[i - 1] in cs[j] && s[i] in cs[j]
    ensures !Splits(s[i - 1], s[i])
  {
    hide Splits;
    var c := cs[j];
    forall x: Address | x in c
      ensures x in s
    {
      FlattenMembers(cs, x);
    }
    assert Run(c);
    NoneBetween(s, i, c);
    var m :| 0 < m < |c| && c[m - 1] == s[i - 1] && c[m] == s[i];
    assert !CutAt(c, m);
  }

  /** Of the set the addresses are given in, two neighbours end up in one result exactly if no more than
      160 addresses lie between them, or so many that the signed difference is negative. */
  lemma TogetherIff(s: seq<Address>, result: seq<seq<Address>>, i: nat)
    requires Increasing(s) && multiset(result) == multiset(Clusters(s)) && 0 < i < |s|
    ensures Together(result, s[i - 1], s[i])
            <==> s[i] - s[i - 1] - 1 <= 160 || s[i] - s[i - 1] - 1 >= 0x8000_0000_0000_0000
  {
    hide Clusters, Splits, MaximalRuns;
    var cs, a, b := Clusters(s), s[i - 1], s[i];
    SplitsIff(a, b);
    ClustersAreMaximalRuns(s);
    if Together(result, a, b) {
      var k :| 0 <= k < |result| && a in result[k] && b in result[k];
      assert result[k] in multiset(cs);
      var j :| 0 <= j < |cs| && cs[j] == result[k];
      RunDoesNotSplit(cs, s, j, i);
    }
    if !Splits(a, b) {
      var k := NeighboursStay(s, i);
      assert cs[k] in multiset(result);
      var m :| 0 < m < |cs[k]| && cs[k][m - 1] == a && cs[k][m] == b;
      var j :| 0 <= j < |result| && result[j] == cs[k];
    }
  }
}
