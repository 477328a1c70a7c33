/** The layers createTopology computes when none are given (CBTFTopology.cpp). */
module TopologySpec {
  import FlatTopology
  import opened TopologyFile

  // ---------------------------------------------------------------- depth and fanout

  /** f is the d-th root of n, rounded up. */
  ghost predicate CeilRoot(n: nat, d: nat, f: nat) {
    n <= FlatTopology.Pow(f, d) && forall g: nat :: g < f ==> FlatTopology.Pow(g, d) < n
  }

  lemma {:induction false} PowMonotone(a: nat, b: nat, d: nat)
    requires a <= b
    ensures FlatTopology.Pow(a, d) <= FlatTopology.Pow(b, d)
  {
    if d > 0 {
      PowMonotone(a, b, d - 1);
      FlatTopology.Scale(a, b, FlatTopology.Pow(a, d - 1));
      FlatTopology.Scale(FlatTopology.Pow(a, d - 1), FlatTopology.Pow(b, d - 1), b);
    }
  }

  lemma PowAtLeast(f: nat, d: nat)
    requires d >= 1
    ensures f <= FlatTopology.Pow(f, d)
  {
    if f > 0 {
      FlatTopology.PowGrows(f, 1, d);
    }
  }

  /** ceil(pow(n, 1 / d)), searched for from f on. */
  function Root(n: nat, d: nat, f: nat): (r: nat)
    requires d >= 1 && forall g: nat :: g < f ==> FlatTopology.Pow(g, d) < n
    ensures CeilRoot(n, d, r)
    decreases n - f
  {
    PowAtLeast(f, d);
    if n <= FlatTopology.Pow(f, d) then f else Root(n, d, f + 1)
  }

  lemma RootFitsIff(n: nat, d: nat, f: nat, limit: nat)
    requires CeilRoot(n, d, f)
    ensures f <= limit <==> n <= FlatTopology.Pow(limit, d)
  {
    if f <= limit {
      PowMonotone(f, limit, d);
    }
  }

  const DEPTHS: nat := 1024

  /** The fanout is within the limit exactly when some depth below 1024 has room for the nodes under
      it, and then the depth is the least such. Room for the nodes there is in any case. */
  method ChooseDepth(numNodes: nat, maxFanout: nat) returns (depth: nat, fanout: nat)
    ensures 1 <= depth <= DEPTHS && numNodes <= FlatTopology.Pow(fanout, depth)
    ensures fanout <= maxFanout <==> numNodes <= FlatTopology.Pow(maxFanout, DEPTHS - 1)
    ensures fanout <= maxFanout ==> FlatTopology.LeastDepth(numNodes, maxFanout, depth)
    ensures fanout <= maxFanout ==> CeilRoot(numNodes, depth, fanout)
    ensures fanout > maxFanout ==> depth == DEPTHS && CeilRoot(numNodes, depth - 1, fanout)
  {
    hide CeilRoot, FlatTopology.Pow;
    depth, fanout := 1, 0;
    while depth < DEPTHS
      invariant 1 <= depth <= DEPTHS
      invariant depth > 1 ==> CeilRoot(numNodes, depth - 1, fanout) && fanout > maxFanout
      invariant forall e :: 1 <= e < depth ==> FlatTopology.Pow(maxFanout, e) < numNodes
    {
      fanout := Root(numNodes, depth, 0);
      RootFitsIff(numNodes, depth, fanout, maxFanout);
      if fanout <= maxFanout {
        RootFits(numNodes, depth, fanout);
        RoomLater(numNodes, maxFanout, depth, DEPTHS - 1);
        return;
      }
      depth := depth + 1;
    }
    RootFits(numNodes, depth - 1, fanout);
    RoomLater(numNodes, fanout, depth - 1, depth);
  }

  lemma RootFits(n: nat, d: nat, f: nat)
    requires CeilRoot(n, d, f)
    ensures n <= FlatTopology.Pow(f, d)
  {
  }

  lemma RoomLater(n: nat, f: nat, d: nat, e: nat)
    requires 1 <= d <= e && n <= FlatTopology.Pow(f, d)
    ensures n <= FlatTopology.Pow(f, e)
  {
    if f > 0 {
      FlatTopology.PowGrows(f, d, e);
    }
  }

  /** Depth and fanout from what the environment asks for: zero stands for no wish. */
  method ChooseShape(attach: bool, wantedDepth: nat, wantedFanout: nat, numNodes: nat)
    returns (depth: nat, fanout: nat)
    ensures depth >= 1 && (!attach ==> depth == (if wantedDepth < 2 then 2 else wantedDepth) + 1 && fanout > 0)
    ensures attach && wantedDepth == 0 ==>
              && numNodes <= FlatTopology.Pow(fanout, depth)
              && (fanout <= wantedFanout <==> numNodes <= FlatTopology.Pow(wantedFanout, DEPTHS - 1))
              && (fanout <= wantedFanout ==> FlatTopology.LeastDepth(numNodes, wantedFanout, depth))
    ensures attach && wantedDepth > 0 ==> depth == wantedDepth && fanout == wantedFanout
    ensures !attach ==> fanout == if wantedFanout == 0 then 32 else wantedFanout
  {
    hide FlatTopology.Pow;
    var desiredDepth, desiredMaxFanout := wantedDepth, wantedFanout;
    if !attach {
      if desiredDepth < 2 {
        desiredDepth := 2;
      }
      if desiredMaxFanout == 0 {
        desiredMaxFanout := 32;
      }
    }
    depth, fanout := desiredDepth, desiredMaxFanout;
    if desiredDepth == 0 {
      depth, fanout := ChooseDepth(numNodes, desiredMaxFanout);
    }
    if !attach {
      depth := depth + 1;
    }
  }

  // ---------------------------------------------------------------- layers

  /** Layers of fanout, fanout^2 and so on: for back ends that attach to the tree. */
  function Powers(fanout: nat, depth: nat): seq<nat> {
    if depth == 0 then [] else Powers(fanout, depth - 1) + [FlatTopology.Pow(fanout, depth)]
  }

  method AttachSpec(fanout: nat, desiredDepth: nat) returns (layers: seq<nat>, procsNeeded: nat)
    ensures layers == Powers(fanout, desiredDepth) && procsNeeded == Total(layers)
  {
    layers, procsNeeded := [], 0;
    for i := 0 to desiredDepth
      invariant layers == Powers(fanout, i) && procsNeeded == Total(layers)
    {
      var val := FlatTopology.Pow(fanout, i + 1);
      TotalConcat(layers, [val]);
      layers, procsNeeded := layers + [val], procsNeeded + val;
    }
  }

  lemma {:induction false} PowersAre(fanout: nat, depth: nat)
    ensures |Powers(fanout, depth)| == depth
    ensures forall i :: 0 <= i < depth ==> Powers(fanout, depth)[i] == FlatTopology.Pow(fanout, i + 1)
  {
    if depth > 0 {
      PowersAre(fanout, depth - 1);
    }
  }

  lemma PowersNoGap(fanout: nat, depth: nat)
    ensures NoGap(Powers(fanout, depth))
  {
    PowersAre(fanout, depth);
    if fanout > 0 {
      forall i | 0 <= i < depth
        ensures Powers(fanout, depth)[i] > 0
      {
        FlatTopology.PowGrows(fanout, 0, i + 1);
      }
    }
  }

  /** Counts of the first i of depth levels: groups of nodes, and the back ends last. */
  function NodeCounts(numNodes: nat, fanout: nat, numBE: nat, depth: nat, i: nat): seq<nat>
    requires fanout > 0
  {
    if i == 0 then []
    else NodeCounts(numNodes, fanout, numBE, depth, i - 1)
         + [if i > 1 && i == depth then numBE else FlatTopology.Ceil(numNodes, fanout)]
  }

  /** The counts as they are written: after the first, only those that are not zero. */
  function Spoken(counts: seq<nat>): seq<nat> {
    if counts == [] then []
    else
      var n := |counts| - 1;
      Spoken(counts[..n]) + if n == 0 || counts[n] > 0 then [counts[n]] else []
  }

  method Speak(counts: seq<nat>) returns (layers: seq<nat>)
    ensures layers == Spoken(counts) && Total(layers) == Total(counts)
  {
    layers := [];
    for k := 0 to |counts|
      invariant layers == Spoken(counts[..k]) && Total(layers) == Total(counts[..k])
    {
      assert counts[..k + 1][..k] == counts[..k] && counts[..k + 1] == counts[..k] + [counts[k]];
      TotalConcat(counts[..k], [counts[k]]);
      TotalConcat(layers, [counts[k]]);
      if k == 0 {
        layers := layers + [counts[k]];
      } else if counts[k] > 0 {
        layers := layers + [counts[k]];
      }
    }
    assert counts[..|counts|] == counts;
  }

  /** For back ends started by the tool. */
  method StartSpec(numNodes: nat, fanout: nat, numBE: nat, desiredDepth: nat)
    returns (layers: seq<nat>, procsNeeded: nat)
    requires fanout > 0
    ensures layers == Spoken(NodeCounts(numNodes, fanout, numBE, desiredDepth, desiredDepth))
    ensures procsNeeded == Total(layers)
  {
    var nodecount := [];
    procsNeeded := 0;
    for i := 1 to desiredDepth + 1
      invariant nodecount == NodeCounts(numNodes, fanout, numBE, desiredDepth, i - 1) && procsNeeded == Total(nodecount)
    {
      var val := numNodes / fanout;
      if numNodes % fanout > 0 {
        val := val + 1;
      }
      if i > 1 && i == desiredDepth {
        val := numBE;
      }
      TotalConcat(nodecount, [val]);
      nodecount, procsNeeded := nodecount + [val], procsNeeded + val;
    }
    layers := Speak(nodecount);
  }

  lemma {:induction false} SpokenPositive(counts: seq<nat>)
    requires counts != []
    ensures Spoken(counts) != [] && Spoken(counts)[0] == counts[0]
    ensures forall i :: 0 < i < |Spoken(counts)| ==> Spoken(counts)[i] > 0
    ensures |Spoken(counts)| == 1 <==> forall i :: 0 < i < |counts| ==> counts[i] == 0
  {
    var n := |counts| - 1;
    if n > 0 {
      SpokenPositive(counts[..n]);
    } else {
      assert Spoken(counts[..0]) == [];
    }
  }

  lemma SpokenNoGapIff(counts: seq<nat>)
    ensures NoGap(Spoken(counts)) <==> counts == [] || counts[0] > 0 || forall i :: 0 < i < |counts| ==> counts[i] == 0
  {
    hide Spoken;
    var layers := Spoken(counts);
    if counts == [] {
      NothingSpoken();
    } else {
      SpokenPositive(counts);
      if |layers| > 1 {
        assert layers[1] > 0;
      }
    }
  }

  lemma NothingSpoken()
    ensures Spoken([]) == []
  {
  }

  lemma {:induction false} CountsAre(numNodes: nat, fanout: nat, numBE: nat, depth: nat, i: nat)
    requires fanout > 0
    ensures |NodeCounts(numNodes, fanout, numBE, depth, i)| == i
    ensures forall k :: 0 <= k < i ==>
              NodeCounts(numNodes, fanout, numBE, depth, i)[k]
              == if k > 0 && k + 1 == depth then numBE else FlatTopology.Ceil(numNodes, fanout)
  {
    hide FlatTopology.Ceil;
    if i > 0 {
      CountsAre(numNodes, fanout, numBE, depth, i - 1);
    }
  }

  /** A specification computed for attaching back ends is always written as a tree, and one computed
      for started back ends exactly unless there are back ends below a layer of no nodes. */
  lemma ComputedTreeIff(numNodes: nat, fanout: nat, numBE: nat, depth: nat)
    ensures NoGap(Powers(fanout, depth))
    ensures fanout > 0 ==>
              (NoGap(Spoken(NodeCounts(numNodes, fanout, numBE, depth, depth)))
               <==> numNodes > 0 || numBE == 0 || depth < 2)
  {
    hide NodeCounts, Spoken;
    PowersNoGap(fanout, depth);
    if fanout > 0 {
      var counts := NodeCounts(numNodes, fanout, numBE, depth, depth);
      CountsAre(numNodes, fanout, numBE, depth, depth);
      SpokenNoGapIff(counts);
      if numNodes > 0 {
        FlatTopology.CeilBounds(numNodes, fanout);
      }
      if depth >= 2 {
        assert counts[depth - 1] == numBE;
      }
    }
  }

  /** What createTopology hands on when no layers are given: it never asks for more processes than
      there is room for, and it is always written as a tree. Back ends that attach get a last layer
      with a place for every application node, unless the room runs out. */
  method ComputeSpec(attach: bool, wantedDepth: nat, wantedFanout: nat, numAppNodes: nat,
                     numCP: nat, procsPerNode: nat, numBE: nat)
    returns (layers: seq<nat>, ghost wanted: seq<nat>)
    ensures layers == if Total(wanted) <= numCP * procsPerNode then wanted else [numCP * procsPerNode]
    ensures layers != []
    ensures Total(layers) <= numCP * procsPerNode
    ensures NoGap(layers) && Tree(AllLines(layers, 0, 1, 1), 0, 1, 1 + Total(layers))
    ensures attach && wantedDepth == 0 ==> wanted != [] && wanted[|wanted| - 1] >= numAppNodes
    ensures attach && wantedDepth > 0 ==> wanted == Powers(wantedFanout, wantedDepth)
    ensures !attach ==>
              var fanout := if wantedFanout == 0 then 32 else wantedFanout;
              var depth := (if wantedDepth < 2 then 2 else wantedDepth) + 1;
              && wanted == Spoken(NodeCounts(numCP, fanout, numBE, depth, depth))
              && (numBE > 0 ==> wanted != [] && wanted[|wanted| - 1] == numBE)
  {
    hide NoGap, Tree, AllLines, Powers, NodeCounts, Spoken, FlatTopology.Pow, FlatTopology.LeastDepth;
    var numNodes := if attach then numAppNodes else numCP;
    var depth, fanout := ChooseShape(attach, wantedDepth, wantedFanout, numNodes);
    var room := numCP * procsPerNode;
    var procsNeeded;
    if attach {
      layers, procsNeeded := AttachSpec(fanout, depth);
      PowersAre(fanout, depth);
    } else {
      layers, procsNeeded := StartSpec(numNodes, fanout, numBE, depth);
      LastStarted(numNodes, fanout, numBE, depth);
    }
    wanted := layers;
    if procsNeeded > room {
      layers := [room];
      OneLayer(room);
    } else {
      ComputedTreeIff(numNodes, fanout, numBE, depth);
      if !attach && numNodes == 0 && numBE > 0 {
        AtMostTotal(layers, |layers| - 1);
        assert false;
      }
    }
    TreeIff(layers);
  }

  lemma OneLayer(room: nat)
    ensures Total([room]) == room && NoGap([room])
  {
  }

  lemma {:induction false} AtMostTotal(layers: seq<nat>, i: nat)
    requires i < |layers|
    ensures layers[i] <= Total(layers)
  {
    if i > 0 {
      AtMostTotal(layers[1..], i - 1);
    }
  }

  /** The back ends are the last layer. */
  lemma LastStarted(numNodes: nat, fanout: nat, numBE: nat, depth: nat)
    requires fanout > 0 && depth > 1
    ensures var layers := Spoken(NodeCounts(numNodes, fanout, numBE, depth, depth));
            layers != [] && (numBE > 0 ==> layers[|layers| - 1] == numBE)
  {
    hide NodeCounts;
    CountsAre(numNodes, fanout, numBE, depth, depth);
    var counts := NodeCounts(numNodes, fanout, numBE, depth, depth);
    assert counts[depth - 1] == numBE;
    SpokenPositive(counts);
  }
}
