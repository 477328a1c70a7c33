/** The topology file: the processes on the communication hosts, and the lines that give every
    parent its children, layer by layer (core/src/CBTFTopology.cpp, createTopology). */
module TopologyFile {
  import NodeLists
  import FlatTopology
  import opened Options
  import opened Sequences

  datatype Process = Process(host: string, index: nat)

  function Name(p: Process): string {
    p.host + ":" + NodeLists.Dec(p.index)
  }

  function Total(layers: seq<nat>): nat {
    if layers == [] then 0 else layers[0] + Total(layers[1..])
  }

  // ---------------------------------------------------------------- processes

  function Place(fe: string, host: string, i: nat): Process {
    Process(host, if host == fe then i + 1 else i)
  }

  /** One process on every host. */
  function Round(fe: string, hosts: seq<string>, i: nat): seq<Process> {
    if hosts == [] then [] else Round(fe, hosts[..|hosts| - 1], i) + [Place(fe, hosts[|hosts| - 1], i)]
  }

  function Rounds(fe: string, hosts: seq<string>, r: nat): seq<Process> {
    if r == 0 then [] else Rounds(fe, hosts, r - 1) + Round(fe, hosts, r - 1)
  }

  lemma {:induction false} RoundAt(fe: string, hosts: seq<string>, i: nat)
    ensures |Round(fe, hosts, i)| == |hosts|
    ensures forall k :: 0 <= k < |hosts| ==> Round(fe, hosts, i)[k] == Place(fe, hosts[k], i)
  {
    if hosts != [] {
      RoundAt(fe, hosts[..|hosts| - 1], i);
    }
  }

  lemma {:induction false} RoundsSize(fe: string, hosts: seq<string>, r: nat)
    ensures |Rounds(fe, hosts, r)| == r * |hosts|
  {
    if r > 0 {
      RoundsSize(fe, hosts, r - 1);
      RoundAt(fe, hosts, r - 1);
      assert r * |hosts| == (r - 1) * |hosts| + |hosts|;
    }
  }

  method AddRound(fe: string, hosts: seq<string>, i: nat, treeList0: seq<Process>) returns (treeList: seq<Process>)
    ensures treeList == treeList0 + Round(fe, hosts, i)
  {
    treeList := treeList0;
    for k := 0 to |hosts|
      invariant treeList == treeList0 + Round(fe, hosts[..k], i)
    {
      if hosts[k] == fe {
        treeList := treeList + [Process(hosts[k], i + 1)];
      } else {
        treeList := treeList + [Process(hosts[k], i)];
      }
      assert hosts[..k + 1][..k] == hosts[..k];
    }
    assert hosts[..|hosts|] == hosts;
  }

  /** How many rounds are made after the first i: until the number needed is met exactly. */
  function RoundsMade(hosts: nat, procsPerNode: nat, procsNeeded: nat, i: nat): (r: nat)
    requires i < procsPerNode
    ensures i < r <= procsPerNode && (r == procsPerNode || r * hosts == procsNeeded)
    ensures forall k: nat {:trigger k * hosts} :: i < k < r ==> k * hosts != procsNeeded
    decreases procsPerNode - i
  {
    if i + 1 == procsPerNode || (i + 1) * hosts == procsNeeded then i + 1
    else RoundsMade(hosts, procsPerNode, procsNeeded, i + 1)
  }

  /** The front end, then round after round. */
  method ProcessList(fe: string, hosts: seq<string>, procsPerNode: nat, procsNeeded: nat)
    returns (treeList: seq<Process>)
    requires procsPerNode > 0
    ensures treeList == [Process(fe, 0)] + Rounds(fe, hosts, RoundsMade(|hosts|, procsPerNode, procsNeeded, 0))
  {
    treeList := [Process(fe, 0)];
    var counter, i := 0, 0;
    while i < procsPerNode
      invariant i <= procsPerNode && counter == i * |hosts|
      invariant treeList == [Process(fe, 0)] + Rounds(fe, hosts, i)
      invariant RoundsMade(|hosts|, procsPerNode, procsNeeded, 0)
             == if i < procsPerNode then RoundsMade(|hosts|, procsPerNode, procsNeeded, i) else i
    {
      treeList := AddRound(fe, hosts, i, treeList);
      counter := counter + |hosts|;
      assert (i + 1) * |hosts| == i * |hosts| + |hosts|;
      if counter == procsNeeded {
        break;
      }
      i := i + 1;
    }
  }

  // ---------------------------------------------------------------- the lines of the file

  /** The parent and its children, as positions in the process list. */
  datatype Line = Line(parent: nat, first: nat, count: nat)

  function Share(layer: nat, parents: nat, i: nat): nat
    requires parents > 0
  {
    layer / parents + if layer % parents > i then 1 else 0
  }

  /** Children of the first i parents. */
  function Before(layer: nat, parents: nat, i: nat): nat
    requires parents > 0
  {
    if i == 0 then 0 else Before(layer, parents, i - 1) + Share(layer, parents, i - 1)
  }

  lemma {:induction false} BeforeClosed(layer: nat, parents: nat, i: nat)
    requires i <= parents && parents > 0
    ensures Before(layer, parents, i)
         == i * (layer / parents) + (if i < layer % parents then i else layer % parents)
  {
    if i > 0 {
      BeforeClosed(layer, parents, i - 1);
      assert i * (layer / parents) == (i - 1) * (layer / parents) + layer / parents;
    }
  }

  /** The shares of a layer add up to the layer. */
  lemma SharesAddUp(layer: nat, parents: nat)
    requires parents > 0
    ensures Before(layer, parents, parents) == layer
  {
    BeforeClosed(layer, parents, parents);
    assert parents * (layer / parents) + layer % parents == layer;
  }

  /** The lines of the first i parents of a layer. */
  function LayerLines(p: nat, parents: nat, c: nat, layer: nat, i: nat): seq<Line>
    requires i <= parents
  {
    if i == 0 then []
    else LayerLines(p, parents, c, layer, i - 1)
         + [Line(p + i - 1, c + Before(layer, parents, i - 1), Share(layer, parents, i - 1))]
  }

  /** A layer without parents is skipped, and still sets the number of parents of the next. */
  function AllLines(layers: seq<nat>, p: nat, parents: nat, c: nat): seq<Line> {
    if layers == [] then []
    else LayerLines(p, parents, c, layers[0], parents)
         + AllLines(layers[1..], p + parents, layers[0], if parents == 0 then c else c + layers[0])
  }

  /** A line as it is written. */
  datatype Entry = Entry(parent: string, children: seq<string>)

  function Names(treeList: seq<Process>): seq<string> {
    if treeList == [] then [] else Names(treeList[..|treeList| - 1]) + [Name(treeList[|treeList| - 1])]
  }

  ghost predicate Written(treeList: seq<Process>, lines: seq<Line>, entries: seq<Entry>) {
    && |entries| == |lines|
    && forall k :: 0 <= k < |lines| ==>
         var l := lines[k];
         && l.parent < |treeList| && l.first + l.count <= |treeList|
         && entries[k] == Entry(Name(treeList[l.parent]), Names(treeList[l.first..l.first + l.count]))
  }

  /** The loop over the children of one parent. */
  method WriteChildren(treeList: seq<Process>, first: nat, share: nat)
    returns (children: seq<string>, complete: bool)
    ensures complete <==> first + share <= |treeList| || share == 0
    ensures first + share <= |treeList| ==> children == Names(treeList[first..first + share])
  {
    children := [];
    for j := 0 to share
      invariant first + j <= |treeList| || j == 0
      invariant first + j <= |treeList| ==> children == Names(treeList[first..first + j])
    {
      if first + j >= |treeList| {
        return children, false;
      }
      assert treeList[first..first + j + 1][..j] == treeList[first..first + j];
      children := children + [Name(treeList[first + j])];
    }
    complete := true;
  }

  lemma WrittenSnoc(treeList: seq<Process>, lines: seq<Line>, entries: seq<Entry>, l: Line)
    requires Written(treeList, lines, entries)
    requires l.parent < |treeList| && l.first + l.count <= |treeList|
    ensures Written(treeList, lines + [l],
                    entries + [Entry(Name(treeList[l.parent]), Names(treeList[l.first..l.first + l.count]))])
  {
  }

  /** The loop over the parents of one layer. */
  method WriteLayer(treeList: seq<Process>, p: nat, parentCount: nat, c: nat, layer: nat)
    returns (entries: seq<Entry>, complete: bool, childIter: nat)
    ensures p + parentCount <= |treeList| && c + layer <= |treeList| ==>
              && complete && childIter == (if parentCount == 0 then c else c + layer)
              && Written(treeList, LayerLines(p, parentCount, c, layer, parentCount), entries)
  {
    hide Share, Name, Written;
    entries, childIter := [], c;
    ghost var enough := p + parentCount <= |treeList| && c + layer <= |treeList|;
    if parentCount > 0 {
      SharesAddUp(layer, parentCount);
    }
    NothingWritten(treeList);
    for i := 0 to parentCount
      invariant if parentCount == 0 then childIter == c else enough ==> childIter == c + Before(layer, parentCount, i)
      invariant enough ==> Written(treeList, LayerLines(p, parentCount, c, layer, i), entries)
    {
      if p + i >= |treeList| {
        return entries, false, childIter;
      }
      BeforeGrows(layer, parentCount, i + 1, parentCount);
      var share := Share(layer, parentCount, i);
      var children, ok := WriteChildren(treeList, childIter, share);
      if !ok {
        return entries, false, childIter;
      }
      if enough {
        WrittenSnoc(treeList, LayerLines(p, parentCount, c, layer, i), entries, Line(p + i, childIter, share));
      }
      entries := entries + [Entry(Name(treeList[p + i]), children)];
      childIter := childIter + share;
    }
    complete := true;
  }

  lemma NothingWritten(treeList: seq<Process>)
    ensures Written(treeList, [], [])
  {
  }

  lemma {:induction false} BeforeGrows(layer: nat, parents: nat, i: nat, j: nat)
    requires 0 < parents && i <= j
    ensures Before(layer, parents, i) <= Before(layer, parents, j)
    decreases j
  {
    if i < j {
      BeforeGrows(layer, parents, i, j - 1);
    }
  }

  lemma WrittenConcat(treeList: seq<Process>, lines: seq<Line>, entries: seq<Entry>, more: seq<Line>,
                      entries': seq<Entry>)
    requires Written(treeList, lines, entries) && Written(treeList, more, entries')
    ensures Written(treeList, lines + more, entries + entries')
  {
    hide Name, Names;
  }

  lemma {:induction false} TotalConcat(a: seq<nat>, b: seq<nat>)
    ensures Total(a + b) == Total(a) + Total(b)
  {
    if a == [] {
      assert a + b == b;
    } else {
      assert (a + b)[1..] == a[1..] + b;
      TotalConcat(a[1..], b);
    }
  }

  lemma TotalTo(layers: seq<nat>, n: nat)
    requires n < |layers|
    ensures Total(layers[..n + 1]) == Total(layers[..n]) + layers[n] <= Total(layers)
  {
    assert layers[..n + 1] == layers[..n] + [layers[n]] && layers == layers[..n + 1] + layers[n + 1..];
    TotalConcat(layers[..n], [layers[n]]);
    TotalConcat(layers[..n + 1], layers[n + 1..]);
  }

  lemma LinesFrom(layers: seq<nat>, n: nat, p: nat, parents: nat, c: nat)
    requires n < |layers|
    ensures AllLines(layers[n..], p, parents, c)
         == LayerLines(p, parents, c, layers[n], parents)
            + AllLines(layers[n + 1..], p + parents, layers[n], if parents == 0 then c else c + layers[n])
  {
    hide LayerLines;
    assert layers[n..][1..] == layers[n + 1..];
  }

  lemma NoLinesLeft(layers: seq<nat>, p: nat, parents: nat, c: nat)
    ensures AllLines(layers[|layers|..], p, parents, c) == []
  {
  }

  /** The loop over the layers. With a process for the front end and for every place in the layers,
      no early return is taken. */
  method WriteLayers(treeList: seq<Process>, layers: seq<nat>) returns (entries: seq<Entry>, complete: bool)
    requires 1 + Total(layers) <= |treeList|
    ensures complete && Written(treeList, AllLines(layers, 0, 1, 1), entries)
  {
    hide Written, LayerLines, AllLines;
    entries := [];
    var parentIter: nat, parentCount: nat, childIter: nat := 0, 1, 1;
    ghost var lines := [];
    NothingWritten(treeList);
    assert layers[0..] == layers;
    for n := 0 to |layers|
      invariant Written(treeList, lines, entries)
      invariant lines + AllLines(layers[n..], parentIter, parentCount, childIter) == AllLines(layers, 0, 1, 1)
      invariant parentIter + parentCount <= 1 + Total(layers[..n]) && childIter <= 1 + Total(layers[..n])
    {
      var layer := layers[n];
      TotalTo(layers, n);
      LinesFrom(layers, n, parentIter, parentCount, childIter);
      var more, ok, next := WriteLayer(treeList, parentIter, parentCount, childIter, layer);
      if !ok {
        return entries, false;
      }
      ghost var here := LayerLines(parentIter, parentCount, childIter, layer, parentCount);
      ghost var rest := AllLines(layers[n + 1..], parentIter + parentCount, layer, next);
      WrittenConcat(treeList, lines, entries, here, more);
      assert lines + (here + rest) == lines + here + rest;
      entries, lines := entries + more, lines + here;
      parentIter, parentCount, childIter := parentIter + parentCount, layer, next;
    }
    NoLinesLeft(layers, parentIter, parentCount, childIter);
    assert lines + [] == lines;
    complete := true;
  }

  // ---------------------------------------------------------------- the tree

  /** Lines whose children follow each other from c up to end. */
  ghost predicate Chain(lines: seq<Line>, c: nat, end: nat) {
    if lines == [] then c == end
    else lines[0].first == c && Chain(lines[1..], c + lines[0].count, end)
  }

  lemma {:induction false} ChainSnoc(lines: seq<Line>, c: nat, end: nat, l: Line)
    requires Chain(lines, c, end) && l.first == end
    ensures Chain(lines + [l], c, end + l.count)
  {
    if lines == [] {
      assert lines + [l] == [l];
    } else {
      assert (lines + [l])[1..] == lines[1..] + [l];
      ChainSnoc(lines[1..], c + lines[0].count, end, l);
    }
  }

  lemma {:induction false} ChainConcat(a: seq<Line>, b: seq<Line>, c: nat, mid: nat, end: nat)
    requires Chain(a, c, mid) && Chain(b, mid, end)
    ensures Chain(a + b, c, end)
  {
    if a == [] {
      assert a + b == b;
    } else {
      assert (a + b)[1..] == a[1..] + b;
      ChainConcat(a[1..], b, c + a[0].count, mid, end);
    }
  }

  ghost predicate ParentsFrom(lines: seq<Line>, p: nat) {
    forall k :: 0 <= k < |lines| ==> lines[k].parent == p + k
  }

  /** Child counts differ by at most one, and an earlier parent has no fewer than a later one. */
  ghost predicate Balanced(lines: seq<Line>) {
    forall i, j :: 0 <= i <= j < |lines| ==> lines[j].count <= lines[i].count <= lines[j].count + 1
  }

  lemma {:induction false} LayerFacts(p: nat, parents: nat, c: nat, layer: nat, i: nat)
    requires 0 < parents && i <= parents
    ensures var lines := LayerLines(p, parents, c, layer, i);
            && |lines| == i && ParentsFrom(lines, p) && Chain(lines, c, c + Before(layer, parents, i))
            && forall k :: 0 <= k < |lines| ==> lines[k].count == Share(layer, parents, k)
  {
    hide Share;
    if i > 0 {
      LayerFacts(p, parents, c, layer, i - 1);
      var l := Line(p + i - 1, c + Before(layer, parents, i - 1), Share(layer, parents, i - 1));
      ChainSnoc(LayerLines(p, parents, c, layer, i - 1), c, c + Before(layer, parents, i - 1), l);
    }
  }

  /** Layer by layer: the parents are the processes from p on, exactly the children of the layer
      before; their children are exactly the next layer, shared out evenly. */
  ghost predicate LayersOk(lines: seq<Line>, layers: seq<nat>, p: nat, parents: nat) {
    if layers == [] then lines == []
    else
      var c := p + parents;
      && parents <= |lines| && ParentsFrom(lines[..parents], p)
      && Chain(lines[..parents], c, c + layers[0]) && Balanced(lines[..parents])
      && LayersOk(lines[parents..], layers[1..], c, layers[0])
  }

  /** No empty layer comes before one that is not empty. */
  ghost predicate NoGap(layers: seq<nat>) {
    forall i, j :: 0 <= i < j < |layers| && layers[i] == 0 ==> layers[j] == 0
  }

  lemma LayerOk(p: nat, parents: nat, layer: nat)
    requires parents > 0 || layer == 0
    ensures var lines := LayerLines(p, parents, p + parents, layer, parents);
            && |lines| == parents && ParentsFrom(lines, p) && Balanced(lines)
            && Chain(lines, p + parents, p + parents + layer)
  {
    if parents > 0 {
      LayerFacts(p, parents, p + parents, layer, parents);
      SharesAddUp(layer, parents);
    }
  }

  lemma {:induction false} LinesFormLayers(layers: seq<nat>, p: nat, parents: nat)
    requires NoGap([parents] + layers)
    ensures LayersOk(AllLines(layers, p, parents, p + parents), layers, p, parents)
  {
    hide Chain, ParentsFrom, Balanced, LayerLines;
    if layers != [] {
      var layer := layers[0];
      var all := [parents] + layers;
      assert all[0] == parents && all[1] == layer;
      assert [layer] + layers[1..] == all[1..];
      LinesFormLayers(layers[1..], p + parents, layer);
      LayerOk(p, parents, layer);
      var here := LayerLines(p, parents, p + parents, layer, parents);
      var rest := AllLines(layers[1..], p + parents, layer, p + parents + layer);
      assert (here + rest)[..parents] == here && (here + rest)[parents..] == rest;
    }
  }

  /** Every process from c up to end is the child of exactly one line, whose parent is an earlier
      process; the lines are those of processes p, p + 1 and so on. */
  ghost predicate Tree(lines: seq<Line>, p: nat, c: nat, end: nat) {
    && Chain(lines, c, end) && ParentsFrom(lines, p) && p <= c
    && forall k :: 0 <= k < |lines| ==> lines[k].parent < lines[k].first
  }

  lemma {:induction false} ChainFirst(lines: seq<Line>, c: nat, end: nat, k: nat)
    requires Chain(lines, c, end) && k < |lines|
    ensures c <= lines[k].first && lines[k].first + lines[k].count <= end
  {
    ChainEnds(lines[1..], c + lines[0].count, end);
    if k > 0 {
      ChainFirst(lines[1..], c + lines[0].count, end, k - 1);
    }
  }

  lemma {:induction false} ChainEnds(lines: seq<Line>, c: nat, end: nat)
    requires Chain(lines, c, end)
    ensures c <= end
  {
    if lines != [] {
      ChainEnds(lines[1..], c + lines[0].count, end);
    }
  }

  lemma {:induction false} LayersFormTree(lines: seq<Line>, layers: seq<nat>, p: nat, parents: nat)
    requires LayersOk(lines, layers, p, parents)
    ensures Tree(lines, p, p + parents, p + parents + Total(layers))
  {
    if layers != [] {
      var c := p + parents;
      var here, rest := lines[..parents], lines[parents..];
      LayersFormTree(rest, layers[1..], c, layers[0]);
      ChainConcat(here, rest, c, c + layers[0], c + Total(layers));
      assert lines == here + rest;
      forall k | 0 <= k < |lines|
        ensures lines[k].parent == p + k < lines[k].first
      {
        if k < parents {
          assert here[k] == lines[k];
          ChainFirst(here, c, c + layers[0], k);
        } else {
          assert rest[k - parents] == lines[k];
        }
      }
    }
  }

  ghost predicate IsChild(x: nat, l: Line) {
    l.first <= x < l.first + l.count
  }

  /** One line for each child. */
  lemma {:induction false} OneParent(lines: seq<Line>, c: nat, end: nat, x: nat) returns (k: nat)
    requires Chain(lines, c, end) && c <= x < end
    ensures k < |lines| && IsChild(x, lines[k])
    ensures forall j :: 0 <= j < |lines| && IsChild(x, lines[j]) ==> j == k
  {
    var rest := lines[1..];
    if x < c + lines[0].count {
      k := 0;
      forall j | 0 < j < |lines|
        ensures !IsChild(x, lines[j])
      {
        ChainFirst(rest, c + lines[0].count, end, j - 1);
        assert rest[j - 1] == lines[j];
      }
    } else {
      var i := OneParent(rest, c + lines[0].count, end, x);
      k := i + 1;
      forall j | 0 <= j < |lines| && IsChild(x, lines[j])
        ensures j == k
      {
        if j > 0 {
          assert rest[j - 1] == lines[j];
        }
      }
    }
  }

  /** Children written. */
  function Children(lines: seq<Line>): nat {
    if lines == [] then 0 else Children(lines[..|lines| - 1]) + lines[|lines| - 1].count
  }

  lemma {:induction false} ChildrenConcat(a: seq<Line>, b: seq<Line>)
    ensures Children(a + b) == Children(a) + Children(b)
  {
    if b == [] {
      assert a + b == a;
    } else {
      assert (a + b)[..|a + b| - 1] == a + b[..|b| - 1];
      ChildrenConcat(a, b[..|b| - 1]);
    }
  }

  lemma {:induction false} ChildrenOfLayer(p: nat, parents: nat, c: nat, layer: nat, i: nat)
    requires 0 < parents && i <= parents
    ensures Children(LayerLines(p, parents, c, layer, i)) == Before(layer, parents, i)
  {
    hide Share;
    if i > 0 {
      ChildrenOfLayer(p, parents, c, layer, i - 1);
      var lines := LayerLines(p, parents, c, layer, i);
      assert lines[..|lines| - 1] == LayerLines(p, parents, c, layer, i - 1);
    }
  }

  lemma {:induction false} ChildrenAtMost(layers: seq<nat>, p: nat, parents: nat, c: nat)
    ensures Children(AllLines(layers, p, parents, c)) <= Total(layers)
    ensures Children(AllLines(layers, p, parents, c)) == Total(layers) <==> NoGap([parents] + layers)
  {
    hide LayerLines, NoGap;
    if layers == [] {
      NoGapAlone(parents);
    } else {
      var layer, next := layers[0], if parents == 0 then c else c + layers[0];
      var here := LayerLines(p, parents, c, layer, parents);
      ChildrenAtMost(layers[1..], p + parents, layer, next);
      ChildrenConcat(here, AllLines(layers[1..], p + parents, layer, next));
      ChildrenHere(p, parents, c, layer);
      NoGapCons(parents, layers);
    }
  }

  lemma ChildrenHere(p: nat, parents: nat, c: nat, layer: nat)
    ensures Children(LayerLines(p, parents, c, layer, parents)) == if parents == 0 then 0 else layer
  {
    if parents > 0 {
      ChildrenOfLayer(p, parents, c, layer, parents);
      SharesAddUp(layer, parents);
    }
  }

  lemma NoGapAlone(parents: nat)
    ensures NoGap([parents] + [])
  {
  }

  lemma NoGapCons(parents: nat, layers: seq<nat>)
    requires layers != []
    ensures NoGap([parents] + layers) <==> (parents == 0 ==> layers[0] == 0) && NoGap([layers[0]] + layers[1..])
  {
    var all := [parents] + layers;
    assert [layers[0]] + layers[1..] == layers;
    assert all[0] == parents && all[1] == layers[0];
    if NoGap(all) {
      forall i, j | 0 <= i < j < |layers| && layers[i] == 0
        ensures layers[j] == 0
      {
        assert all[i + 1] == layers[i] && all[j + 1] == layers[j];
      }
    }
  }

  /** All processes of the layers are written as somebody's child exactly when no empty layer comes
      before one that is not empty. */
  lemma AllWrittenIff(layers: seq<nat>)
    ensures Children(AllLines(layers, 0, 1, 1)) == Total(layers) <==> NoGap(layers)
  {
    hide AllLines, Children;
    ChildrenAtMost(layers, 0, 1, 1);
    if layers != [] {
      NoGapCons(1, layers);
      assert [layers[0]] + layers[1..] == layers;
    }
  }

  lemma {:induction false} ChainChildren(lines: seq<Line>, c: nat, end: nat)
    requires Chain(lines, c, end)
    ensures Children(lines) == end - c
  {
    if lines != [] {
      ChainChildren(lines[1..], c + lines[0].count, end);
      ChildrenConcat([lines[0]], lines[1..]);
      assert [lines[0]] + lines[1..] == lines && [lines[0]][..0] == [];
    }
  }

  /** The lines written form a tree over all processes of the layers exactly when no empty layer
      comes before one that is not empty. */
  lemma TreeIff(layers: seq<nat>)
    ensures Tree(AllLines(layers, 0, 1, 1), 0, 1, 1 + Total(layers)) <==> NoGap(layers)
    ensures NoGap(layers) ==> LayersOk(AllLines(layers, 0, 1, 1), layers, 0, 1)
  {
    hide AllLines, LayersOk, NoGap, Chain;
    var lines := AllLines(layers, 0, 1, 1);
    if NoGap(layers) {
      FormsTree(layers);
    }
    if Tree(lines, 0, 1, 1 + Total(layers)) {
      ChainChildren(lines, 1, 1 + Total(layers));
      AllWrittenIff(layers);
    }
  }

  /** The specification 1-0-1-1 makes a process its own parent. */
  lemma GapMakesLoop()
    ensures exists k :: 0 <= k < |AllLines([1, 0, 1, 1], 0, 1, 1)|
                        && IsChild(AllLines([1, 0, 1, 1], 0, 1, 1)[k].parent, AllLines([1, 0, 1, 1], 0, 1, 1)[k])
  {
    assert LayerLines(0, 1, 1, 1, 0) == [] && LayerLines(1, 1, 2, 0, 0) == [] && LayerLines(2, 1, 2, 1, 0) == [];
    assert LayerLines(0, 1, 1, 1, 1) == [Line(0, 1, 1)];
    assert LayerLines(1, 1, 2, 0, 1) == [Line(1, 2, 0)];
    assert LayerLines(2, 1, 2, 1, 1) == [Line(2, 2, 1)];
    assert [1, 0, 1, 1][1..] == [0, 1, 1] && [0, 1, 1][1..] == [1, 1] && [1, 1][1..] == [1];
    assert AllLines([1], 2, 1, 2) == [Line(2, 2, 1)];
    assert AllLines([1, 1], 2, 0, 2) == [Line(2, 2, 1)];
    assert AllLines([0, 1, 1], 1, 1, 2) == [Line(1, 2, 0), Line(2, 2, 1)];
    var lines := AllLines([1, 0, 1, 1], 0, 1, 1);
    assert lines == [Line(0, 1, 1), Line(1, 2, 0), Line(2, 2, 1)];
    assert IsChild(lines[2].parent, lines[2]);
  }

  // ---------------------------------------------------------------- process names

  lemma NameInjective(p: Process, q: Process)
    requires Name(p) == Name(q)
    ensures p == q
  {
    var s, a, b := Name(p), NodeLists.Dec(p.index), NodeLists.Dec(q.index);
    NodeLists.DecFacts(p.index);
    NodeLists.DecFacts(q.index);
    ColonFromEnd(p.host, a, b, q.host);
    ColonFromEnd(q.host, b, a, p.host);
    assert s[|p.host| + 1..] == a && s[|q.host| + 1..] == b;
    assert s[..|p.host|] == p.host && s[..|q.host|] == q.host;
  }

  lemma ColonFromEnd(h: string, a: string, b: string, g: string)
    requires NodeLists.AllDigits(a) && h + ":" + a == g + ":" + b
    ensures |a| <= |b|
  {
    var s := h + ":" + a;
    assert s[|g|] == ':';
    assert forall k :: |h| < k < |s| ==> s[k] == a[k - |h| - 1];
  }

  /** Each process of the rounds has an index the next round does not use. */
  lemma {:induction false} RoundsBelow(fe: string, hosts: seq<string>, r: nat)
    ensures forall k :: 0 <= k < |Rounds(fe, hosts, r)| ==>
              var x := Rounds(fe, hosts, r)[k]; Process(fe, 0) != x && x.index < Place(fe, x.host, r).index
  {
    if r > 0 {
      RoundsBelow(fe, hosts, r - 1);
      RoundAt(fe, hosts, r - 1);
    }
  }

  /** Of the places in r rounds, the front end's host uses 0 to r and any other host 0 to r - 1. */
  lemma {:induction false} PlacesUsed(fe: string, hosts: seq<string>, r: nat, p: Process)
    ensures p in [Process(fe, 0)] + Rounds(fe, hosts, r)
            <==> if p.host == fe then p.index == 0 || (fe in hosts && p.index <= r)
                 else p.host in hosts && p.index < r
  {
    hide Round;
    var front := [Process(fe, 0)];
    if r > 0 {
      var earlier, last := Rounds(fe, hosts, r - 1), Round(fe, hosts, r - 1);
      PlacesUsed(fe, hosts, r - 1, p);
      InRound(fe, hosts, r - 1, p);
      InConcat(front, earlier, last, p);
    }
  }

  lemma InConcat(a: seq<Process>, b: seq<Process>, c: seq<Process>, p: Process)
    ensures p in a + (b + c) <==> p in a + b || p in c
  {
  }

  lemma InRound(fe: string, hosts: seq<string>, i: nat, p: Process)
    ensures p in Round(fe, hosts, i) <==> p.host in hosts && p.index == if p.host == fe then i + 1 else i
  {
    hide Round;
    RoundAt(fe, hosts, i);
    var round := Round(fe, hosts, i);
    if p in round {
      var k :| 0 <= k < |round| && round[k] == p;
      assert hosts[k] == p.host;
    }
    if p.host in hosts && p.index == if p.host == fe then i + 1 else i {
      var k :| 0 <= k < |hosts| && hosts[k] == p.host;
      assert round[k] == p;
    }
  }

  lemma UniqueConcat<T>(a: seq<T>, b: seq<T>)
    requires Distinct(a) && Distinct(b)
    requires forall i, j :: 0 <= i < |a| && 0 <= j < |b| ==> a[i] != b[j]
    ensures Distinct(a + b)
  {
  }

  lemma {:induction false} RoundsUnique(fe: string, hosts: seq<string>, r: nat)
    requires Distinct(hosts)
    ensures Distinct([Process(fe, 0)] + Rounds(fe, hosts, r))
  {
    var front := [Process(fe, 0)];
    if r > 0 {
      var earlier, last := Rounds(fe, hosts, r - 1), Round(fe, hosts, r - 1);
      RoundsUnique(fe, hosts, r - 1);
      RoundsBelow(fe, hosts, r - 1);
      RoundAt(fe, hosts, r - 1);
      UniqueConcat(front + earlier, last);
      assert front + (earlier + last) == front + earlier + last;
    }
  }

  lemma {:induction false} NamesAt(treeList: seq<Process>)
    ensures |Names(treeList)| == |treeList|
    ensures forall k :: 0 <= k < |treeList| ==> Names(treeList)[k] == Name(treeList[k])
  {
    hide Name;
    if treeList != [] {
      NamesAt(treeList[..|treeList| - 1]);
    }
  }

  /** The names in the process list are distinct exactly when the hosts are. */
  lemma NamesUniqueIff(fe: string, hosts: seq<string>, r: nat)
    requires r >= 1
    ensures Distinct(Names([Process(fe, 0)] + Rounds(fe, hosts, r))) <==> Distinct(hosts)
  {
    hide Name, Names;
    var treeList := [Process(fe, 0)] + Rounds(fe, hosts, r);
    NamesAt(treeList);
    if Distinct(hosts) {
      RoundsUnique(fe, hosts, r);
      forall i, j | 0 <= i < j < |treeList|
        ensures Names(treeList)[i] != Names(treeList)[j]
      {
        if Name(treeList[i]) == Name(treeList[j]) {
          NameInjective(treeList[i], treeList[j]);
          assert false;
        }
      }
    } else {
      var i, j :| 0 <= i < j < |hosts| && hosts[i] == hosts[j];
      RoundAt(fe, hosts, r - 1);
      var k := 1 + |Rounds(fe, hosts, r - 1)|;
      assert treeList[k + i] == treeList[k + j];
      assert Names(treeList)[k + i] == Names(treeList)[k + j];
    }
  }

  // ---------------------------------------------------------------- the whole file

  method CountProcesses(layers: seq<nat>) returns (procsNeeded: nat)
    ensures procsNeeded == Total(layers)
  {
    procsNeeded := 0;
    for i := 0 to |layers|
      invariant procsNeeded + Total(layers[i..]) == Total(layers)
    {
      assert layers[i..][1..] == layers[i + 1..];
      procsNeeded := procsNeeded + layers[i];
    }
  }

  method CreateTopology(fe: string, hosts: seq<string>, procsPerNode: nat, layers: seq<nat>)
    returns (file: Option<seq<Entry>>, ghost treeList: seq<Process>)
    ensures file.None? <==> procsPerNode == 0
    ensures procsPerNode > 0 ==>
              var room := |hosts| * procsPerNode;
              var spec := if Total(layers) <= room then layers else [room];
              var lines := AllLines(spec, 0, 1, 1);
              && treeList
                 == [Process(fe, 0)] + Rounds(fe, hosts, RoundsMade(|hosts|, procsPerNode, Total(layers), 0))
              && treeList[0] == Process(fe, 0) && (Distinct(Names(treeList)) <==> Distinct(hosts))
              && (if layers == [] then file == Some([Entry(Name(Process(fe, 0)), [])])
                  else Written(treeList, lines, file.value))
              && (Tree(lines, 0, 1, 1 + Total(spec)) <==> NoGap(spec)) && (NoGap(spec) ==> LayersOk(lines, spec, 0, 1))
  {
    hide AllLines, LayersOk, Tree, Written, Name, Names, Rounds, Distinct, NoGap;
    treeList := [];
    if procsPerNode == 0 {
      return None, treeList;
    }
    var procsNeeded := CountProcesses(layers);
    var spec := layers;
    var room := |hosts| * procsPerNode;
    if procsNeeded > room {
      spec := [room];
      assert Total([room]) == room;
    }
    var processes := ProcessList(fe, hosts, procsPerNode, procsNeeded);
    ghost var r := RoundsMade(|hosts|, procsPerNode, procsNeeded, 0);
    treeList := processes;
    RoundsSize(fe, hosts, r);
    NamesUniqueIff(fe, hosts, r);
    TreeIff(spec);
    if spec == [] {
      file := Some([Entry(Name(processes[0]), [])]);
    } else {
      var entries, complete := WriteLayers(processes, spec);
      file := Some(entries);
    }
  }

  lemma FormsTree(layers: seq<nat>)
    requires NoGap(layers)
    ensures var lines := AllLines(layers, 0, 1, 1);
            LayersOk(lines, layers, 0, 1) && Tree(lines, 0, 1, 1 + Total(layers))
  {
    hide AllLines, LayersOk, Tree;
    if layers != [] {
      NoGapCons(1, layers);
      assert [layers[0]] + layers[1..] == layers;
    }
    LinesFormLayers(layers, 0, 1);
    LayersFormTree(AllLines(layers, 0, 1, 1), layers, 0, 1);
  }
}
