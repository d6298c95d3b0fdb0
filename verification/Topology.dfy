/** Building the uniform hardware tree in the arena. */
module Topologies {
  import opened Arithmetic
  import opened Graphs
  import opened TreeShape
  import opened PuNumbers
  import opened Walks

  /** Counts processing units and vertices of the tree of `ars`. */
  method CountFakeTopology(ars: seq<nat>, npus: nat, nvertices: nat) returns (npus': nat, nvertices': nat)
    ensures npus' == npus + Leaves(ars) && nvertices' == nvertices + Size(ars)
    ensures npus' == npus + Product(ars) && nvertices' == nvertices + TopLevels(ars, |ars| + 1)
    decreases |ars|
  {
    LeavesIsProduct(ars);
    SizeIsSumOfLevels(ars);
    npus', nvertices' := npus, nvertices;
    if ars == [] {
      npus', nvertices' := npus' + 1, nvertices' + 1;
    } else {
      nvertices' := nvertices' + 1;
      for j := 0 to ars[0]
        invariant npus' == npus + Times(j, Leaves(ars[1..]))
        invariant nvertices' == nvertices + 1 + Times(j, Size(ars[1..]))
      {
        npus', nvertices' := CountFakeTopology(ars[1..], npus', nvertices');
      }
    }
  }

  class Topology {
    const graph: Graph
    var root: nat
    /** The builder's static counter of processing units. */
    var nextPu: nat

    var puNumber: nat
    var nLevels: nat
    var bestPus: seq<nat>
    var arities: seq<nat>
    var linkWeights: seq<int>
    var nobjsPerLevel: seq<nat>

    ghost function Here(): Spot
      reads this, graph
    {
      Spot(graph.nextVertex, graph.nextEdge, nextPu)
    }

    /** The cursors stand at child `j` of the vertex at `s`, whose first `j` links are set. */
    ghost predicate Growing(s: Spot, ars: seq<nat>, j: nat)
      requires ars != []
      reads this, graph, graph.vertices
    {
      && graph.Valid() && Here() == Child(s, ars, j)
      && s.pos + Size(ars) <= graph.vertices.Length && s.edge + Size(ars) <= graph.edges.Length + 1
      && graph.vertices[s.pos] == Vertex(Undefined, 0, s.pos, ChildLinks(s, ars, j))
    }

    method CreateFakeTopology(ars: seq<nat>, lab: Labels) returns (v: nat)
      requires graph.Valid() && Enough(lab, ars, nextPu)
      requires graph.nextVertex + Size(ars) <= graph.vertices.Length
      requires graph.nextEdge + Size(ars) <= graph.edges.Length + 1
      modifies this`nextPu, graph, graph.vertices, graph.edges
      ensures graph.Valid() && v == old(graph.nextVertex)
      ensures Here() == Spot(v + Size(ars), old(graph.nextEdge) + Size(ars) - 1, old(nextPu) + Leaves(ars))
      ensures Subtree(graph.vertices[..], graph.edges[..], old(Here()), ars, lab, NodeType(ars), [])
      ensures lab.pus.Some? ==>
                UnitsIn(graph.vertices[..], v, v + Size(ars)) == lab.pus.value[old(nextPu)..old(nextPu) + Leaves(ars)]
      ensures lab.pus.None? ==>
                UnitsIn(graph.vertices[..], v, v + Size(ars)) == seq(Leaves(ars), i => old(nextPu) + i)
      ensures forall i | 0 <= i < v :: graph.vertices[i] == old(graph.vertices[i])
      ensures forall i | 0 <= i < old(graph.nextEdge) :: graph.edges[i] == old(graph.edges[i])
      decreases |ars|, 3
    {
      ghost var s := Here();
      v := graph.GetFreeVertex();
      if ars == [] {
        graph.vertices[v] := graph.vertices[v].(typ := Pu,
                                                id := if lab.pus.Some? then lab.pus.value[nextPu] else nextPu);
        nextPu := nextPu + 1;
      } else {
        graph.vertices[v] := graph.vertices[v].(typ := Undefined, id := 0);
        AddChildren(v, ars, lab, s);
      }
      UnitsChosen(graph.vertices[..], graph.edges[..], s, ars, lab, NodeType(ars), []);
    }

    /** The builder's loop over the children of the vertex `v`. */
    method AddChildren(v: nat, ars: seq<nat>, lab: Labels, ghost s: Spot)
      requires ars != [] && Enough(lab, ars, s.leaf) && v == s.pos && Growing(s, ars, 0)
      modifies this`nextPu, graph, graph.vertices, graph.edges
      ensures Growing(s, ars, ars[0])
      ensures forall k: nat | k < ars[0] :: ChildOk(graph.vertices[..], graph.edges[..], s, ars, lab, k)
      ensures forall i | 0 <= i < v :: graph.vertices[i] == old(graph.vertices[i])
      ensures forall i | 0 <= i < s.edge :: graph.edges[i] == old(graph.edges[i])
      decreases |ars|, 2
    {
      for j := 0 to ars[0]
        invariant Growing(s, ars, j)
        invariant forall k: nat | k < j :: ChildOk(graph.vertices[..], graph.edges[..], s, ars, lab, k)
        invariant forall i | 0 <= i < v :: graph.vertices[i] == old(graph.vertices[i])
        invariant forall i | 0 <= i < s.edge :: graph.edges[i] == old(graph.edges[i])
      {
        AddNext(v, ars, lab, s, j);
      }
    }

    /** Builds and links child `j` after the ones before it. */
    method AddNext(v: nat, ars: seq<nat>, lab: Labels, ghost s: Spot, ghost j: nat)
      requires ars != [] && j < ars[0] && Enough(lab, ars, s.leaf) && v == s.pos && Growing(s, ars, j)
      requires forall k: nat | k < j :: ChildOk(graph.vertices[..], graph.edges[..], s, ars, lab, k)
      modifies this`nextPu, graph, graph.vertices, graph.edges
      ensures Growing(s, ars, j + 1)
      ensures forall k: nat | k <= j :: ChildOk(graph.vertices[..], graph.edges[..], s, ars, lab, k)
      ensures forall i | 0 <= i < v :: graph.vertices[i] == old(graph.vertices[i])
      ensures forall i | 0 <= i < s.edge :: graph.edges[i] == old(graph.edges[i])
      decreases |ars|, 1
    {
      ghost var vs, es := graph.vertices[..], graph.edges[..];
      ghost var us, ds := AddChild(v, ars, lab, s, j, vs, es);
      RoundDone(vs, es, us, ds, graph.vertices[..], graph.edges[..], s, ars, lab, j);
    }

    /** One round of the builder's loop: builds child `j` of the vertex `v`, which leaves the
        arena as `us` and `ds`, and links it. */
    method AddChild(v: nat, ars: seq<nat>, lab: Labels, ghost s: Spot, ghost j: nat, ghost vs: seq<Vertex>,
                    ghost es: seq<Edge>)
      returns (ghost us: seq<Vertex>, ghost ds: seq<Edge>)
      requires ars != [] && j < ars[0] && Enough(lab, ars, s.leaf) && v == s.pos
      requires Growing(s, ars, j) && vs == graph.vertices[..] && es == graph.edges[..]
      modifies this`nextPu, graph, graph.vertices, graph.edges
      ensures Round(vs, es, us, ds, graph.vertices[..], graph.edges[..], s, ars, lab, j)
      ensures Growing(s, ars, j + 1)
      decreases |ars|, 0
    {
      ChildRange(s, ars, j);
      NextChild(s, ars, j);
      var link := CreateFakeTopology(ars[1..], LabelsBelow(lab));
      us, ds := graph.vertices[..], graph.edges[..];
      assert us[v] == vs[v];
      LinkBuilt(v, link, ars, lab, s, j, us, ds);
    }

    /** Links a finished child to its parent. */
    method LinkBuilt(v: nat, link: nat, ars: seq<nat>, lab: Labels, ghost s: Spot, ghost j: nat,
                     ghost us: seq<Vertex>, ghost ds: seq<Edge>)
      requires graph.Valid() && us == graph.vertices[..] && ds == graph.edges[..] && ars != [] && j < ars[0]
      requires v == s.pos < link == Child(s, ars, j).pos < graph.nextVertex && s.pos + Size(ars) <= |us|
      requires graph.nextEdge == ChildEdge(s, ars, j) < |ds|
      requires Subtree(us, ds, Child(s, ars, j), ars[1..], LabelsBelow(lab), NodeType(ars[1..]), [])
      requires us[v] == Vertex(Undefined, 0, s.pos, ChildLinks(s, ars, j))
      modifies graph`nextEdge, graph.vertices, graph.edges
      ensures graph.Valid() && graph.nextEdge == old(graph.nextEdge) + 1
      ensures Linked(us, ds, graph.vertices[..], graph.edges[..], s, ars, lab, j)
      ensures graph.vertices[v] == Vertex(Undefined, 0, s.pos, ChildLinks(s, ars, j + 1))
    {
      ArityBelowSize(ars);
      FreshLinks(us, ds, Child(s, ars, j), ars[1..], LabelsBelow(lab), NodeType(ars[1..]));
      LinkChild(v, link, WeightBelow(lab, ars));
      LinksGrow(us, ds, graph.vertices[..], graph.edges[..], s, ars, lab, j);
    }

    method LinkChild(v: nat, link: nat, weight: int)
      requires graph.Valid() && graph.nextEdge < graph.edges.Length && v < link < graph.nextVertex
      requires |graph.vertices[v].linked| < graph.vertices.Length
               && |graph.vertices[link].linked| < graph.vertices.Length
      modifies graph`nextEdge, graph.vertices, graph.edges
      ensures graph.Valid() && graph.nextEdge == old(graph.nextEdge) + 1
      ensures var e, s, d := old(graph.nextEdge), old(graph.vertices[v]), old(graph.vertices[link]);
              && graph.edges[..] == old(graph.edges[..])[e := Edge(Undefined, weight, v, link)]
              && graph.vertices[..] == old(graph.vertices[..])[v := s.(linked := s.linked + [Link(e, link)])]
                                                              [link := d.(linked := d.linked + [Link(e, v)])]
    {
      var e := graph.ConnectVertices(v, link);
      graph.edges[e] := graph.edges[e].(weight := weight, typ := Undefined);
    }

    /** The whole arena is the tree of `ars`. */
    ghost predicate Holds(ars: seq<nat>, lab: Labels)
      reads this, graph, graph.vertices, graph.edges
    {
      && graph.Valid() && root == 0
      && graph.nextVertex == graph.vertices.Length == Size(ars)
      && graph.nextEdge == graph.edges.Length == Size(ars) - 1
      && Subtree(graph.vertices[..], graph.edges[..], Spot(0, 0, 0), ars, lab, Root, [])
    }

    /** What the mapping thread does with a fresh topology before it analyses it. */
    constructor Build(ars: seq<nat>, lab: Labels)
      requires ars != [] && Enough(lab, ars, 0)
      ensures Holds(ars, lab) && nextPu == Product(ars)
      ensures lab.pus.Some? ==>
                Product(ars) <= |lab.pus.value|
                && UnitsIn(graph.vertices[..], 0, graph.vertices.Length) == lab.pus.value[..Product(ars)]
      ensures lab.pus.None? ==> UnitsIn(graph.vertices[..], 0, graph.vertices.Length) == seq(Product(ars), i => i)
      ensures fresh(graph) && fresh(graph.vertices) && fresh(graph.edges)
    {
      var npus, nvertices := CountFakeTopology(ars, 0, 0);
      graph := new Graph(nvertices, nvertices - 1);
      nextPu := 0;
      new;
      root := CreateFakeTopology(ars, lab);
      ghost var vs, es := graph.vertices[..], graph.edges[..];
      graph.vertices[root] := graph.vertices[root].(typ := Root);
      SubtreeRetop(vs, es, graph.vertices[..], graph.edges[..], Spot(0, 0, 0), ars, lab, Undefined, [], Root, []);
      LeavesIsProduct(ars);
      UnitsChosen(graph.vertices[..], graph.edges[..], Spot(0, 0, 0), ars, lab, Root, []);
    }

    /** The tables that depend only on the tree's shape and labels. */
    method Analyse(ghost ars: seq<nat>, ghost lab: Labels)
      requires Holds(ars, lab) && Enough(lab, ars, 0) && ars != [] && forall i | 0 <= i < |ars| :: ars[i] >= 1
      modifies this`puNumber, this`nLevels, this`bestPus, this`arities, this`linkWeights, this`nobjsPerLevel
      ensures puNumber == Product(ars) && nLevels == |ars| + 1
      ensures lab.pus.Some? ==> Product(ars) <= |lab.pus.value| && bestPus == lab.pus.value[..Product(ars)]
      ensures lab.pus.None? ==> bestPus == seq(Product(ars), i => i)
      ensures arities == ars + [0] && |linkWeights| == |ars|
      ensures lab.weights.Some? ==> |ars| <= |lab.weights.value| && linkWeights == lab.weights.value[..|ars|]
      ensures lab.weights.None? ==> forall d | 0 <= d < |ars| :: linkWeights[d] == Pow2(|ars| - d)
      ensures |nobjsPerLevel| == nLevels && forall i | 0 <= i < nLevels :: nobjsPerLevel[i] == Product(ars[..i])
    {
      LeavesIsProduct(ars);
      PuIdsChosen(lab, 0, Leaves(ars));
      LinkWeightsChosen(lab, ars);
      CountAll(ars, lab);
      CountLevels(ars, lab);
      ListLevels(ars, lab);
      CountObjects(ars);
    }

    /** The walks that visit every vertex. */
    method CountAll(ghost ars: seq<nat>, ghost lab: Labels)
      requires Holds(ars, lab) && ars != []
      modifies this`puNumber, this`bestPus
      ensures puNumber == Leaves(ars) && bestPus == PuIds(lab, 0, Leaves(ars))
    {
      ghost var s, en := Spot(0, 0, 0), Entry([], None, 0);
      var go;
      CountedPus(0, s, ars, lab, Root, en);
      puNumber, go := Walk(graph, CountPu, root, None, None, 0, 0, s, ars, lab, Root, en);
      ListedPus([], s, ars, lab, Root, en);
      bestPus, go := Walk(graph, ListPu, root, None, None, [], 0, s, ars, lab, Root, en);
    }

    /** The walks that end at the first processing unit. */
    method CountLevels(ghost ars: seq<nat>, ghost lab: Labels)
      requires Holds(ars, lab) && ars != [] && forall i | 0 <= i < |ars| :: ars[i] >= 1
      modifies this`nLevels
      ensures nLevels == |ars| + 1
    {
      ghost var s, en := Spot(0, 0, 0), Entry([], None, 0);
      var go;
      StopAtFirstPu<nat>(CountLevel, 0, s, ars, lab, Root, en);
      CountedLevels(0, s, ars, lab, Root, en);
      nLevels, go := Walk(graph, CountLevel, root, None, None, 0, 0, s, ars, lab, Root, en);
    }

    method ListLevels(ghost ars: seq<nat>, ghost lab: Labels)
      requires Holds(ars, lab) && ars != [] && forall i | 0 <= i < |ars| :: ars[i] >= 1
      modifies this`arities, this`linkWeights
      ensures arities == ars + [0] && linkWeights == LinkWeights(lab, ars)
    {
      ListArities(ars, lab);
      ListLinkWeights(ars, lab);
    }

    method ListArities(ghost ars: seq<nat>, ghost lab: Labels)
      requires Holds(ars, lab) && ars != [] && forall i | 0 <= i < |ars| :: ars[i] >= 1
      modifies this`arities
      ensures arities == ars + [0]
    {
      ghost var s, en := Spot(0, 0, 0), Entry([], None, 0);
      var go;
      AritiesOnTheWay(s, ars, lab, en);
      arities, go := Walk(graph, ListArity, root, None, None, [], 0, s, ars, lab, Root, en);
    }

    method ListLinkWeights(ghost ars: seq<nat>, ghost lab: Labels)
      requires Holds(ars, lab) && ars != [] && forall i | 0 <= i < |ars| :: ars[i] >= 1
      modifies this`linkWeights
      ensures linkWeights == LinkWeights(lab, ars)
    {
      ghost var s, en := Spot(0, 0, 0), Entry([], None, 0);
      var go;
      StopAtFirstPu<seq<int>>(ListWeight, [], s, ars, lab, Root, en);
      ListedRootWeights(s, ars, lab, en);
      linkWeights, go := Walk(graph, ListWeight, root, None, None, [], 0, s, ars, lab, Root, en);
    }

    /** Number of vertices of every level, from the processing units up. */
    method CountObjects(ghost ars: seq<nat>)
      requires nLevels == |ars| + 1 && puNumber == Product(ars) && arities == ars + [0]
      requires forall i | 0 <= i < |ars| :: ars[i] >= 1
      modifies this`nobjsPerLevel
      ensures |nobjsPerLevel| == nLevels && forall i | 0 <= i < nLevels :: nobjsPerLevel[i] == Product(ars[..i])
    {
      nobjsPerLevel := seq(nLevels, _ => 0);
      nobjsPerLevel := nobjsPerLevel[nLevels - 1 := puNumber];
      assert ars[..|ars|] == ars;
      for i := nLevels - 1 downto 0
        invariant |nobjsPerLevel| == nLevels
        invariant forall k | i <= k < nLevels :: nobjsPerLevel[k] == Product(ars[..k])
      {
        ProductSnoc(ars, i);
        nobjsPerLevel := nobjsPerLevel[i := nobjsPerLevel[i + 1] / arities[i]];
      }
    }
  }

  lemma ProductSnoc(ars: seq<nat>, i: nat)
    requires i < |ars| && ars[i] >= 1
    ensures Product(ars[..i + 1]) / ars[i] == Product(ars[..i])
  {
    assert ars[..i + 1] == ars[..i] + [ars[i]];
    ProductConcat(ars[..i], [ars[i]]);
    assert [ars[i]][1..] == [];
    ExactQuotient(Product(ars[..i + 1]), Product(ars[..i]), ars[i]);
  }

  // ---------------------------------------------------- the routines and their sums

  function CountPu(n: nat, v: Visit): (nat, bool) {
    (if v.vertex.typ == Pu then n + 1 else n, true)
  }

  function CountLevel(n: nat, v: Visit): (nat, bool) {
    (n + 1, v.vertex.typ != Pu)
  }

  function ListPu(ids: seq<nat>, v: Visit): (seq<nat>, bool) {
    (if v.vertex.typ == Pu then ids + [v.vertex.id] else ids, true)
  }

  /** A vertex's number of children: all links of the root, all but one elsewhere. */
  function ChildCount(v: Vertex): nat {
    if v.typ == Root || v.linked == [] then |v.linked| else |v.linked| - 1
  }

  function ListArity(l: seq<nat>, v: Visit): (seq<nat>, bool) {
    (l + [ChildCount(v.vertex)], v.vertex.typ != Pu)
  }

  function ListWeight(l: seq<int>, v: Visit): (seq<int>, bool) {
    (if v.vertex.typ != Root && v.edge.Some? then l + [v.edge.value.weight] else l, v.vertex.typ != Pu)
  }

  /** The edge weights met on the way down, one a level. */
  function LinkWeights(lab: Labels, ars: seq<nat>): seq<int>
    decreases |ars|
  {
    if ars == [] then [] else [WeightBelow(lab, ars)] + LinkWeights(LabelsBelow(lab), ars[1..])
  }

  /** They are the caller's weights from the root down, or by default halve from level to level. */
  lemma {:induction false} LinkWeightsChosen(lab: Labels, ars: seq<nat>)
    requires lab.weights.Some? ==> |ars| <= |lab.weights.value|
    ensures |LinkWeights(lab, ars)| == |ars|
    ensures lab.weights.Some? ==> LinkWeights(lab, ars) == lab.weights.value[..|ars|]
    ensures lab.weights.None? ==> forall d | 0 <= d < |ars| :: LinkWeights(lab, ars)[d] == Pow2(|ars| - d)
    decreases |ars|
  {
    if ars != [] {
      LinkWeightsChosen(LabelsBelow(lab), ars[1..]);
    }
  }

  lemma {:induction false} CountedPus(n: nat, s: Spot, ars: seq<nat>, lab: Labels, typ: ElType, en: Entry)
    requires typ == Pu <==> ars == []
    ensures Fold<nat>(CountPu, n, Preorder(s, ars, lab, typ, en)) == (n + Leaves(ars), true)
    decreases |ars|, 1
  {
    PreorderFold<nat>(CountPu, n, s, ars, lab, typ, en);
    if ars != [] {
      CountedKids(n, s, ars, lab, en, ars[0]);
    }
  }

  lemma {:induction false} CountedKids(n: nat, s: Spot, ars: seq<nat>, lab: Labels, en: Entry, k: nat)
    requires ars != []
    ensures Fold<nat>(CountPu, n, Kids(s, ars, lab, en, k)) == (n + Times(k, Leaves(ars[1..])), true)
    decreases |ars|, 0, k
  {
    if k > 0 {
      CountedKids(n, s, ars, lab, en, k - 1);
      KidStep<nat>(CountPu, n, s, ars, lab, en, k - 1);
      CountedPus(n + Times(k - 1, Leaves(ars[1..])), Child(s, ars, k - 1), ars[1..], LabelsBelow(lab),
                 NodeType(ars[1..]), ChildEntry(s, ars, lab, en, k - 1));
    }
  }

  lemma AppendTwice(a: seq<nat>, b: seq<nat>, c: seq<nat>)
    ensures a + b + c == a + (b + c)
  {
  }

  lemma PuIdsOfChild(ids: seq<nat>, lab: Labels, s: Spot, ars: seq<nat>, j: nat)
    requires ars != []
    ensures var n := Leaves(ars[1..]);
            ids + PuIds(lab, s.leaf, Times(j, n)) + PuIds(LabelsBelow(lab), Child(s, ars, j).leaf, n)
            == ids + PuIds(lab, s.leaf, Times(j + 1, n))
  {
    var n := Leaves(ars[1..]);
    PuIdsConcat(lab, s.leaf, Times(j, n), n);
    AppendTwice(ids, PuIds(lab, s.leaf, Times(j, n)), PuIds(LabelsBelow(lab), Child(s, ars, j).leaf, n));
  }

  lemma {:induction false} ListedPus(ids: seq<nat>, s: Spot, ars: seq<nat>, lab: Labels, typ: ElType, en: Entry)
    requires typ == Pu <==> ars == []
    ensures Fold<seq<nat>>(ListPu, ids, Preorder(s, ars, lab, typ, en)) == (ids + PuIds(lab, s.leaf, Leaves(ars)), true)
    decreases |ars|
  {
    PreorderFold<seq<nat>>(ListPu, ids, s, ars, lab, typ, en);
    if ars != [] {
      var n := Leaves(ars[1..]);
      var f: nat -> seq<nat> := (j: nat) => ids + PuIds(lab, s.leaf, Times(j, n));
      forall j: nat | j < ars[0]
        ensures Fold<seq<nat>>(ListPu, f(j), KidVisits(s, ars, lab, en, j)) == (f(j + 1), true)
      {
        var c := Child(s, ars, j);
        ListedPus(f(j), c, ars[1..], LabelsBelow(lab), NodeType(ars[1..]), ChildEntry(s, ars, lab, en, j));
        PuIdsOfChild(ids, lab, s, ars, j);
      }
      assert f(0) == ids;
      FoldKids<seq<nat>>(ListPu, f, s, ars, lab, en, ars[0]);
    } else {
      assert PuIds(lab, s.leaf, 1) == [PuId(lab, s.leaf)];
    }
  }

  lemma {:induction false} CountedLevels(n: nat, s: Spot, ars: seq<nat>, lab: Labels, typ: ElType, en: Entry)
    ensures Run<nat>(CountLevel, n, LeftPath(s, ars, lab, typ, en)) == n + |ars| + 1
    decreases |ars|
  {
    var path := LeftPath(s, ars, lab, typ, en);
    if ars != [] {
      var c, rest, below := Child(s, ars, 0), ars[1..], ChildEntry(s, ars, lab, en, 0);
      assert path[1..] == LeftPath(c, rest, LabelsBelow(lab), NodeType(rest), below);
      CountedLevels(n + 1, c, rest, LabelsBelow(lab), NodeType(rest), below);
    }
  }

  /** What the routines see of the first vertex of a subtree. */
  lemma FirstArity(s: Spot, ars: seq<nat>, lab: Labels, typ: ElType, en: Entry)
    requires if typ == Root then en.up == [] else |en.up| == 1
    ensures ChildCount(FirstVisit(s, ars, lab, typ, en).vertex) == if ars == [] then 0 else ars[0]
  {
  }

  lemma PathStep(s: Spot, ars: seq<nat>, lab: Labels, typ: ElType, en: Entry)
    ensures LeftPath(s, ars, lab, typ, en)[0] == FirstVisit(s, ars, lab, typ, en)
    ensures LeftPath(s, ars, lab, typ, en)[1..] ==
              if ars == [] then []
              else LeftPath(Child(s, ars, 0), ars[1..], LabelsBelow(lab), NodeType(ars[1..]),
                            ChildEntry(s, ars, lab, en, 0))
  {
  }

  lemma AppendTwiceInt(a: seq<int>, b: seq<int>, c: seq<int>)
    ensures a + b + c == a + (b + c)
  {
  }

  lemma AritiesOnTheWay(s: Spot, ars: seq<nat>, lab: Labels, en: Entry)
    requires ars != [] && (forall i | 0 <= i < |ars| :: ars[i] >= 1) && en.up == []
    ensures Fold<seq<nat>>(ListArity, [], Preorder(s, ars, lab, Root, en)) == (ars + [0], false)
  {
    StopAtFirstPu<seq<nat>>(ListArity, [], s, ars, lab, Root, en);
    ListedArities([], s, ars, lab, Root, en);
    assert [] + ars + [0] == ars + [0];
  }

  lemma {:induction false} ListedArities(l: seq<nat>, s: Spot, ars: seq<nat>, lab: Labels, typ: ElType, en: Entry)
    requires if typ == Root then en.up == [] else |en.up| == 1
    ensures Run<seq<nat>>(ListArity, l, LeftPath(s, ars, lab, typ, en)) == l + ars + [0]
    decreases |ars|
  {
    PathStep(s, ars, lab, typ, en);
    FirstArity(s, ars, lab, typ, en);
    if ars == [] {
      assert l + ars == l;
    } else {
      ListedArities(l + [ars[0]], Child(s, ars, 0), ars[1..], LabelsBelow(lab), NodeType(ars[1..]),
                    ChildEntry(s, ars, lab, en, 0));
      AppendTwice(l, [ars[0]], ars[1..]);
      assert [ars[0]] + ars[1..] == ars;
    }
  }

  lemma {:induction false} ListedWeights(l: seq<int>, s: Spot, ars: seq<nat>, lab: Labels, typ: ElType, en: Entry)
    requires typ != Root && en.edge.Some? && (typ == Pu <==> ars == [])
    ensures Run<seq<int>>(ListWeight, l, LeftPath(s, ars, lab, typ, en)) ==
            l + ([en.edge.value.weight] + LinkWeights(lab, ars))
    decreases |ars|
  {
    var l' := l + [en.edge.value.weight];
    PathStep(s, ars, lab, typ, en);
    if ars != [] {
      ListedWeights(l', Child(s, ars, 0), ars[1..], LabelsBelow(lab), NodeType(ars[1..]),
                    ChildEntry(s, ars, lab, en, 0));
      AppendTwiceInt(l, [en.edge.value.weight], LinkWeights(lab, ars));
    }
  }

  lemma ListedRootWeights(s: Spot, ars: seq<nat>, lab: Labels, en: Entry)
    requires ars != []
    ensures Run<seq<int>>(ListWeight, [], LeftPath(s, ars, lab, Root, en)) == LinkWeights(lab, ars)
  {
    PathStep(s, ars, lab, Root, en);
    ListedWeights([], Child(s, ars, 0), ars[1..], LabelsBelow(lab), NodeType(ars[1..]), ChildEntry(s, ars, lab, en, 0));
  }
}
