/** The preorder walk over the hardware tree, and what every routine passed to it sees. */
module Walks {
  import opened Arithmetic
  import opened Graphs
  import opened TreeShape

  /** What a routine is given: the vertex, the vertex it was reached from, the edge, the level. */
  datatype Visit = Visit(vertex: Vertex, from: Option<nat>, edge: Option<Edge>, level: nat)

  /** A routine updates its data and says whether the walk goes on. */
  type Routine<!D> = (D, Visit) -> (D, bool)

  /** Calls the routine on the visits in order, stopping at the first refusal. */
  function Fold<D>(r: Routine<D>, d: D, visits: seq<Visit>): (D, bool) {
    if visits == [] then (d, true)
    else
      var (d', go) := r(d, visits[0]);
      if go then Fold(r, d', visits[1..]) else (d', false)
  }

  lemma {:induction false} FoldConcat<D>(r: Routine<D>, d: D, a: seq<Visit>, b: seq<Visit>)
    ensures Fold(r, d, a + b) == var (d', go) := Fold(r, d, a); if go then Fold(r, d', b) else (d', false)
  {
    if a == [] {
      assert a + b == b;
    } else {
      assert (a + b)[1..] == a[1..] + b;
      var (d', go) := r(d, a[0]);
      if go {
        FoldConcat(r, d', a[1..], b);
      }
    }
  }

  /** How the walk reaches a subtree: the upward link of its first vertex, the edge, the level. */
  datatype Entry = Entry(up: seq<Link>, edge: Option<Edge>, level: nat) {
    function From(): Option<nat> {
      if up == [] then None else Some(up[0].v)
    }
  }

  function ChildEntry(s: Spot, ars: seq<nat>, lab: Labels, en: Entry, j: nat): Entry
    requires ars != []
  {
    var e := ChildEdge(s, ars, j);
    Entry([Link(e, s.pos)], Some(Edge(Undefined, WeightBelow(lab, ars), s.pos, Child(s, ars, j).pos)), en.level + 1)
  }

  function FirstVisit(s: Spot, ars: seq<nat>, lab: Labels, typ: ElType, en: Entry): Visit {
    Visit(Vertex(typ, if ars == [] then PuId(lab, s.leaf) else 0, s.pos, Links(s, ars, en.up)), en.From(), en.edge,
          en.level)
  }

  /** All visits of a subtree: its first vertex, then its children from left to right. */
  function Preorder(s: Spot, ars: seq<nat>, lab: Labels, typ: ElType, en: Entry): seq<Visit>
    decreases |ars|, 0
  {
    [FirstVisit(s, ars, lab, typ, en)] + if ars == [] then [] else Kids(s, ars, lab, en, ars[0])
  }

  function Kids(s: Spot, ars: seq<nat>, lab: Labels, en: Entry, k: nat): seq<Visit>
    requires ars != []
    decreases |ars| - 1, k + 1
  {
    if k == 0 then []
    else Kids(s, ars, lab, en, k - 1)
         + Preorder(Child(s, ars, k - 1), ars[1..], LabelsBelow(lab), NodeType(ars[1..]),
                    ChildEntry(s, ars, lab, en, k - 1))
  }

  /** A refusal among the first `i` children ends the fold over all of them. */
  lemma {:induction false} StopInKid<D>(r: Routine<D>, d: D, s: Spot, ars: seq<nat>, lab: Labels, en: Entry, i: nat,
                                        k: nat)
    requires ars != [] && i <= k && !Fold(r, d, Kids(s, ars, lab, en, i)).1
    ensures Fold(r, d, Kids(s, ars, lab, en, k)) == Fold(r, d, Kids(s, ars, lab, en, i))
    decreases k
  {
    if i < k {
      StopInKid(r, d, s, ars, lab, en, i, k - 1);
      KidStep(r, d, s, ars, lab, en, k - 1);
    }
  }

  /** Folding over one more child. */
  lemma KidStep<D>(r: Routine<D>, d: D, s: Spot, ars: seq<nat>, lab: Labels, en: Entry, i: nat)
    requires ars != []
    ensures var (d', go) := Fold(r, d, Kids(s, ars, lab, en, i));
            Fold(r, d, Kids(s, ars, lab, en, i + 1)) ==
              if go then Fold(r, d', Preorder(Child(s, ars, i), ars[1..], LabelsBelow(lab), NodeType(ars[1..]),
                                              ChildEntry(s, ars, lab, en, i)))
              else (d', false)
  {
    FoldConcat(r, d, Kids(s, ars, lab, en, i),
               Preorder(Child(s, ars, i), ars[1..], LabelsBelow(lab), NodeType(ars[1..]),
                        ChildEntry(s, ars, lab, en, i)));
  }

  /** The links of a vertex are its children from left to right, then the upward link. */
  lemma LinkAt(s: Spot, ars: seq<nat>, up: seq<Link>, i: nat)
    requires i < |Links(s, ars, up)| && |up| <= 1
    ensures if ars != [] && i < ars[0]
            then Links(s, ars, up)[i] == ChildLink(s, ars, i) && Links(s, ars, up)[i].v > s.pos
            else up == [Links(s, ars, up)[i]]
  {
    if ars != [] && i < ars[0] {
      ChildLinksAt(s, ars, ars[0], i);
    }
  }

  /** The fold over the children among the first `i` links. */
  ghost function AfterKids<D>(r: Routine<D>, d: D, s: Spot, ars: seq<nat>, lab: Labels, en: Entry, i: nat): (D, bool) {
    if ars == [] then (d, true) else Fold(r, d, Kids(s, ars, lab, en, if i <= ars[0] then i else ars[0]))
  }

  lemma PreorderFold<D>(r: Routine<D>, d: D, s: Spot, ars: seq<nat>, lab: Labels, typ: ElType, en: Entry)
    ensures var (d', go) := r(d, FirstVisit(s, ars, lab, typ, en));
            Fold(r, d, Preorder(s, ars, lab, typ, en)) ==
              if go then AfterKids(r, d', s, ars, lab, en, if ars == [] then 0 else ars[0]) else (d', false)
  {
    var all := Preorder(s, ars, lab, typ, en);
    assert all[0] == FirstVisit(s, ars, lab, typ, en);
    assert all[1..] == if ars == [] then [] else Kids(s, ars, lab, en, ars[0]);
  }

  /** A link that does not lead back leads to the child of the same number. */
  lemma LinkDown(vs: seq<Vertex>, es: seq<Edge>, s: Spot, ars: seq<nat>, lab: Labels, typ: ElType, en: Entry, i: nat)
    requires Subtree(vs, es, s, ars, lab, typ, en.up) && i < |vs[s.pos].linked|
    requires |en.up| <= 1 && Some(vs[s.pos].linked[i].v) != en.From()
    ensures ars != [] && i < ars[0]
    ensures var link, below := vs[s.pos].linked[i], ChildEntry(s, ars, lab, en, i);
            && Subtree(vs, es, Child(s, ars, i), ars[1..], LabelsBelow(lab), NodeType(ars[1..]), below.up)
            && link.v == Child(s, ars, i).pos && link.e < |es| && below.edge == Some(es[link.e])
            && below.From() == Some(s.pos) && s.pos < link.v
  {
    LinkAt(s, ars, en.up, i);
    assert ChildOk(vs, es, s, ars, lab, i);
  }

  /** How the fold over the children goes on with child `i`. */
  lemma OneMoreKid<D>(r: Routine<D>, d: D, data: D, s: Spot, ars: seq<nat>, lab: Labels, en: Entry, i: nat)
    requires ars != [] && i < ars[0] && AfterKids(r, d, s, ars, lab, en, i) == (data, true)
    ensures var next := Fold(r, data, KidVisits(s, ars, lab, en, i));
            if next.1 then AfterKids(r, d, s, ars, lab, en, i + 1) == next
            else AfterKids(r, d, s, ars, lab, en, ars[0]) == next
  {
    KidStep(r, d, s, ars, lab, en, i);
    if !Fold(r, data, KidVisits(s, ars, lab, en, i)).1 {
      StopInKid(r, d, s, ars, lab, en, i + 1, ars[0]);
    }
  }

  /** Walks the subtree at `v`; the result is the routine folded over the preorder. */
  method Walk<D>(g: Graph, routine: Routine<D>, v: nat, from: Option<nat>, edge: Option<Edge>, data: D, level: nat,
                 ghost s: Spot, ghost ars: seq<nat>, ghost lab: Labels, ghost typ: ElType, ghost en: Entry)
    returns (data': D, go: bool)
    requires Subtree(g.vertices[..], g.edges[..], s, ars, lab, typ, en.up)
    requires v == s.pos && from == en.From() && edge == en.edge && level == en.level
    requires |en.up| <= 1 && (en.up != [] ==> en.up[0].v < s.pos)
    ensures (data', go) == Fold(routine, data, Preorder(s, ars, lab, typ, en))
    decreases |ars|, 1
  {
    var vertex := g.vertices[v];
    assert vertex == g.vertices[..][v];
    PreorderFold(routine, data, s, ars, lab, typ, en);
    var (d, continue') := routine(data, Visit(vertex, from, edge, level));
    data', go := d, continue';
    if go {
      for i := 0 to |vertex.linked|
        invariant go && AfterKids(routine, d, s, ars, lab, en, i) == (data', true)
      {
        data', go := WalkLink(g, routine, vertex, i, from, data', level, d, s, ars, lab, typ, en);
        if !go {
          return;
        }
      }
    }
  }

  /** Follows one link of a vertex, unless the walk came from there. */
  method WalkLink<D>(g: Graph, routine: Routine<D>, vertex: Vertex, i: nat, from: Option<nat>, data: D, level: nat,
                     ghost d: D, ghost s: Spot, ghost ars: seq<nat>, ghost lab: Labels, ghost typ: ElType,
                     ghost en: Entry)
    returns (data': D, go: bool)
    requires Subtree(g.vertices[..], g.edges[..], s, ars, lab, typ, en.up)
    requires vertex == g.vertices[..][s.pos] && i < |vertex.linked| && from == en.From() && level == en.level
    requires |en.up| <= 1 && (en.up != [] ==> en.up[0].v < s.pos)
    requires AfterKids(routine, d, s, ars, lab, en, i) == (data, true)
    ensures AfterKids(routine, d, s, ars, lab, en, if go || ars == [] then i + 1 else ars[0]) == (data', go)
    decreases |ars|, 0
  {
    var link := vertex.linked[i];
    if Some(link.v) == from {
      LinkAt(s, ars, en.up, i);
      return data, true;
    }
    LinkDown(g.vertices[..], g.edges[..], s, ars, lab, typ, en, i);
    OneMoreKid(routine, d, data, s, ars, lab, en, i);
    data', go := Walk(g, routine, link.v, Some(vertex.pos), Some(g.edges[link.e]), data, level + 1,
                      Child(s, ars, i), ars[1..], LabelsBelow(lab), NodeType(ars[1..]), ChildEntry(s, ars, lab, en, i));
  }

  function KidVisits(s: Spot, ars: seq<nat>, lab: Labels, en: Entry, j: nat): seq<Visit>
    requires ars != []
  {
    Preorder(Child(s, ars, j), ars[1..], LabelsBelow(lab), NodeType(ars[1..]), ChildEntry(s, ars, lab, en, j))
  }

  /** If child `j` takes the data from `f(j)` to `f(j + 1)`, the children together reach `f(k)`. */
  lemma {:induction false} FoldKids<D>(r: Routine<D>, f: nat -> D, s: Spot, ars: seq<nat>, lab: Labels, en: Entry,
                                       k: nat)
    requires ars != []
    requires forall j: nat | j < k :: Fold(r, f(j), KidVisits(s, ars, lab, en, j)) == (f(j + 1), true)
    ensures Fold(r, f(0), Kids(s, ars, lab, en, k)) == (f(k), true)
  {
    if k > 0 {
      FoldKids(r, f, s, ars, lab, en, k - 1);
      KidStep(r, f(0), s, ars, lab, en, k - 1);
      assert Fold(r, f(k - 1), KidVisits(s, ars, lab, en, k - 1)) == (f(k), true);
    }
  }

  // --------------------------------------------- what the two kinds of routine see

  /** The routine's data after all of `visits`, whatever the routine answers. */
  function Run<D>(r: Routine<D>, d: D, visits: seq<Visit>): D {
    if visits == [] then d else Run(r, r(d, visits[0]).0, visits[1..])
  }

  lemma {:induction false} FoldOfUnstoppable<D(!new)>(r: Routine<D>, d: D, visits: seq<Visit>)
    requires forall d: D, v :: r(d, v).1
    ensures Fold(r, d, visits) == (Run(r, d, visits), true)
  {
    if visits != [] {
      FoldOfUnstoppable(r, r(d, visits[0]).0, visits[1..]);
    }
  }

  /** The visits of a subtree are its consecutive vertices, each once and in order. */
  lemma {:induction false} PreorderPositions(s: Spot, ars: seq<nat>, lab: Labels, typ: ElType, en: Entry)
    ensures |Preorder(s, ars, lab, typ, en)| == Size(ars)
    ensures forall i | 0 <= i < Size(ars) :: Preorder(s, ars, lab, typ, en)[i].vertex.pos == s.pos + i
    decreases |ars|, 0
  {
    if ars != [] {
      KidsPositions(s, ars, lab, en, ars[0]);
    }
  }

  lemma {:induction false} KidsPositions(s: Spot, ars: seq<nat>, lab: Labels, en: Entry, k: nat)
    requires ars != []
    ensures |Kids(s, ars, lab, en, k)| == Times(k, Size(ars[1..]))
    ensures forall i | 0 <= i < |Kids(s, ars, lab, en, k)| :: Kids(s, ars, lab, en, k)[i].vertex.pos == s.pos + 1 + i
    decreases |ars| - 1, k + 1
  {
    if k > 0 {
      KidsPositions(s, ars, lab, en, k - 1);
      PreorderPositions(Child(s, ars, k - 1), ars[1..], LabelsBelow(lab), NodeType(ars[1..]),
                        ChildEntry(s, ars, lab, en, k - 1));
    }
  }

  /** The visits from the first vertex of a subtree down to its leftmost processing unit. */
  function LeftPath(s: Spot, ars: seq<nat>, lab: Labels, typ: ElType, en: Entry): seq<Visit>
    decreases |ars|
  {
    [FirstVisit(s, ars, lab, typ, en)]
    + if ars == [] then []
      else LeftPath(Child(s, ars, 0), ars[1..], LabelsBelow(lab), NodeType(ars[1..]), ChildEntry(s, ars, lab, en, 0))
  }

  ghost predicate StopsAtPus<D(!new)>(r: Routine<D>) {
    forall d: D, v: Visit :: r(d, v).1 <==> v.vertex.typ != Pu
  }

  /** A routine that stops exactly at processing units sees the leftmost path and no more. */
  lemma {:induction false} StopAtFirstPu<D(!new)>(r: Routine<D>, d: D, s: Spot, ars: seq<nat>, lab: Labels,
                                                  typ: ElType, en: Entry)
    requires StopsAtPus(r) && (typ == Pu <==> ars == [])
    requires forall i | 0 <= i < |ars| :: ars[i] >= 1
    ensures Fold(r, d, Preorder(s, ars, lab, typ, en)) == (Run(r, d, LeftPath(s, ars, lab, typ, en)), false)
    decreases |ars|
  {
    var first := FirstVisit(s, ars, lab, typ, en);
    PreorderFold(r, d, s, ars, lab, typ, en);
    if ars == [] {
    } else {
      var c, rest, below := Child(s, ars, 0), ars[1..], ChildEntry(s, ars, lab, en, 0);
      var d' := r(d, first).0;
      StopAtFirstPu(r, d', c, rest, LabelsBelow(lab), NodeType(rest), below);
      KidStep(r, d', s, ars, lab, en, 0);
      StopInKid(r, d', s, ars, lab, en, 1, ars[0]);
      var path := LeftPath(s, ars, lab, typ, en);
      assert path[1..] == LeftPath(c, rest, LabelsBelow(lab), NodeType(rest), below);
    }
  }
}
