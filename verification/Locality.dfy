/** Where the groups of threads are on the machine: threads of one group share a vertex of the
    hardware tree, and threads of different groups do not. */
module Localities {
  import opened Arithmetic
  import opened Forest
  import opened Affinity
  import opened Graphs
  import opened TreeShape
  import opened GreedyMapping
  import opened Placements

  /** The vertex at depth `d` above leaf `q` of the subtree at `s`. */
  function VertexAbove(s: Spot, ars: seq<nat>, d: nat, q: nat): nat
    requires d <= |ars| && forall i | 0 <= i < |ars| :: ars[i] >= 1
    decreases |ars|
  {
    if d == 0 then s.pos
    else
      LeavesPositive(ars[1..]);
      VertexAbove(Child(s, ars, q / Leaves(ars[1..])), ars[1..], d - 1, q % Leaves(ars[1..]))
  }

  lemma LeavesPositive(ars: seq<nat>)
    requires forall i | 0 <= i < |ars| :: ars[i] >= 1
    ensures Leaves(ars) >= 1
  {
    LeavesIsProduct(ars);
    ProductPositive(ars);
  }

  lemma VertexInside(s: Spot, ars: seq<nat>, d: nat, q: nat)
    requires d <= |ars| && (forall i | 0 <= i < |ars| :: ars[i] >= 1) && q < Leaves(ars)
    ensures s.pos <= VertexAbove(s, ars, d, q) < s.pos + Size(ars)
    decreases |ars|
  {
    if d > 0 {
      var l := Leaves(ars[1..]);
      LeavesPositive(ars[1..]);
      ChildOfLeaf(ars, q);
      ChildRange(s, ars, q / l);
      VertexInside(Child(s, ars, q / l), ars[1..], d - 1, q % l);
    }
  }

  lemma ChildOfLeaf(ars: seq<nat>, q: nat)
    requires ars != [] && Leaves(ars[1..]) >= 1 && q < Leaves(ars)
    ensures q / Leaves(ars[1..]) < ars[0]
  {
    TimesIsProduct(ars[0], Leaves(ars[1..]));
    QuotientBelow(q, Leaves(ars[1..]), ars[0]);
  }

  /** Two leaves are below the same vertex of depth `d` exactly when they are in the same block of
      as many leaves as such a vertex has below it. */
  lemma {:induction false} SameVertexAbove(s: Spot, ars: seq<nat>, d: nat, q: nat, r: nat)
    requires d <= |ars| && (forall i | 0 <= i < |ars| :: ars[i] >= 1) && q < Leaves(ars) && r < Leaves(ars)
    ensures Leaves(ars[d..]) >= 1
    ensures VertexAbove(s, ars, d, q) == VertexAbove(s, ars, d, r) <==> q / Leaves(ars[d..]) == r / Leaves(ars[d..])
    decreases |ars|, 1
  {
    LeavesPositive(ars[d..]);
    if d == 0 {
      assert ars[0..] == ars;
      DivModOf(0, Leaves(ars), q);
      DivModOf(0, Leaves(ars), r);
    } else {
      var rest := ars[1..];
      var l := Leaves(rest);
      LeavesPositive(rest);
      ChildOfLeaf(ars, q);
      ChildOfLeaf(ars, r);
      LeafBlocks(ars, d, q, r);
      SameAmongChildren(s, ars, d, q / l, r / l, q % l, r % l);
    }
  }

  lemma {:induction false} SameAmongChildren(s: Spot, ars: seq<nat>, d: nat, i: nat, j: nat, x: nat, y: nat)
    requires 0 < d <= |ars| && forall k | 0 <= k < |ars| :: ars[k] >= 1
    requires x < Leaves(ars[1..]) && y < Leaves(ars[1..])
    ensures Leaves(ars[d..]) >= 1
    ensures VertexAbove(Child(s, ars, i), ars[1..], d - 1, x) == VertexAbove(Child(s, ars, j), ars[1..], d - 1, y)
            <==> i == j && x / Leaves(ars[d..]) == y / Leaves(ars[d..])
    decreases |ars|, 0
  {
    assert ars[1..][d - 1..] == ars[d..];
    SameVertexAbove(Child(s, ars, i), ars[1..], d - 1, x, y);
    if i != j {
      VerticesApart(s, ars, d, i, j, x, y);
    }
  }

  lemma LeafBlocks(ars: seq<nat>, d: nat, q: nat, r: nat)
    requires 0 < d <= |ars| && forall i | 0 <= i < |ars| :: ars[i] >= 1
    ensures ars[1..][d - 1..] == ars[d..] && Leaves(ars[1..]) >= 1 && Leaves(ars[d..]) >= 1
    ensures var l, b := Leaves(ars[1..]), Leaves(ars[d..]);
            q / b == r / b <==> q / l == r / l && q % l / b == r % l / b
  {
    assert ars[1..][d - 1..] == ars[d..];
    LeavesPositive(ars[1..]);
    BlockCount(ars[1..], d - 1);
    SameBlock(q, r, Leaves(ars[1..]), Leaves(ars[d..]), Leaves(ars[1..]) / Leaves(ars[d..]));
  }

  lemma VerticesApart(s: Spot, ars: seq<nat>, d: nat, i: nat, j: nat, x: nat, y: nat)
    requires 0 < d <= |ars| && (forall k | 0 <= k < |ars| :: ars[k] >= 1)
    requires i != j && x < Leaves(ars[1..]) && y < Leaves(ars[1..])
    ensures VertexAbove(Child(s, ars, i), ars[1..], d - 1, x) != VertexAbove(Child(s, ars, j), ars[1..], d - 1, y)
  {
    VertexInside(Child(s, ars, i), ars[1..], d - 1, x);
    VertexInside(Child(s, ars, j), ars[1..], d - 1, y);
    ChildrenOrdered(s, ars, if i < j then i else j, if i < j then j else i);
  }

  /** A subtree's leaves split evenly into the blocks below its vertices of depth `d`. */
  lemma BlockCount(ars: seq<nat>, d: nat)
    requires d <= |ars| && forall i | 0 <= i < |ars| :: ars[i] >= 1
    ensures var b := Leaves(ars[d..]); b >= 1 && Leaves(ars) == b * (Leaves(ars) / b)
  {
    LeavesPositive(ars[d..]);
    LeavesIsProduct(ars);
    LeavesIsProduct(ars[d..]);
    assert ars[..d] + ars[d..] == ars;
    ProductConcat(ars[..d], ars[d..]);
    ExactQuotient(Leaves(ars), Product(ars[..d]), Leaves(ars[d..]));
  }

  lemma {:induction false} SharedSuffix(ars: seq<nat>, d: nat)
    requires d <= |ars|
    ensures |SharedOf(ars[d..])| <= |SharedOf(ars)|
    ensures SharedOf(ars[d..]) == SharedOf(ars)[|SharedOf(ars)| - |SharedOf(ars[d..])|..]
  {
    if d > 0 {
      assert ars[1..][d - 1..] == ars[d..];
      SharedSuffix(ars[1..], d - 1);
      var k := |SharedOf(ars[d..])|;
      if ars[0] >= 2 {
        assert SharedOf(ars)[1..] == SharedOf(ars[1..]);
      }
    } else {
      assert ars[0..] == ars;
    }
  }

  /** Locality, on the machine itself. A vertex of depth `d` that has `l - 1` shared levels from
      itself down belongs to level `l`; two threads are in the same level `l` group exactly when
      the processing units they are mapped to are below the same vertex of depth `d`. */
  lemma GroupsAreVertices(m: seq<nat>, n: nat, w: Weights, ars: seq<nat>, lab: Labels, f: Levels, d: nat, a: nat,
                          b: nat)
    requires Machine(ars, lab) && Placement(m, n, w, ars, lab, f) && d <= |ars| && a < n && b < n
    ensures var shared, l := SharedOf(ars), |SharedOf(ars[d..])| + 1;
            && l < |f|
            && (Up(f, shared, l, a) == Up(f, shared, l, b)
                <==> VertexAbove(Spot(0, 0, 0), ars, d, Leaf(f, shared, a))
                     == VertexAbove(Spot(0, 0, 0), ars, d, Leaf(f, shared, b)))
  {
    var shared, l := SharedOf(ars), |SharedOf(ars[d..])| + 1;
    var p, q := Leaf(f, shared, a), Leaf(f, shared, b);
    UnitsAreLeaves(ars, d);
    Locality(f, shared, l, a, b);
    EveryThreadPlaced(m, n, w, ars, lab, f, a);
    EveryThreadPlaced(m, n, w, ars, lab, f, b);
    LeavesIsProduct(ars);
    SameVertexAbove(Spot(0, 0, 0), ars, d, p, q);
  }

  lemma UnitsAreLeaves(ars: seq<nat>, d: nat)
    requires d <= |ars| && forall i | 0 <= i < |ars| :: ars[i] >= 1
    ensures var l := |SharedOf(ars[d..])| + 1; l <= |SharedOf(ars)| + 1 && Units(SharedOf(ars), l) == Leaves(ars[d..])
  {
    SharedSuffix(ars, d);
    SharedProduct(ars[d..]);
    LeavesIsProduct(ars[d..]);
  }

  // ---------------------------------------------------------- in the arena itself

  lemma LeafOfChild(s: Spot, ars: seq<nat>, q: nat)
    requires ars != [] && Leaves(ars[1..]) >= 1
    ensures Child(s, ars, q / Leaves(ars[1..])).leaf + q % Leaves(ars[1..]) == s.leaf + q
  {
    TimesIsProduct(q / Leaves(ars[1..]), Leaves(ars[1..]));
    MulCommutes(q / Leaves(ars[1..]), Leaves(ars[1..]));
  }

  /** The vertex above a leaf, seen from the child that the leaf is below. */
  lemma AboveInChild(s: Spot, ars: seq<nat>, q: nat) returns (i: nat, x: nat)
    requires ars != [] && (forall k | 0 <= k < |ars| :: ars[k] >= 1) && q < Leaves(ars)
    ensures i < ars[0] && x < Leaves(ars[1..]) && Child(s, ars, i).leaf + x == s.leaf + q
    ensures forall e | 0 < e <= |ars| :: VertexAbove(s, ars, e, q) == VertexAbove(Child(s, ars, i), ars[1..], e - 1, x)
  {
    LeavesPositive(ars[1..]);
    ChildOfLeaf(ars, q);
    LeafOfChild(s, ars, q);
    i, x := q / Leaves(ars[1..]), q % Leaves(ars[1..]);
  }

  lemma {:induction false} UnitVertex(vs: seq<Vertex>, es: seq<Edge>, s: Spot, ars: seq<nat>, lab: Labels, typ: ElType,
                                      up: seq<Link>, q: nat)
    requires Subtree(vs, es, s, ars, lab, typ, up) && (typ == Pu <==> ars == [])
    requires (forall i | 0 <= i < |ars| :: ars[i] >= 1) && q < Leaves(ars)
    ensures var v := VertexAbove(s, ars, |ars|, q);
            v < |vs| && vs[v].typ == Pu && vs[v].id == PuId(lab, s.leaf + q)
    decreases |ars|
  {
    if ars != [] {
      var i, x := AboveInChild(s, ars, q);
      ChildIsSubtree(vs, es, s, ars, lab, typ, up, i);
      UnitVertex(vs, es, Child(s, ars, i), ars[1..], LabelsBelow(lab), NodeType(ars[1..]),
                 [Link(ChildEdge(s, ars, i), s.pos)], x);
    }
  }

  /** The vertex at full depth above a leaf is the processing unit with the id that the caller's table has for the
      leaf, or without a table with the leaf's number as id. */
  lemma LeafVertex(vs: seq<Vertex>, es: seq<Edge>, s: Spot, ars: seq<nat>, lab: Labels, typ: ElType, up: seq<Link>,
                   q: nat)
    requires Subtree(vs, es, s, ars, lab, typ, up) && (typ == Pu <==> ars == [])
    requires (forall i | 0 <= i < |ars| :: ars[i] >= 1) && q < Leaves(ars)
    ensures var v := VertexAbove(s, ars, |ars|, q);
            && v < |vs| && vs[v].typ == Pu
            && (lab.pus.None? ==> vs[v].id == s.leaf + q)
            && (lab.pus.Some? && s.leaf + q < |lab.pus.value| ==> vs[v].id == lab.pus.value[s.leaf + q])
  {
    UnitVertex(vs, es, s, ars, lab, typ, up, q);
  }

  /** The last link of a vertex, which leads to its parent. */
  function LastLink(vs: seq<Vertex>, v: nat): Option<nat> {
    if v < |vs| && vs[v].linked != [] then Some(vs[v].linked[|vs[v].linked| - 1].v) else None
  }

  lemma {:induction false} ParentAbove(vs: seq<Vertex>, es: seq<Edge>, s: Spot, ars: seq<nat>, lab: Labels, typ: ElType,
                                       up: seq<Link>, d: nat, q: nat)
    requires Subtree(vs, es, s, ars, lab, typ, up) && d < |ars|
    requires (forall i | 0 <= i < |ars| :: ars[i] >= 1) && q < Leaves(ars)
    ensures LastLink(vs, VertexAbove(s, ars, d + 1, q)) == Some(VertexAbove(s, ars, d, q))
    decreases |ars|
  {
    var i, x := AboveInChild(s, ars, q);
    assert ChildOk(vs, es, s, ars, lab, i);
    if d > 0 {
      ParentAbove(vs, es, Child(s, ars, i), ars[1..], LabelsBelow(lab), NodeType(ars[1..]),
                  [Link(ChildEdge(s, ars, i), s.pos)], d - 1, x);
    } else {
      ParentOfChild(vs, es, s, ars, lab, i);
    }
  }

  lemma ParentOfChild(vs: seq<Vertex>, es: seq<Edge>, s: Spot, ars: seq<nat>, lab: Labels, i: nat)
    requires ars != [] && ChildOk(vs, es, s, ars, lab, i)
    ensures LastLink(vs, Child(s, ars, i).pos) == Some(s.pos)
  {
    var c, link := Child(s, ars, i), Link(ChildEdge(s, ars, i), s.pos);
    var links := Links(c, ars[1..], [link]);
    assert vs[c.pos].linked == links && links[|links| - 1] == link;
  }

  /** The vertex reached from `v` by `k` parent links. */
  function Climb(vs: seq<Vertex>, v: nat, k: nat): Option<nat> {
    if k == 0 then Some(v)
    else
      var u := Climb(vs, v, k - 1);
      if u.Some? then LastLink(vs, u.value) else None
  }

  lemma {:induction false} ClimbsAbove(vs: seq<Vertex>, es: seq<Edge>, s: Spot, ars: seq<nat>, lab: Labels, typ: ElType,
                                       up: seq<Link>, k: nat, q: nat)
    requires Subtree(vs, es, s, ars, lab, typ, up) && k <= |ars|
    requires (forall i | 0 <= i < |ars| :: ars[i] >= 1) && q < Leaves(ars)
    ensures Climb(vs, VertexAbove(s, ars, |ars|, q), k) == Some(VertexAbove(s, ars, |ars| - k, q))
  {
    if k > 0 {
      ClimbsAbove(vs, es, s, ars, lab, typ, up, k - 1, q);
      ParentAbove(vs, es, s, ars, lab, typ, up, |ars| - k, q);
    }
  }

  /** The arena vertex of the processing unit that thread `t` is mapped to. */
  lemma UnitOfThread(vs: seq<Vertex>, es: seq<Edge>, m: seq<nat>, n: nat, w: Weights, ars: seq<nat>, lab: Labels,
                     f: Levels, t: nat) returns (v: nat)
    requires Subtree(vs, es, Spot(0, 0, 0), ars, lab, Root, [])
    requires Machine(ars, lab) && Placement(m, n, w, ars, lab, f) && t < n
    ensures v < |vs| && vs[v].typ == Pu && vs[v].id == m[t]
    ensures v == VertexAbove(Spot(0, 0, 0), ars, |ars|, Leaf(f, SharedOf(ars), t))
    ensures Leaf(f, SharedOf(ars), t) < Leaves(ars)
  {
    EveryThreadPlaced(m, n, w, ars, lab, f, t);
    LeavesIsProduct(ars);
    v := VertexAbove(Spot(0, 0, 0), ars, |ars|, Leaf(f, SharedOf(ars), t));
    LeafVertex(vs, es, Spot(0, 0, 0), ars, lab, Root, [], Leaf(f, SharedOf(ars), t));
  }

  /** Locality. Two threads are mapped to processing units `u` and `v` of the arena. Following `k` parent
      links from there leads to a vertex with `l - 1` shared levels from itself down; it is the same
      vertex exactly when the threads are in the same group of level `l`. */
  lemma GroupsShareVertices(vs: seq<Vertex>, es: seq<Edge>, m: seq<nat>, n: nat, w: Weights, ars: seq<nat>, lab: Labels,
                            f: Levels, k: nat, a: nat, b: nat) returns (u: nat, v: nat)
    requires Subtree(vs, es, Spot(0, 0, 0), ars, lab, Root, [])
    requires Machine(ars, lab) && Placement(m, n, w, ars, lab, f) && k <= |ars| && a < n && b < n
    ensures u < |vs| && vs[u].typ == Pu && vs[u].id == m[a]
    ensures v < |vs| && vs[v].typ == Pu && vs[v].id == m[b]
    ensures Climb(vs, u, k).Some? && Climb(vs, v, k).Some?
    ensures var shared, l := SharedOf(ars), |SharedOf(ars[|ars| - k..])| + 1;
            l < |f| && (Up(f, shared, l, a) == Up(f, shared, l, b) <==> Climb(vs, u, k) == Climb(vs, v, k))
  {
    var s := Spot(0, 0, 0);
    u := UnitOfThread(vs, es, m, n, w, ars, lab, f, a);
    v := UnitOfThread(vs, es, m, n, w, ars, lab, f, b);
    ClimbsAbove(vs, es, s, ars, lab, Root, [], k, Leaf(f, SharedOf(ars), a));
    ClimbsAbove(vs, es, s, ars, lab, Root, [], k, Leaf(f, SharedOf(ars), b));
    GroupsAreVertices(m, n, w, ars, lab, f, |ars| - k, a, b);
  }
}
