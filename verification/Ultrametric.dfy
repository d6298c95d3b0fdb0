/** Distances in the default uniform tree: the builder's edge weights and the in-place
    relaxation together make the distance of two processing units depend only on the
    height of their lowest common ancestor. */
module Ultrametric {
  import opened Arithmetic
  import opened Graphs
  import opened TreeShape
  import opened TreePaths
  import opened ShortestPaths
  import opened Distances
  import opened Lib
  import opened Topologies

  /** The arena is exactly the tree of `ars`, with default weights; a C `int` can hold them up to
      height 30. */
  ghost predicate DefaultTree(vs: seq<Vertex>, es: seq<Edge>, ars: seq<nat>, lab: Labels) {
    && Subtree(vs, es, Spot(0, 0, 0), ars, lab, Root, [])
    && |vs| == Size(ars) && lab.weights == None && 1 <= |ars| <= 30
  }

  function Pos(ars: seq<nat>, p: seq<nat>): nat
    requires ValidPath(ars, p)
  {
    Node(Spot(0, 0, 0), ars, p).pos
  }

  /** Direct distance in terms of paths: parent and child are linked, nothing else is. */
  function StepWeight(ars: seq<nat>, p: seq<nat>, q: seq<nat>): nat
    requires ValidPath(ars, p) && ValidPath(ars, q)
  {
    if p == q then 0
    else if |q| == |p| + 1 && p <= q then Pow2(|ars| - |p|)
    else if |p| == |q| + 1 && q <= p then Pow2(|ars| - |q|)
    else UNLINKED
  }

  lemma {:induction false} LinkDistPresent(es: seq<Edge>, links: seq<Link>, k: nat, i: nat, v: nat, other: nat)
    requires i < k <= |links| && links[i].v == v && forall j | i < j < k :: links[j].v != v
    ensures LinkDist(es, links, k, v, other) == EdgeWeight(es, links[i].e)
  {
    if i < k - 1 {
      LinkDistPresent(es, links, k - 1, i, v, other);
    }
  }

  /** Link `i` of the vertex at the end of `p` leads to its child `i`. */
  lemma LinkToChild(vs: seq<Vertex>, es: seq<Edge>, ars: seq<nat>, lab: Labels, p: seq<nat>, i: nat)
    requires DefaultTree(vs, es, ars, lab) && ValidPath(ars, p) && |p| < |ars| && i < ars[|p|]
    ensures ValidPath(ars, p + [i]) && Pos(ars, p) < |vs| && i < |vs[Pos(ars, p)].linked|
    ensures var link := vs[Pos(ars, p)].linked[i];
            link.v == Pos(ars, p + [i]) && link.e < |es| && es[link.e].weight == Pow2(|ars| - |p|)
  {
    LinkDown(vs, es, Spot(0, 0, 0), ars, lab, Root, [], p, i);
  }

  lemma {:induction false} LinkDown(vs: seq<Vertex>, es: seq<Edge>, s: Spot, ars: seq<nat>, lab: Labels, typ: ElType,
                                    up: seq<Link>, p: seq<nat>, i: nat)
    requires Subtree(vs, es, s, ars, lab, typ, up) && lab.weights == None
    requires ValidPath(ars, p) && |p| < |ars| && i < ars[|p|]
    ensures ValidPath(ars, p + [i]) && Node(s, ars, p).pos < |vs| && i < |vs[Node(s, ars, p).pos].linked|
    ensures var link := vs[Node(s, ars, p).pos].linked[i];
            link.v == Node(s, ars, p + [i]).pos && link.e < |es| && es[link.e].weight == Pow2(|ars| - |p|)
    decreases |p|
  {
    NodeSnoc(s, ars, p, i);
    if p == [] {
      ChildTarget(vs, es, s, ars, lab, typ, up, i);
      assert ars[0..] == ars;
    } else {
      var j := p[0];
      ChildSubtree(vs, es, s, ars, lab, typ, up, j);
      LinkDown(vs, es, Child(s, ars, j), ars[1..], lab, NodeType(ars[1..]), [Link(ChildEdge(s, ars, j), s.pos)],
               p[1..], i);
      assert (p + [i])[1..] == p[1..] + [i];
    }
  }

  lemma ChildTarget(vs: seq<Vertex>, es: seq<Edge>, x: Spot, rest: seq<nat>, lab: Labels, typ: ElType, up: seq<Link>,
                    i: nat)
    requires Subtree(vs, es, x, rest, lab, typ, up) && lab.weights == None && rest != [] && i < rest[0]
    ensures i < |vs[x.pos].linked|
    ensures var link := vs[x.pos].linked[i];
            link.v == Child(x, rest, i).pos && link.e < |es| && es[link.e].weight == Pow2(|rest|)
  {
    ChildLinksAt(x, rest, rest[0], i);
    ChildSubtree(vs, es, x, rest, lab, typ, up, i);
  }

  /** Its last link, if it is not the root, leads to its parent. */
  lemma LinkToParent(vs: seq<Vertex>, es: seq<Edge>, ars: seq<nat>, lab: Labels, p: seq<nat>)
    requires DefaultTree(vs, es, ars, lab) && ValidPath(ars, p) && p != []
    ensures Pos(ars, p) < |vs| && vs[Pos(ars, p)].linked != []
    ensures var links := vs[Pos(ars, p)].linked;
            var link := links[|links| - 1];
            link.v == Pos(ars, p[..|p| - 1]) && link.e < |es| && es[link.e].weight == Pow2(|ars| - |p| + 1)
  {
    var s, rest := Spot(0, 0, 0), ars[|p|..];
    VertexAt(vs, es, s, ars, lab, Root, [], p);
    assert vs[Pos(ars, p)].linked == Links(Node(s, ars, p), rest, [UpLink(s, ars, p)]);
  }

  lemma LinkCount(vs: seq<Vertex>, es: seq<Edge>, ars: seq<nat>, lab: Labels, p: seq<nat>)
    requires DefaultTree(vs, es, ars, lab) && ValidPath(ars, p)
    ensures Pos(ars, p) < |vs|
    ensures |vs[Pos(ars, p)].linked| == (if |p| < |ars| then ars[|p|] else 0) + (if p == [] then 0 else 1)
  {
    VertexAt(vs, es, Spot(0, 0, 0), ars, lab, Root, [], p);
    NodeInside(Spot(0, 0, 0), ars, p);
  }

  /** The direct distances are the step weights. */
  lemma DirectIsStep(vs: seq<Vertex>, es: seq<Edge>, ars: seq<nat>, lab: Labels, p: seq<nat>, q: seq<nat>)
    requires DefaultTree(vs, es, ars, lab) && ValidPath(ars, p) && ValidPath(ars, q)
    ensures Direct(vs, es, Pos(ars, p), Pos(ars, q)) == StepWeight(ars, p, q)
  {
    LinkCount(vs, es, ars, lab, p);
    var links, v := vs[Pos(ars, p)].linked, Pos(ars, q);
    var other := if Pos(ars, p) == v then 0 else UNLINKED;
    if p != q {
      NodeInjective(Spot(0, 0, 0), ars, p, q);
    }
    if |q| == |p| + 1 && p <= q {
      var j := q[|p|];
      assert q == p + [j];
      LinkToChild(vs, es, ars, lab, p, j);
      forall i | j < i < |links|
        ensures links[i].v != v
      {
        OtherTarget(vs, es, ars, lab, p, q, i);
      }
      LinkDistPresent(es, links, |links|, j, v, other);
    } else if |p| == |q| + 1 && q <= p {
      assert q == p[..|p| - 1];
      LinkToParent(vs, es, ars, lab, p);
      LinkDistPresent(es, links, |links|, |links| - 1, v, other);
    } else {
      forall i | 0 <= i < |links|
        ensures links[i].v != v
      {
        OtherTarget(vs, es, ars, lab, p, q, i);
      }
      NotLinked(es, links, |links|, v, other);
    }
  }

  /** A link that is not the one from `p` to `q` leads elsewhere. */
  lemma OtherTarget(vs: seq<Vertex>, es: seq<Edge>, ars: seq<nat>, lab: Labels, p: seq<nat>, q: seq<nat>, i: nat)
    requires DefaultTree(vs, es, ars, lab) && ValidPath(ars, p) && ValidPath(ars, q)
    requires Pos(ars, p) < |vs| && i < |vs[Pos(ars, p)].linked|
    requires |p| < |ars| && i < ars[|p|] ==> q != p + [i]
    requires !(|p| < |ars| && i < ars[|p|]) && p != [] ==> q != p[..|p| - 1]
    ensures vs[Pos(ars, p)].linked[i].v != Pos(ars, q)
  {
    LinkCount(vs, es, ars, lab, p);
    if |p| < |ars| && i < ars[|p|] {
      LinkToChild(vs, es, ars, lab, p, i);
      NodeInjective(Spot(0, 0, 0), ars, p + [i], q);
    } else {
      LinkToParent(vs, es, ars, lab, p);
      NodeInjective(Spot(0, 0, 0), ars, p[..|p| - 1], q);
    }
  }

  // ------------------------------------------------------------- upper bound

  /** Distance from a vertex with `h` levels below it down to its processing units. */
  function Depth(h: nat): nat {
    Pow2(h + 1) - 2
  }

  lemma DepthStep(h: nat)
    ensures Depth(h + 1) == Depth(h) + Pow2(h + 1)
  {
  }

  lemma PathInside(ars: seq<nat>, p: seq<nat>)
    requires ValidPath(ars, p)
    ensures Pos(ars, p) < Size(ars)
  {
    NodeInside(Spot(0, 0, 0), ars, p);
  }

  lemma TreeSteps(vs: seq<Vertex>, es: seq<Edge>, ars: seq<nat>, lab: Labels)
    requires DefaultTree(vs, es, ars, lab)
    ensures ZeroDiagonal(DirectSteps(vs, es), |vs|)
    ensures forall u: nat, v: nat | u < |vs| && v < |vs| :: DirectSteps(vs, es)(u, v) == DirectSteps(vs, es)(v, u)
  {
    forall u: nat, v: nat | u < |vs| && v < |vs|
      ensures Direct(vs, es, u, v) == Direct(vs, es, v, u) && (u == v ==> Direct(vs, es, u, v) == 0)
    {
      var p := NodeOnto(Spot(0, 0, 0), ars, u);
      var q := NodeOnto(Spot(0, 0, 0), ars, v);
      DirectIsStep(vs, es, ars, lab, p, q);
      DirectIsStep(vs, es, ars, lab, q, p);
      if u == v && p != q {
        NodeInjective(Spot(0, 0, 0), ars, p, q);
      }
    }
  }

  /** Walking down from the end of `p` to the end of `p + q` costs the weights on the way. */
  lemma {:induction false} DownBound(vs: seq<Vertex>, es: seq<Edge>, ars: seq<nat>, lab: Labels, p: seq<nat>,
                                     q: seq<nat>)
    requires DefaultTree(vs, es, ars, lab) && ValidPath(ars, p) && ValidPath(ars, p + q)
    ensures Through(DirectSteps(vs, es), |vs|, Pos(ars, p), Pos(ars, p + q))
            <= Depth(|ars| - |p|) - Depth(|ars| - |p + q|)
    decreases |q|
  {
    var w, n := DirectSteps(vs, es), |vs|;
    TreeSteps(vs, es, ars, lab);
    if q == [] {
      assert p + q == p;
      PathInside(ars, p);
      DiagonalStaysZero(w, n, n, Pos(ars, p));
    } else {
      var r, j := q[..|q| - 1], q[|q| - 1];
      assert p + q == (p + r) + [j];
      assert forall i | 0 <= i < |p + r| :: (p + r)[i] == (p + q)[i];
      DownBound(vs, es, ars, lab, p, r);
      PathInside(ars, p + r);
      Triangle(w, n, n, Pos(ars, p), Pos(ars, p + r), Pos(ars, p + q));
      ThroughShrinks(w, n, Pos(ars, p + r), Pos(ars, p + q));
      DirectIsStep(vs, es, ars, lab, p + r, p + q);
    }
  }

  // ------------------------------------------------------------- lower bound

  /** A height function of the tree that is negative below the end of `c`, positive elsewhere below
      the parent of `c`, and zero outside. */
  function Signed(ars: seq<nat>, c: seq<nat>, p: seq<nat>): int
    requires ValidPath(ars, c) && ValidPath(ars, p) && c != []
  {
    var m := c[..|c| - 1];
    if c <= p then Depth(|ars| - |p|) - Depth(|ars| - |m|)
    else if m <= p then Depth(|ars| - |m|) - Depth(|ars| - |p|)
    else 0
  }

  /** Along a link the height changes by at most the link's weight. */
  lemma SignedChild(ars: seq<nat>, c: seq<nat>, p: seq<nat>, j: nat)
    requires ValidPath(ars, c) && ValidPath(ars, p + [j]) && c != [] && ValidPath(ars, p)
    ensures 0 - Pow2(|ars| - |p|) <= Signed(ars, c, p + [j]) - Signed(ars, c, p) <= Pow2(|ars| - |p|)
  {
    var q, m := p + [j], c[..|c| - 1];
    DepthStep(|ars| - |q|);
    Prefixes(c, p, j);
    if !(c <= p) && c <= q {
      assert m == p;
    } else if !(m <= p) && m <= q {
      assert m == q;
    }
  }

  /** A list of one more element has one more prefix: itself. */
  lemma Prefixes(c: seq<nat>, p: seq<nat>, j: nat)
    requires c != []
    ensures c <= p + [j] <==> c <= p || c == p + [j]
    ensures c[..|c| - 1] <= p + [j] <==> c[..|c| - 1] <= p || c[..|c| - 1] == p + [j]
    ensures c == p + [j] ==> c[..|c| - 1] == p
    ensures c <= p ==> c[..|c| - 1] <= p
  {
    var m := c[..|c| - 1];
    if c <= p + [j] && !(c <= p) {
      assert |c| == |p| + 1;
    }
    if m <= p + [j] && !(m <= p) {
      assert |m| == |p| + 1;
    }
  }

  /** Between any two vertices the height changes by at most their direct distance, unless they are
      not linked. */
  lemma SignedStep(ars: seq<nat>, c: seq<nat>, p: seq<nat>, q: seq<nat>)
    requires ValidPath(ars, c) && ValidPath(ars, p) && ValidPath(ars, q) && c != []
    ensures Signed(ars, c, q) - Signed(ars, c, p) <= StepWeight(ars, p, q) || StepWeight(ars, p, q) == UNLINKED
  {
    if |q| == |p| + 1 && p <= q {
      assert q == p + [q[|p|]];
      SignedChild(ars, c, p, q[|p|]);
    } else if |p| == |q| + 1 && q <= p {
      assert p == q + [p[|q|]];
      SignedChild(ars, c, q, p[|q|]);
    }
  }

  /** So a path between two vertices that is shorter than the difference of their heights leaves the
      links, and is at least as long as the distance of unlinked vertices. */
  lemma {:induction false} SignedPath(vs: seq<Vertex>, es: seq<Edge>, ars: seq<nat>, lab: Labels, c: seq<nat>,
                                      path: seq<nat>, p: seq<nat>, q: seq<nat>)
    requires DefaultTree(vs, es, ars, lab) && ValidPath(ars, c) && c != [] && ValidPath(ars, p) && ValidPath(ars, q)
    requires Joins(path, |vs|, Pos(ars, p), Pos(ars, q))
    ensures Signed(ars, c, q) - Signed(ars, c, p) <= Length(DirectSteps(vs, es), path)
            || UNLINKED <= Length(DirectSteps(vs, es), path)
    decreases |path|
  {
    if |path| == 1 {
      if p != q {
        NodeInjective(Spot(0, 0, 0), ars, p, q);
      }
    } else {
      var k := |path| - 1;
      var r := NodeOnto(Spot(0, 0, 0), ars, path[k - 1]);
      SignedPath(vs, es, ars, lab, c, path[..k], p, r);
      SignedStep(ars, c, r, q);
      DirectIsStep(vs, es, ars, lab, r, q);
    }
  }

  /** `a` and `b` lead to processing units that part at depth `k`. */
  predicate PartAt(ars: seq<nat>, a: seq<nat>, b: seq<nat>, k: nat) {
    && ValidPath(ars, a) && ValidPath(ars, b) && |a| == |b| == |ars|
    && k < |ars| && a[..k] == b[..k] && a[k] != b[k]
  }

  /** Two processing units whose lowest common ancestor has `h` levels below it are at distance
      2^(h+2) - 4, capped at the distance of unlinked vertices. */
  lemma PuDistance(vs: seq<Vertex>, es: seq<Edge>, ars: seq<nat>, lab: Labels, a: seq<nat>, b: seq<nat>, k: nat)
    requires DefaultTree(vs, es, ars, lab) && PartAt(ars, a, b, k)
    ensures Through(DirectSteps(vs, es), |vs|, Pos(ars, a), Pos(ars, b)) == Min(65535, Pow2(|ars| - k + 2) - 4)
  {
    PuNotFarther(vs, es, ars, lab, a, b, k);
    PuNotCloser(vs, es, ars, lab, a, b, k);
  }

  /** The cap is not reached exactly when the ancestor has at most 14 levels below it. */
  lemma CapReached(h: nat)
    ensures Pow2(h + 2) - 4 <= 65535 <==> h <= 14
  {
    assert Pow2(8) == 256;
    assert Pow2(16) == 65536;
    if h <= 14 {
      Pow2Monotone(h + 2, 16);
    } else {
      Pow2Monotone(17, h + 2);
    }
  }

  lemma PuNotFarther(vs: seq<Vertex>, es: seq<Edge>, ars: seq<nat>, lab: Labels, a: seq<nat>, b: seq<nat>, k: nat)
    requires DefaultTree(vs, es, ars, lab) && PartAt(ars, a, b, k)
    ensures Through(DirectSteps(vs, es), |vs|, Pos(ars, a), Pos(ars, b)) <= Min(UNLINKED, 2 * Depth(|ars| - k))
  {
    var w, n, m := DirectSteps(vs, es), |vs|, a[..k];
    var u, v, x := Pos(ars, a), Pos(ars, b), Pos(ars, m);
    PathInside(ars, a);
    PathInside(ars, b);
    PathInside(ars, m);
    assert a == m + a[k..] && b == m + b[k..];
    DownBound(vs, es, ars, lab, m, a[k..]);
    DownBound(vs, es, ars, lab, m, b[k..]);
    TreeSteps(vs, es, ars, lab);
    ThroughSymmetric(w, n, n, u, x);
    Triangle(w, n, n, u, x, v);
    DirectIsStep(vs, es, ars, lab, a, b);
    ThroughShrinks(w, n, u, v);
  }

  lemma PuNotCloser(vs: seq<Vertex>, es: seq<Edge>, ars: seq<nat>, lab: Labels, a: seq<nat>, b: seq<nat>, k: nat)
    requires DefaultTree(vs, es, ars, lab) && PartAt(ars, a, b, k)
    ensures Through(DirectSteps(vs, es), |vs|, Pos(ars, a), Pos(ars, b)) >= Min(UNLINKED, 2 * Depth(|ars| - k))
  {
    PathInside(ars, a);
    PathInside(ars, b);
    var path := SomePathAttains(DirectSteps(vs, es), |vs|, |vs|, Pos(ars, a), Pos(ars, b));
    SignedPath(vs, es, ars, lab, a[..k + 1], path, a, b);
    SignedApart(ars, a, b, k);
  }

  /** Seen from the child through which `a` leaves the common ancestor, `a` and `b` are as high and as low. */
  lemma SignedApart(ars: seq<nat>, a: seq<nat>, b: seq<nat>, k: nat)
    requires PartAt(ars, a, b, k)
    ensures ValidPath(ars, a[..k + 1])
    ensures Signed(ars, a[..k + 1], b) - Signed(ars, a[..k + 1], a) == 2 * Depth(|ars| - k)
  {
    var c := a[..k + 1];
    assert c[..|c| - 1] == a[..k];
    assert c[k] != b[k];
    DepthStep(0);
  }

  // ------------------------------------------------- the table of the built topology

  lemma TreeWellLinked(vs: seq<Vertex>, es: seq<Edge>, ars: seq<nat>, lab: Labels)
    requires DefaultTree(vs, es, ars, lab)
    ensures WellLinked(vs, es)
  {
    forall i, k | 0 <= i < |vs| && 0 <= k < |vs[i].linked|
      ensures LinkOk(es, |vs|, i, vs[i].linked[k])
    {
      var p := NodeOnto(Spot(0, 0, 0), ars, i);
      TreeLinkOk(vs, es, ars, lab, p, k);
    }
  }

  lemma TreeLinkOk(vs: seq<Vertex>, es: seq<Edge>, ars: seq<nat>, lab: Labels, p: seq<nat>, k: nat)
    requires DefaultTree(vs, es, ars, lab) && ValidPath(ars, p)
    requires Pos(ars, p) < |vs| && k < |vs[Pos(ars, p)].linked|
    ensures LinkOk(es, |vs|, Pos(ars, p), vs[Pos(ars, p)].linked[k])
  {
    LinkCount(vs, es, ars, lab, p);
    if |p| < |ars| && k < ars[|p|] {
      ChildLinkOk(vs, es, ars, lab, p, k);
    } else {
      ParentLinkIsOk(vs, es, ars, lab, p);
    }
  }

  lemma ChildLinkOk(vs: seq<Vertex>, es: seq<Edge>, ars: seq<nat>, lab: Labels, p: seq<nat>, k: nat)
    requires DefaultTree(vs, es, ars, lab) && ValidPath(ars, p) && |p| < |ars| && k < ars[|p|]
    ensures Pos(ars, p) < |vs| && k < |vs[Pos(ars, p)].linked|
    ensures LinkOk(es, |vs|, Pos(ars, p), vs[Pos(ars, p)].linked[k])
  {
    PowerThirty();
    LinkToChild(vs, es, ars, lab, p, k);
    PathInside(ars, p + [k]);
    NodeInjective(Spot(0, 0, 0), ars, p + [k], p);
    Pow2Monotone(|ars| - |p|, 30);
  }

  lemma ParentLinkIsOk(vs: seq<Vertex>, es: seq<Edge>, ars: seq<nat>, lab: Labels, p: seq<nat>)
    requires DefaultTree(vs, es, ars, lab) && ValidPath(ars, p) && p != []
    ensures Pos(ars, p) < |vs| && vs[Pos(ars, p)].linked != []
    ensures var links := vs[Pos(ars, p)].linked; LinkOk(es, |vs|, Pos(ars, p), links[|links| - 1])
  {
    var q := p[..|p| - 1];
    PowerThirty();
    LinkToParent(vs, es, ars, lab, p);
    PathInside(ars, q);
    NodeInjective(Spot(0, 0, 0), ars, q, p);
    Pow2Monotone(|ars| - |p| + 1, 30);
  }

  /** Exactly the vertices at the end of full paths are processing units. */
  lemma PuAt(vs: seq<Vertex>, es: seq<Edge>, ars: seq<nat>, lab: Labels, p: seq<nat>)
    requires DefaultTree(vs, es, ars, lab) && ValidPath(ars, p)
    ensures Pos(ars, p) < |vs| && (vs[Pos(ars, p)].typ == Pu <==> |p| == |ars|)
    ensures |p| == |ars| ==> vs[Pos(ars, p)].id == PuId(lab, Node(Spot(0, 0, 0), ars, p).leaf)
    ensures |p| == |ars| ==> Node(Spot(0, 0, 0), ars, p).leaf < Leaves(ars)
  {
    VertexAt(vs, es, Spot(0, 0, 0), ars, lab, Root, [], p);
    NodeInside(Spot(0, 0, 0), ars, p);
  }

  lemma TreeNumbered(vs: seq<Vertex>, es: seq<Edge>, ars: seq<nat>, lab: Labels)
    requires DefaultTree(vs, es, ars, lab) && PermutesPus(lab, Leaves(ars))
    ensures NumberedPus(vs, Leaves(ars))
  {
    forall i | 0 <= i < |vs| && vs[i].typ == Pu
      ensures vs[i].id < Leaves(ars)
    {
      var p := NodeOnto(Spot(0, 0, 0), ars, i);
      PuAt(vs, es, ars, lab, p);
    }
    forall i, j | 0 <= i < j < |vs| && vs[i].typ == Pu && vs[j].typ == Pu
      ensures vs[i].id != vs[j].id
    {
      var p := NodeOnto(Spot(0, 0, 0), ars, i);
      var q := NodeOnto(Spot(0, 0, 0), ars, j);
      PuAt(vs, es, ars, lab, p);
      PuAt(vs, es, ars, lab, q);
      LeafInjective(Spot(0, 0, 0), ars, p, q);
      var a, b := Node(Spot(0, 0, 0), ars, p).leaf, Node(Spot(0, 0, 0), ars, q).leaf;
      assert PuId(lab, if a < b then a else b) != PuId(lab, if a < b then b else a);
    }
  }

  /** Id of the processing unit at the end of a full path. */
  function PuOf(lab: Labels, ars: seq<nat>, p: seq<nat>): nat
    requires ValidPath(ars, p)
  {
    PuId(lab, Node(Spot(0, 0, 0), ars, p).leaf)
  }

  ghost predicate Entry(d: Grid, x: nat, y: nat, v: int)
    reads d.cells
  {
    d.Valid() && d.Inside(x, y) && d.At(x, y) == v
  }

  lemma PuPair(vs: seq<Vertex>, es: seq<Edge>, ars: seq<nat>, lab: Labels, a: seq<nat>, b: seq<nat>, k: nat)
    requires DefaultTree(vs, es, ars, lab) && PermutesPus(lab, Leaves(ars)) && PartAt(ars, a, b, k)
    ensures Pos(ars, a) < |vs| && vs[Pos(ars, a)].typ == Pu && vs[Pos(ars, a)].id == PuOf(lab, ars, a) < Leaves(ars)
    ensures Pos(ars, b) < |vs| && vs[Pos(ars, b)].typ == Pu && vs[Pos(ars, b)].id == PuOf(lab, ars, b) < Leaves(ars)
    ensures Through(DirectSteps(vs, es), |vs|, Pos(ars, a), Pos(ars, b)) == Min(UNLINKED, Pow2(|ars| - k + 2) - 4)
  {
    PuAt(vs, es, ars, lab, a);
    PuAt(vs, es, ars, lab, b);
    PuDistance(vs, es, ars, lab, a, b, k);
  }

  /** Builds the default topology and its distance table. */
  method BuildDistances(ars: seq<nat>, lab: Labels) returns (distPus: Grid)
    requires 1 <= |ars| <= 30 && lab.weights == None && Enough(lab, ars, 0) && PermutesPus(lab, Leaves(ars))
    requires Size(ars) <= 0x8000 && Leaves(ars) <= 0x8000
    ensures distPus.Valid() && Leaves(ars) <= Pow2(distPus.bits)
    ensures forall a, b, k | PartAt(ars, a, b, k) ::
              Entry(distPus, PuOf(lab, ars, a), PuOf(lab, ars, b), Min(65535, Pow2(|ars| - k + 2) - 4))
    ensures forall a | FullPath(ars, a) :: Entry(distPus, PuOf(lab, ars, a), PuOf(lab, ars, a), 0)
  {
    var t := new Topology.Build(ars, lab);
    ghost var vs, es := t.graph.vertices[..], t.graph.edges[..];
    TreeWellLinked(vs, es, ars, lab);
    TreeNumbered(vs, es, ars, lab);
    distPus := FloydWarshall(t.graph, Leaves(ars));
    forall a, b, k | PartAt(ars, a, b, k)
      ensures Entry(distPus, PuOf(lab, ars, a), PuOf(lab, ars, b), Min(UNLINKED, Pow2(|ars| - k + 2) - 4))
    {
      EntryOfPair(distPus, vs, es, ars, lab, a, b, k);
    }
    forall a | FullPath(ars, a)
      ensures Entry(distPus, PuOf(lab, ars, a), PuOf(lab, ars, a), 0)
    {
      EntryOfSelf(distPus, vs, es, ars, lab, a);
    }
  }

  lemma EntryOfPair(d: Grid, vs: seq<Vertex>, es: seq<Edge>, ars: seq<nat>, lab: Labels, a: seq<nat>, b: seq<nat>,
                    k: nat)
    requires DefaultTree(vs, es, ars, lab) && PermutesPus(lab, Leaves(ars)) && PartAt(ars, a, b, k)
    requires HoldsDistances(d, vs, es, Leaves(ars))
    ensures Entry(d, PuOf(lab, ars, a), PuOf(lab, ars, b), Min(UNLINKED, Pow2(|ars| - k + 2) - 4))
  {
    PuPair(vs, es, ars, lab, a, b, k);
  }

  lemma EntryOfSelf(d: Grid, vs: seq<Vertex>, es: seq<Edge>, ars: seq<nat>, lab: Labels, a: seq<nat>)
    requires DefaultTree(vs, es, ars, lab) && PermutesPus(lab, Leaves(ars)) && FullPath(ars, a)
    requires WellLinked(vs, es) && HoldsDistances(d, vs, es, Leaves(ars))
    ensures Entry(d, PuOf(lab, ars, a), PuOf(lab, ars, a), 0)
  {
    PuAt(vs, es, ars, lab, a);
    TableIsMetric(vs, es, Pos(ars, a), Pos(ars, a), Pos(ars, a));
  }

  predicate FullPath(ars: seq<nat>, a: seq<nat>) {
    ValidPath(ars, a) && |a| == |ars|
  }
}
