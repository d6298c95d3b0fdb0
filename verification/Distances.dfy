/** The distance table of the processing units: direct distances read off the links,
    relaxed in place, then copied for the processing units. */
module Distances {
  import opened Arithmetic
  import opened Matrices
  import opened Lib
  import opened Graphs
  import opened ShortestPaths

  /** Distance between vertices that are not linked. */
  const UNLINKED: nat := 65535

  /** Weight of the last of the first `k` links that leads to `j`, or `other` if none does. */
  function LinkDist(es: seq<Edge>, links: seq<Link>, k: nat, j: nat, other: nat): nat
    requires k <= |links|
  {
    if k == 0 then other
    else if links[k - 1].v == j then EdgeWeight(es, links[k - 1].e)
    else LinkDist(es, links, k - 1, j, other)
  }

  function EdgeWeight(es: seq<Edge>, e: nat): nat {
    if e < |es| && es[e].weight >= 0 then es[e].weight else 0
  }

  /** Direct distance between two vertices of the arena. */
  function Direct(vs: seq<Vertex>, es: seq<Edge>, i: nat, j: nat): nat {
    var other := if i == j then 0 else UNLINKED;
    if i < |vs| then LinkDist(es, vs[i].linked, |vs[i].linked|, j, other) else other
  }

  function DirectSteps(vs: seq<Vertex>, es: seq<Edge>): Steps {
    (i: nat, j: nat) => Direct(vs, es, i, j)
  }

  /** Twice this weight still fits the table's `unsigned`. */
  const HEAVIEST: nat := 0x7FFF_FFFF

  /** Links stay inside the arena, never lead back to their own vertex, and are not too heavy to add. */
  ghost predicate WellLinked(vs: seq<Vertex>, es: seq<Edge>) {
    forall i, k | 0 <= i < |vs| && 0 <= k < |vs[i].linked| :: LinkOk(es, |vs|, i, vs[i].linked[k])
  }

  predicate LinkOk(es: seq<Edge>, n: nat, i: nat, link: Link) {
    link.v < n && link.v != i && link.e < |es| && 0 <= es[link.e].weight <= HEAVIEST
  }

  lemma {:induction false} LinkDistBound(vs: seq<Vertex>, es: seq<Edge>, i: nat, k: nat, j: nat, other: nat)
    requires WellLinked(vs, es) && i < |vs| && k <= |vs[i].linked| && other <= HEAVIEST
    ensures LinkDist(es, vs[i].linked, k, j, other) <= HEAVIEST
    ensures i == j ==> LinkDist(es, vs[i].linked, k, j, other) == other
  {
    if k > 0 {
      assert LinkOk(es, |vs|, i, vs[i].linked[k - 1]);
      LinkDistBound(vs, es, i, k - 1, j, other);
    }
  }

  /** Direct distances are the weights of links, 65535 between vertices without one, and 0 for a vertex and itself. */
  lemma {:induction false} DirectMeaning(vs: seq<Vertex>, es: seq<Edge>, i: nat, j: nat, k: nat)
    requires WellLinked(vs, es) && i < |vs| && k <= |vs[i].linked|
    requires forall l | k <= l < |vs[i].linked| :: vs[i].linked[l].v != j
    ensures k > 0 && vs[i].linked[k - 1].v == j ==> DirectSteps(vs, es)(i, j) == es[vs[i].linked[k - 1].e].weight
    ensures k == 0 ==> DirectSteps(vs, es)(i, j) == if i == j then 0 else 65535
  {
    var links, other := vs[i].linked, if i == j then 0 else UNLINKED;
    LastLinkCounts(es, links, k, |links|, j, other);
    if k > 0 {
      assert LinkOk(es, |vs|, i, links[k - 1]);
    }
  }

  lemma {:induction false} LastLinkCounts(es: seq<Edge>, links: seq<Link>, k: nat, n: nat, j: nat, other: nat)
    requires k <= n <= |links| && forall l | k <= l < n :: links[l].v != j
    ensures LinkDist(es, links, n, j, other) == LinkDist(es, links, k, j, other)
  {
    if k < n {
      LastLinkCounts(es, links, k, n - 1, j, other);
    }
  }

  lemma DirectBound(vs: seq<Vertex>, es: seq<Edge>)
    requires WellLinked(vs, es)
    ensures forall i: nat, j: nat :: DirectSteps(vs, es)(i, j) <= HEAVIEST
    ensures ZeroDiagonal(DirectSteps(vs, es), |vs|)
  {
    forall i: nat, j: nat
      ensures DirectSteps(vs, es)(i, j) <= HEAVIEST && (i == j ==> DirectSteps(vs, es)(i, j) == 0)
    {
      if i < |vs| {
        LinkDistBound(vs, es, i, |vs[i].linked|, j, if i == j then 0 else UNLINKED);
      }
    }
  }

  /** The table holds `w` on the first `n` rows and columns. */
  ghost predicate Shows(d: Grid, n: nat, w: Steps)
    requires d.Valid() && n <= Pow2(d.bits)
    reads d.cells
  {
    forall i: nat, j: nat | i < n && j < n :: d.At(i, j) == w(i, j)
  }

  /** Fills the table with the direct distances. */
  method InitDistances(g: Graph, d: Grid)
    requires g.Valid() && WellLinked(g.vertices[..], g.edges[..])
    requires d.Valid() && g.vertices.Length <= Pow2(d.bits)
    modifies d.cells
    ensures Shows(d, g.vertices.Length, DirectSteps(g.vertices[..], g.edges[..]))
  {
    var n := g.vertices.Length;
    for i := 0 to n
      invariant forall a: nat, b: nat | a < n && b < n && (a < i || b < i) ::
                  d.At(a, b) == if a == b then 0 else UNLINKED
    {
      d.Set(i, i, 0);
      for j := i + 1 to n
        invariant forall a: nat, b: nat | a < n && b < n
                  && (a < i || b < i || (a == i && b < j) || (b == i && a < j)) ::
                    d.At(a, b) == if a == b then 0 else UNLINKED
      {
        d.Set(j, i, UNLINKED);
        d.Set(i, j, UNLINKED);
      }
    }
    ghost var vs, es := g.vertices[..], g.edges[..];
    for i := 0 to n
      invariant forall a: nat, b: nat | a < n && b < n ::
                  d.At(a, b) == if a < i then Direct(vs, es, a, b) else if a == b then 0 else UNLINKED
    {
      for j := 0 to |g.vertices[i].linked|
        invariant forall a: nat, b: nat | a < n && b < n && a != i ::
                    d.At(a, b) == if a < i then Direct(vs, es, a, b) else if a == b then 0 else UNLINKED
        invariant forall b: nat | b < n ::
                    d.At(i, b) == LinkDist(es, vs[i].linked, j, b, if i == b then 0 else UNLINKED)
      {
        var link := g.vertices[i].linked[j];
        assert LinkOk(es, n, i, vs[i].linked[j]);
        d.Set(i, g.vertices[link.v].pos, g.edges[link.e].weight);
      }
    }
  }

  /** Relaxes the table in place: afterwards it holds the shortest distances. */
  method Relax(d: Grid, n: nat, ghost w: Steps)
    requires d.Valid() && n <= Pow2(d.bits) && Shows(d, n, w)
    requires ZeroDiagonal(w, n) && forall i: nat, j: nat :: w(i, j) <= HEAVIEST
    modifies d.cells
    ensures Relaxed(d, n, w)
  {
    for k := 0 to n
      invariant forall a: nat, b: nat | a < n && b < n :: d.At(a, b) == Through(w, k, a, b)
    {
      for i := 0 to n
        invariant forall a: nat, b: nat | a < n && b < n :: d.At(a, b) == Through(w, if a < i then k + 1 else k, a, b)
      {
        RelaxRow(d, n, k, i, w);
      }
    }
  }

  /** What relaxing one cell reads and writes; the sum cannot overflow. */
  lemma RelaxFacts(w: Steps, n: nat, k: nat, i: nat, j: nat)
    requires ZeroDiagonal(w, n) && k < n && i < n && j < n && forall a: nat, b: nat :: w(a, b) <= HEAVIEST
    ensures Through(w, k + 1, i, k) == Through(w, k, i, k) <= HEAVIEST
    ensures Through(w, k + 1, k, j) == Through(w, k, k, j) <= HEAVIEST
    ensures Through(w, k + 1, i, j) ==
              var direct, sum := Through(w, k, i, j), Through(w, k, i, k) + Through(w, k, k, j);
              if direct > sum then sum else direct
  {
    PhaseKeepsPivot(w, n, k, i);
    PhaseKeepsPivot(w, n, k, j);
    ThroughShrinks(w, k, i, k);
    ThroughShrinks(w, k, k, j);
  }

  /** Relaxes row `i` in phase `k`. */
  method RelaxRow(d: Grid, n: nat, k: nat, i: nat, ghost w: Steps)
    requires d.Valid() && n <= Pow2(d.bits) && k < n && i < n
    requires ZeroDiagonal(w, n) && forall a: nat, b: nat :: w(a, b) <= HEAVIEST
    requires forall a: nat, b: nat | a < n && b < n :: d.At(a, b) == Through(w, if a < i then k + 1 else k, a, b)
    modifies d.cells
    ensures forall a: nat, b: nat | a < n && b < n :: d.At(a, b) == Through(w, if a <= i then k + 1 else k, a, b)
  {
    for j := 0 to n
      invariant forall a: nat, b: nat | a < n && b < n ::
                  d.At(a, b) == Through(w, if a < i || (a == i && b < j) then k + 1 else k, a, b)
    {
      RelaxFacts(w, n, k, i, j);
      var sum: Word := d.At(i, k) + d.At(k, j);
      if d.At(i, j) > sum {
        d.Set(i, j, sum);
      }
    }
  }

  /** Processing units have ids below `puNumber`, all different. */
  ghost predicate NumberedPus(vs: seq<Vertex>, puNumber: nat) {
    && (forall i | 0 <= i < |vs| && vs[i].typ == Pu :: vs[i].id < puNumber)
    && (forall i, j | 0 <= i < j < |vs| && vs[i].typ == Pu && vs[j].typ == Pu :: vs[i].id != vs[j].id)
  }

  ghost predicate Relaxed(d: Grid, n: nat, w: Steps)
    reads d.cells
  {
    d.Valid() && n <= Pow2(d.bits) && forall i: nat, j: nat | i < n && j < n :: d.At(i, j) == Through(w, n, i, j)
  }

  /** The table of the processing units shows what the table of all vertices says about them. */
  ghost predicate Copied(d: Grid, dist: Grid, vs: seq<Vertex>, n: nat)
    reads d.cells, dist.cells
  {
    && d.Valid() && dist.Valid() && n <= Pow2(d.bits) && |vs| <= Pow2(dist.bits) && NumberedPus(vs, n)
    && forall i: nat, j: nat | i < |vs| && j < |vs| && vs[i].typ == vs[j].typ == Pu ::
         d.At(vs[i].id, vs[j].id) == dist.At(i, j)
  }

  lemma Assembled(d: Grid, dist: Grid, vs: seq<Vertex>, es: seq<Edge>, n: nat)
    requires Copied(d, dist, vs, n) && Relaxed(dist, |vs|, DirectSteps(vs, es))
    ensures HoldsDistances(d, vs, es, n)
  {
  }

  /** The table holds the shortest distances between all processing units. */
  ghost predicate HoldsDistances(d: Grid, vs: seq<Vertex>, es: seq<Edge>, n: nat)
    reads d.cells
  {
    && d.Valid() && n <= Pow2(d.bits) && NumberedPus(vs, n)
    && forall i: nat, j: nat | i < |vs| && j < |vs| && vs[i].typ == vs[j].typ == Pu ::
         d.At(vs[i].id, vs[j].id) == Through(DirectSteps(vs, es), |vs|, i, j)
  }

  /** The table that the topology keeps: shortest distances between processing units, by id. */
  method FloydWarshall(g: Graph, puNumber: nat) returns (distPus: Grid)
    requires g.Valid() && WellLinked(g.vertices[..], g.edges[..]) && NumberedPus(g.vertices[..], puNumber)
    requires g.vertices.Length <= 0x8000 && puNumber <= 0x8000
    ensures HoldsDistances(distPus, g.vertices[..], g.edges[..], puNumber)
  {
    var n := g.vertices.Length;
    ghost var w := DirectSteps(g.vertices[..], g.edges[..]);
    var dist := new Grid(n);
    distPus := new Grid(puNumber);
    DirectBound(g.vertices[..], g.edges[..]);
    InitDistances(g, dist);
    Relax(dist, n, w);
    CopyPus(g, puNumber, dist, distPus);
    Assembled(distPus, dist, g.vertices[..], g.edges[..], puNumber);
  }

  method CopyPus(g: Graph, puNumber: nat, dist: Grid, distPus: Grid)
    requires g.Valid() && NumberedPus(g.vertices[..], puNumber)
    requires dist.Valid() && distPus.Valid() && dist.cells != distPus.cells
    requires g.vertices.Length <= Pow2(dist.bits) && puNumber <= Pow2(distPus.bits)
    modifies distPus.cells
    ensures Copied(distPus, dist, g.vertices[..], puNumber)
  {
    var n := g.vertices.Length;
    ghost var vs := g.vertices[..];
    for i := 0 to puNumber {
      for j := 0 to puNumber {
        distPus.Set(i, j, 0);
      }
    }
    for i := 0 to n
      invariant forall a: nat, b: nat | a < i && b < n && vs[a].typ == vs[b].typ == Pu ::
                  distPus.At(vs[a].id, vs[b].id) == dist.At(a, b)
    {
      for j := 0 to n
        invariant forall a: nat, b: nat | a < n && b < n && (a < i || (a == i && b < j))
                  && vs[a].typ == vs[b].typ == Pu ::
                    distPus.At(vs[a].id, vs[b].id) == dist.At(a, b)
      {
        if g.vertices[i].typ == Pu && g.vertices[j].typ == Pu {
          distPus.Set(g.vertices[i].id, g.vertices[j].id, dist.At(i, j));
        }
      }
    }
  }

  // ----------------------------------------------- the table and the graph's paths

  predicate LinkedTo(vs: seq<Vertex>, i: nat, j: nat) {
    i < |vs| && exists k :: 0 <= k < |vs[i].linked| && vs[i].linked[k].v == j
  }

  /** A path of the graph: every step follows a link or stays where it is. */
  predicate FollowsLinks(vs: seq<Vertex>, p: seq<nat>) {
    forall x | 0 <= x < |p| - 1 :: p[x] == p[x + 1] || LinkedTo(vs, p[x], p[x + 1])
  }

  lemma {:induction false} NotLinked(es: seq<Edge>, links: seq<Link>, k: nat, j: nat, other: nat)
    requires k <= |links| && forall i | 0 <= i < k :: links[i].v != j
    ensures LinkDist(es, links, k, j, other) == other
  {
    if k > 0 {
      NotLinked(es, links, k - 1, j, other);
    }
  }

  /** A path with a step along no link is at least as long as the distance of unlinked vertices. */
  lemma {:induction false} OffLinks(vs: seq<Vertex>, es: seq<Edge>, p: seq<nat>)
    requires !FollowsLinks(vs, p) && forall x | 0 <= x < |p| :: p[x] < |vs|
    ensures Length(DirectSteps(vs, es), p) >= UNLINKED
  {
    var k := |p| - 1;
    var i, j := p[k - 1], p[k];
    if i != j && !LinkedTo(vs, i, j) {
      NotLinked(es, vs[i].linked, |vs[i].linked|, j, UNLINKED);
    } else {
      OffLinks(vs, es, p[..k]);
    }
  }

  /** The table holds the smaller of the true shortest path length and the distance of unlinked
      vertices: no path of links is shorter, an entry below that distance is the length of some
      path of links, and no entry exceeds it unless links do. */
  lemma ShortestOrUnlinked(vs: seq<Vertex>, es: seq<Edge>, i: nat, j: nat)
    requires WellLinked(vs, es) && i < |vs| && j < |vs|
    ensures var w, d := DirectSteps(vs, es), Through(DirectSteps(vs, es), |vs|, i, j);
            && (forall p: seq<nat> | Joins(p, |vs|, i, j) && FollowsLinks(vs, p) :: d <= Length(w, p))
            && (d < UNLINKED ==> exists p: seq<nat> :: Joins(p, |vs|, i, j) && FollowsLinks(vs, p) && Length(w, p) == d)
            && (!LinkedTo(vs, i, j) ==> d <= UNLINKED)
  {
    var w, n := DirectSteps(vs, es), |vs|;
    DirectBound(vs, es);
    forall p: seq<nat> | Joins(p, n, i, j)
      ensures Through(w, n, i, j) <= Length(w, p)
    {
      NoPathIsShorter(w, n, p, i, j);
    }
    var p := SomePathAttains(w, n, n, i, j);
    if !FollowsLinks(vs, p) {
      OffLinks(vs, es, p);
    }
    if !LinkedTo(vs, i, j) {
      ThroughShrinks(w, n, i, j);
      NotLinked(es, vs[i].linked, |vs[i].linked|, j, if i == j then 0 else UNLINKED);
    }
  }

  /** With symmetric links the table is symmetric, and it always satisfies the triangle inequality. */
  lemma TableIsMetric(vs: seq<Vertex>, es: seq<Edge>, i: nat, m: nat, j: nat)
    requires WellLinked(vs, es) && i < |vs| && m < |vs| && j < |vs|
    ensures var w, n := DirectSteps(vs, es), |vs|;
            && Through(w, n, i, i) == 0
            && Through(w, n, i, j) <= Through(w, n, i, m) + Through(w, n, m, j)
            && ((forall a: nat, b: nat | a < n && b < n :: w(a, b) == w(b, a))
                ==> Through(w, n, i, j) == Through(w, n, j, i))
  {
    var w, n := DirectSteps(vs, es), |vs|;
    DirectBound(vs, es);
    DiagonalStaysZero(w, n, n, i);
    Triangle(w, n, n, i, m, j);
    if forall a: nat, b: nat | a < n && b < n :: w(a, b) == w(b, a) {
      ThroughSymmetric(w, n, n, i, j);
    }
  }
}
