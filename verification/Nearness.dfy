/** How far apart the greedy placement puts two threads: the lowest level at which they share a group
    determines the distance of their processing units. */
module Nearness {
  import opened Arithmetic
  import opened Forest
  import opened Affinity
  import opened Graphs
  import opened TreeShape
  import opened TreePaths
  import opened Distances
  import opened Lib
  import opened Ultrametric
  import opened GreedyMapping
  import opened Placements
  import opened Localities

  // ------------------------------------------------------------- paths to leaves

  /** The path to a leaf, which passes through the vertices above it. */
  lemma {:induction false} PathTo(s: Spot, ars: seq<nat>, q: nat) returns (p: seq<nat>)
    requires (forall i | 0 <= i < |ars| :: ars[i] >= 1) && q < Leaves(ars)
    ensures FullPath(ars, p) && Node(s, ars, p).leaf == s.leaf + q
    ensures forall d | 0 <= d <= |ars| :: PassesAbove(s, ars, p, d, q)
    decreases |ars|
  {
    if ars == [] {
      p := [];
    } else {
      var i, x := AboveInChild(s, ars, q);
      var rest := PathTo(Child(s, ars, i), ars[1..], x);
      p := [i] + rest;
      assert p[1..] == rest;
      forall d | 0 <= d <= |ars|
        ensures PassesAbove(s, ars, p, d, q)
      {
        if d > 0 {
          assert PassesAbove(Child(s, ars, i), ars[1..], rest, d - 1, x);
          assert p[..d][1..] == rest[..d - 1];
        }
      }
    }
  }

  predicate PassesAbove(s: Spot, ars: seq<nat>, p: seq<nat>, d: nat, q: nat)
    requires d <= |ars| && (forall i | 0 <= i < |ars| :: ars[i] >= 1) && FullPath(ars, p)
  {
    Node(s, ars, p[..d]).pos == VertexAbove(s, ars, d, q)
  }

  /** The vertices that groups of level `l` are laid out on are `d` levels below the root. */
  lemma {:induction false} DepthOfLevel(ars: seq<nat>, l: nat) returns (d: nat)
    requires 2 <= l <= |SharedOf(ars)| + 1
    ensures d < |ars| && ars[d] >= 2 && |SharedOf(ars[d..])| == l - 1 && |SharedOf(ars[d + 1..])| == l - 2
  {
    if ars[0] >= 2 && |SharedOf(ars)| == l - 1 {
      d := 0;
      assert ars[0..] == ars;
    } else {
      var e := DepthOfLevel(ars[1..], l);
      d := e + 1;
      assert ars[1..][e..] == ars[d..] && ars[1..][e + 1..] == ars[d + 1..];
    }
  }

  // ------------------------------------------------------------------ common groups

  /** Threads that share a group share all groups above it. */
  lemma {:induction false} SharedAbove(f: Levels, shared: seq<nat>, k: nat, l: nat, a: nat, b: nat)
    requires Fits(f, shared) && k <= l < |f| && a < |f[0]| && b < |f[0]| && Up(f, shared, k, a) == Up(f, shared, k, b)
    ensures Up(f, shared, l, a) == Up(f, shared, l, b)
  {
    if k < l {
      SharedAbove(f, shared, k, l - 1, a, b);
    }
  }

  /** `l` is the lowest level at which two threads share a group. */
  ghost predicate Meet(f: Levels, shared: seq<nat>, l: nat, a: nat, b: nat)
    requires Fits(f, shared) && a < |f[0]| && b < |f[0]|
  {
    && 1 <= l < |f| && Up(f, shared, l, a) == Up(f, shared, l, b)
    && forall k | 1 <= k < l :: Up(f, shared, k, a) != Up(f, shared, k, b)
  }

  lemma {:induction false} TheyMeet(f: Levels, shared: seq<nat>, top: nat, a: nat, b: nat) returns (l: nat)
    requires Fits(f, shared) && a < |f[0]| && b < |f[0]|
    requires 1 <= top < |f| && Up(f, shared, top, a) == Up(f, shared, top, b)
    ensures Meet(f, shared, l, a, b)
  {
    if top > 1 && Up(f, shared, top - 1, a) == Up(f, shared, top - 1, b) {
      l := TheyMeet(f, shared, top - 1, a, b);
    } else {
      l := top;
      forall k | 1 <= k < l
        ensures Up(f, shared, k, a) != Up(f, shared, k, b)
      {
        if Up(f, shared, k, a) == Up(f, shared, k, b) {
          SharedAbove(f, shared, k, l - 1, a, b);
          assert false;
        }
      }
    }
  }

  // --------------------------------------------------------------------- distances

  /** The units of two threads that meet at level `l` part below the vertex of that level. */
  lemma ThreadsPart(m: seq<nat>, n: nat, w: Weights, ars: seq<nat>, lab: Labels, f: Levels, l: nat, a: nat, b: nat)
    returns (d: nat, p: seq<nat>, q: seq<nat>)
    requires Machine(ars, lab) && Placement(m, n, w, ars, lab, f) && a < n && b < n
    requires l >= 2 && Meet(f, SharedOf(ars), l, a, b)
    ensures d < |ars| && ars[d] >= 2 && |SharedOf(ars[d..])| == l - 1
    ensures PartAt(ars, p, q, d) && PuOf(lab, ars, p) == m[a] && PuOf(lab, ars, q) == m[b]
  {
    var s := Spot(0, 0, 0);
    var x, y := Leaf(f, SharedOf(ars), a), Leaf(f, SharedOf(ars), b);
    d := DepthOfLevel(ars, l);
    EveryThreadPlaced(m, n, w, ars, lab, f, a);
    EveryThreadPlaced(m, n, w, ars, lab, f, b);
    LeavesIsProduct(ars);
    p := PathTo(s, ars, x);
    q := PathTo(s, ars, y);
    GroupsAreVertices(m, n, w, ars, lab, f, d, a, b);
    GroupsAreVertices(m, n, w, ars, lab, f, d + 1, a, b);
    PathsPart(ars, p, q, d, x, y);
  }

  /** Paths to leaves part where the vertices above the leaves do. */
  lemma PathsPart(ars: seq<nat>, p: seq<nat>, q: seq<nat>, d: nat, x: nat, y: nat)
    requires d < |ars| && (forall i | 0 <= i < |ars| :: ars[i] >= 1) && FullPath(ars, p) && FullPath(ars, q)
    requires forall e | 0 <= e <= |ars| :: PassesAbove(Spot(0, 0, 0), ars, p, e, x)
    requires forall e | 0 <= e <= |ars| :: PassesAbove(Spot(0, 0, 0), ars, q, e, y)
    requires VertexAbove(Spot(0, 0, 0), ars, d, x) == VertexAbove(Spot(0, 0, 0), ars, d, y)
    requires VertexAbove(Spot(0, 0, 0), ars, d + 1, x) != VertexAbove(Spot(0, 0, 0), ars, d + 1, y)
    ensures PartAt(ars, p, q, d)
  {
    var s := Spot(0, 0, 0);
    assert PassesAbove(s, ars, p, d, x) && PassesAbove(s, ars, q, d, y);
    assert PassesAbove(s, ars, p, d + 1, x) && PassesAbove(s, ars, q, d + 1, y);
    if p[..d] != q[..d] {
      NodeInjective(s, ars, p[..d], q[..d]);
    }
    assert p[..d + 1] == p[..d] + [p[d]] && q[..d + 1] == q[..d] + [q[d]];
  }

  /** The distance of two units whose lowest common ancestor has `h` levels below it. */
  function DistanceAt(h: nat): int {
    if h == 0 then 0 else Min(UNLINKED, Pow2(h + 2) - 4)
  }

  /** What the distance table says about two threads: zero if they share a level 1 group, and otherwise the distance
      over the vertex of the lowest level at which they share a group. */
  lemma ThreadDistance(dist: Grid, vs: seq<Vertex>, es: seq<Edge>, m: seq<nat>, n: nat, w: Weights, ars: seq<nat>,
                       lab: Labels, f: Levels, a: nat, b: nat) returns (l: nat, h: nat)
    requires DefaultTree(vs, es, ars, lab) && PermutesPus(lab, Leaves(ars)) && HoldsDistances(dist, vs, es, Leaves(ars))
    requires Machine(ars, lab) && Placement(m, n, w, ars, lab, f) && a < n && b < n
    ensures Meet(f, SharedOf(ars), l, a, b)
    ensures if l == 1 then h == 0
            else 1 <= h <= |ars| && ars[|ars| - h] >= 2 && |SharedOf(ars[|ars| - h..])| == l - 1
    ensures Entry(dist, m[a], m[b], if h == 0 then 0 else Min(65535, Pow2(h + 2) - 4))
  {
    var shared := SharedOf(ars);
    RootIsUp(f, shared, a);
    RootIsUp(f, shared, b);
    l := TheyMeet(f, shared, |f| - 1, a, b);
    if l == 1 {
      h := 0;
      SameUnit(dist, vs, es, m, n, w, ars, lab, f, a, b);
    } else {
      var d, p, q := ThreadsPart(m, n, w, ars, lab, f, l, a, b);
      h := |ars| - d;
      EntryOfPair(dist, vs, es, ars, lab, p, q, d);
    }
  }

  lemma SameUnit(dist: Grid, vs: seq<Vertex>, es: seq<Edge>, m: seq<nat>, n: nat, w: Weights, ars: seq<nat>,
                 lab: Labels, f: Levels, a: nat, b: nat)
    requires DefaultTree(vs, es, ars, lab) && PermutesPus(lab, Leaves(ars)) && HoldsDistances(dist, vs, es, Leaves(ars))
    requires Machine(ars, lab) && Placement(m, n, w, ars, lab, f) && a < n && b < n
    requires Up(f, SharedOf(ars), 1, a) == Up(f, SharedOf(ars), 1, b)
    ensures Entry(dist, m[a], m[b], 0)
  {
    SameLeafSameGroup(f, SharedOf(ars), a, b);
    EveryThreadPlaced(m, n, w, ars, lab, f, a);
    LeavesIsProduct(ars);
    var p := PathTo(Spot(0, 0, 0), ars, Leaf(f, SharedOf(ars), a));
    TreeWellLinked(vs, es, ars, lab);
    EntryOfSelf(dist, vs, es, ars, lab, p);
  }

  /** The lower the level at which threads share a group, the nearer their units. */
  lemma LowerIsNearer(ars: seq<nat>, l: nat, h: nat, k: nat, g: nat)
    requires 1 <= l <= k && h <= |ars| && g <= |ars|
    requires if l == 1 then h == 0 else 1 <= h && ars[|ars| - h] >= 2 && |SharedOf(ars[|ars| - h..])| == l - 1
    requires if k == 1 then g == 0 else 1 <= g && ars[|ars| - g] >= 2 && |SharedOf(ars[|ars| - g..])| == k - 1
    ensures DistanceAt(h) <= DistanceAt(g)
  {
    if h > g && k > 1 {
      SharedShrinks(ars, |ars| - h, |ars| - g);
      assert false;
    }
    if h <= g {
      Pow2Monotone(h + 2, g + 2);
    }
  }

  /** Above a shared vertex there are more shared levels than below it. */
  lemma {:induction false} SharedShrinks(ars: seq<nat>, d: nat, e: nat)
    requires d < e <= |ars| && ars[d] >= 2
    ensures |SharedOf(ars[d..])| > |SharedOf(ars[e..])|
  {
    assert ars[d..][1..] == ars[d + 1..];
    SharedSuffix(ars[d + 1..], e - (d + 1));
    assert ars[d + 1..][e - (d + 1)..] == ars[e..];
  }
}
