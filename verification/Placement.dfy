/** The mapping thread: it builds and analyses the topology and initialises the algorithm once,
    then maps as often as it is asked to; and what every resulting placement guarantees. */
module Placements {
  import opened Arithmetic
  import opened Forest
  import opened Affinity
  import opened GreedyRule
  import opened Matrices
  import opened TreeShape
  import opened Topologies
  import opened GreedyMapping

  /** `m` places `n` threads on the machine of `ars` by the forest `f`, which the greedy rule
      builds from the communication `w`. */
  ghost predicate Placement(m: seq<nat>, n: nat, w: Weights, ars: seq<nat>, lab: Labels, f: Levels) {
    var shared := SharedOf(ars);
    && Fits(f, shared) && f[0] == ThreadLevel(n) && n <= |m|
    && GreedyLevels(w, f[..|f| - 1], shared)
    && f[|f| - 1] == [Range(|f[|f| - 2]|)]
    && forall t: nat | t < n :: m[t] == PuId(lab, Leaf(f, shared, t))
  }

  predicate Machine(ars: seq<nat>, lab: Labels) {
    && ars != [] && (forall k | 0 <= k < |ars| :: ars[k] >= 1)
    && Enough(lab, ars, 0)
  }

  /** The mapping thread's data: the topology, analysed, and the initialised algorithm. */
  class MapThread {
    ghost const ars: seq<nat>
    ghost const lab: Labels
    ghost const repr: set<object>
    const bits: nat
    const mapper: Mapper

    ghost predicate Valid()
      reads repr
    {
      && mapper in repr && mapper.matrix0 in repr && mapper.matrix1 in repr && mapper.topology in repr
      && mapper.topology.graph in repr && mapper.topology.graph.vertices in repr && mapper.topology.graph.edges in repr
      && {mapper.groups, mapper.chosen, mapper.winners, mapper.matrix0.cells, mapper.matrix1.cells} <= repr
      && Machine(ars, lab) && mapper.Ready(SharedOf(ars), bits) && mapper.topology.Holds(ars, lab)
    }

    constructor (ars: seq<nat>, lab: Labels, bits: nat)
      requires Machine(ars, lab)
      ensures Valid() && this.ars == ars && this.lab == lab && this.bits == bits
      ensures fresh(repr)
    {
      var topo := new Topology.Build(ars, lab);
      topo.Analyse(ars, lab);
      var m := new Mapper.Init(topo, bits, ars, lab);
      this.ars, this.lab, this.bits, mapper := ars, lab, bits, m;
      repr := {m, m.matrix0, m.matrix1, topo, topo.graph, topo.graph.vertices, topo.graph.edges,
               m.groups, m.chosen, m.winners, m.matrix0.cells, m.matrix1.cells};
    }

    /** Places the threads of the matrix on the machine. */
    method PlaceThreads(m: CommMatrix, map': array<nat>) returns (ghost f: Levels)
      requires Valid() && m !in repr && m.cells !in repr && map' !in repr
      requires m.Valid() && m.bits == bits && m.Defined(m.nthreads)
      requires 1 <= m.nthreads <= MAX_THREADS && m.nthreads <= Pow2(bits) && m.nthreads <= map'.Length
      modifies repr, map'
      ensures Valid() && Placement(map'[..], m.nthreads, m.Values(), ars, lab, f)
      ensures forall t: nat | t < m.nthreads :: Leaf(f, SharedOf(ars), t) < Product(ars)
      ensures lab.pus.Some? ==>
                Product(ars) <= |lab.pus.value|
                && forall t: nat | t < m.nthreads :: map'[t] == lab.pus.value[Leaf(f, SharedOf(ars), t)]
      ensures lab.pus.None? ==> forall t: nat | t < m.nthreads :: map'[t] == Leaf(f, SharedOf(ars), t)
      ensures forall t | m.nthreads <= t < map'.Length :: map'[t] == old(map'[t])
    {
      ghost var was := map'[..];
      ghost var below := mapper.GreedyMap(m, map', ars, lab, bits);
      f := below + [[Range(|below[|below| - 1]|)]];
      LaidOutIsPlaced(was, map'[..], m.nthreads, below, m.Values(), ars, lab);
      AllThreadsPlaced(map'[..], m.nthreads, m.Values(), ars, lab, f);
    }
  }

  lemma LaidOutIsPlaced(was: seq<nat>, m: seq<nat>, n: nat, below: Levels, w: Weights, ars: seq<nat>, lab: Labels)
    requires GreedyLevels(w, below, SharedOf(ars)) && |below| == |SharedOf(ars)| + 1
    requires below[0] == ThreadLevel(n) && n <= |was|
    requires var f := below + [[Range(|below[|below| - 1]|)]];
             Fits(f, SharedOf(ars)) && m == Layout(was, f, SharedOf(ars), |below|, 0, lab, 0)
    ensures Placement(m, n, w, ars, lab, below + [[Range(|below[|below| - 1]|)]])
    ensures forall t | n <= t < |m| :: m[t] == was[t]
  {
    var f := below + [[Range(|below[|below| - 1]|)]];
    assert f[..|f| - 1] == below;
    forall t: nat | t < n
      ensures m[t] == PuId(lab, Leaf(f, SharedOf(ars), t))
    {
      RootIsUp(f, SharedOf(ars), t);
    }
  }

  /** Every thread is below the one root group. */
  lemma RootIsUp(f: Levels, shared: seq<nat>, t: nat)
    requires Fits(f, shared) && t < |f[0]|
    ensures Up(f, shared, |f| - 1, t) == 0
  {
    assert Up(f, shared, |f| - 1, t) < |f[|f| - 1]|;
  }

  // --------------------------------------------------------------- totality

  /** Every thread gets a processing unit of the machine: the map holds the id that the caller's table has for
      the unit, or without a table the unit's number. */
  lemma EveryThreadPlaced(m: seq<nat>, n: nat, w: Weights, ars: seq<nat>, lab: Labels, f: Levels, t: nat)
    requires Machine(ars, lab) && Placement(m, n, w, ars, lab, f) && t < n
    ensures var q := Leaf(f, SharedOf(ars), t);
            && q < Product(ars)
            && (lab.pus.Some? ==> q < |lab.pus.value| && m[t] == lab.pus.value[q])
            && (lab.pus.None? ==> m[t] == q)
  {
    LeafInRange(f, SharedOf(ars), t);
    SharedProduct(ars);
    LeavesIsProduct(ars);
  }

  lemma AllThreadsPlaced(m: seq<nat>, n: nat, w: Weights, ars: seq<nat>, lab: Labels, f: Levels)
    requires Machine(ars, lab) && Placement(m, n, w, ars, lab, f)
    ensures lab.pus.Some? ==> Product(ars) <= |lab.pus.value|
    ensures forall t: nat | t < n ::
              var q := Leaf(f, SharedOf(ars), t);
              && q < Product(ars)
              && (lab.pus.Some? ==> m[t] == lab.pus.value[q])
              && (lab.pus.None? ==> m[t] == q)
  {
    LeavesIsProduct(ars);
    forall t: nat | t < n
      ensures var q := Leaf(f, SharedOf(ars), t);
              && q < Product(ars)
              && (lab.pus.Some? ==> m[t] == lab.pus.value[q])
              && (lab.pus.None? ==> m[t] == q)
    {
      EveryThreadPlaced(m, n, w, ars, lab, f, t);
    }
  }

  // ---------------------------------------------------------------- balance

  /** The threads that a placement puts on leaf `q`. */
  ghost function ThreadsOn(f: Levels, shared: seq<nat>, q: nat): set<nat>
    requires Fits(f, shared)
  {
    set t: nat | t in NumbersBelow(|f[0]|) && InLevel(f, t) && Leaf(f, shared, t) == q
  }

  ghost predicate InLevel(f: Levels, t: nat)
    requires f != []
  {
    t < |f[0]|
  }

  lemma ThreadsOnMember(f: Levels, shared: seq<nat>, q: nat, t: nat)
    requires Fits(f, shared)
    ensures t in ThreadsOn(f, shared, q) <==> t < |f[0]| && Leaf(f, shared, t) == q
  {
    InBelow(|f[0]|, t);
  }

  /** The leaf that all threads of level 1 group `g` are placed on. */
  ghost function LeafOfGroup(f: Levels, shared: seq<nat>, g: nat): nat
    requires Fits(f, shared) && g < |f[1]| && f[1][g] != []
  {
    assert Holds(f[1], g, 0, f[1][g][0]);
    Leaf(f, shared, f[1][g][0])
  }

  lemma GroupOfMember(f: Levels, shared: seq<nat>, g: nat, r: nat)
    requires Fits(f, shared) && g < |f[1]| && r < |f[1][g]|
    ensures f[1][g][r] < |f[0]| && Up(f, shared, 1, f[1][g][r]) == g
  {
    var t := f[1][g][r];
    assert Holds(f[1], g, r, t);
    var k := Rank(f, shared, 1, t);
    assert Holds(f[1], Up(f, shared, 1, t), k, t);
  }

  /** A level 1 group is exactly the set of threads on its leaf. */
  lemma GroupIsLeaf(f: Levels, shared: seq<nat>, g: nat)
    requires Fits(f, shared) && g < |f[1]| && f[1][g] != []
    ensures ThreadsOn(f, shared, LeafOfGroup(f, shared, g)) == Elems(f[1][g])
    ensures |ThreadsOn(f, shared, LeafOfGroup(f, shared, g))| == |f[1][g]|
  {
    var group, q := f[1][g], LeafOfGroup(f, shared, g);
    GroupOfMember(f, shared, g, 0);
    forall t: nat
      ensures t in ThreadsOn(f, shared, q) <==> t in group
    {
      ThreadsOnMember(f, shared, q, t);
      if t < |f[0]| {
        SameLeafSameGroup(f, shared, t, group[0]);
        MemberIffUp(f, shared, 1, g, t);
      } else if t in group {
        var r :| 0 <= r < |group| && group[r] == t;
        GroupOfMember(f, shared, g, r);
      }
    }
    assert Distinct(group) by {
      forall i, j | 0 <= i < j < |group|
        ensures group[i] != group[j]
      {
        assert Holds(f[1], g, i, group[i]) && Holds(f[1], g, j, group[j]);
      }
    }
    DistinctCardinality(group);
  }

  ghost function LeavesOfGroups(f: Levels, shared: seq<nat>, k: nat): (qs: seq<nat>)
    requires Fits(f, shared) && k <= |f[1]| && forall g | 0 <= g < |f[1]| :: f[1][g] != []
    ensures |qs| == k && forall g | 0 <= g < k :: qs[g] == LeafOfGroup(f, shared, g)
  {
    if k == 0 then [] else LeavesOfGroups(f, shared, k - 1) + [LeafOfGroup(f, shared, k - 1)]
  }

  lemma LeavesOfGroupsDistinct(f: Levels, shared: seq<nat>)
    requires Fits(f, shared) && forall g | 0 <= g < |f[1]| :: f[1][g] != []
    ensures Distinct(LeavesOfGroups(f, shared, |f[1]|))
    ensures forall g | 0 <= g < |f[1]| :: LeavesOfGroups(f, shared, |f[1]|)[g] < Product(shared)
  {
    forall g, h | 0 <= g < h < |f[1]|
      ensures LeafOfGroup(f, shared, g) != LeafOfGroup(f, shared, h)
    {
      GroupOfMember(f, shared, g, 0);
      GroupOfMember(f, shared, h, 0);
      SameLeafSameGroup(f, shared, f[1][g][0], f[1][h][0]);
    }
    forall g | 0 <= g < |f[1]|
      ensures LeafOfGroup(f, shared, g) < Product(shared)
    {
      GroupOfMember(f, shared, g, 0);
      LeafInRange(f, shared, f[1][g][0]);
    }
  }

  /** Level 1 has one group per processing unit, or per thread if there are fewer, evenly filled. */
  lemma LevelOneLoads(n: nat, w: Weights, shared: seq<nat>, f: Levels, g: nat)
    requires shared != [] && |f| == |shared| + 2 && |f[0]| == n && GreedyLevels(w, f[..|f| - 1], shared)
    ensures |f[1]| == if n > Product(shared) then Product(shared) else n
    ensures g < |f[1]| ==> f[1][g] != []
    ensures g < |f[1]| ==> n >= |f[1]| && |f[1][g]| == n / |f[1]| + (if g < n % |f[1]| then 1 else 0)
  {
    var below := f[..|f| - 1];
    assert LevelOk(w, below, shared, 1) && below[0] == f[0] && below[1] == f[1];
    assert shared[..|shared|] == shared;
    if g < |f[1]| {
      GroupsNonEmpty(w, below, shared, 1, g);
    }
  }

  lemma EvenLeaf(m: seq<nat>, n: nat, w: Weights, ars: seq<nat>, lab: Labels, f: Levels, q: nat)
    requires Machine(ars, lab) && Placement(m, n, w, ars, lab, f) && q < Product(ars)
    ensures Even(|ThreadsOn(f, SharedOf(ars), q)|, n, Product(ars))
  {
    var shared := SharedOf(ars);
    SharedProduct(ars);
    if |shared| == 0 {
      OneUnit(f, shared, q);
    } else {
      forall g: nat | g < |f[1]|
        ensures f[1][g] != []
      {
        LevelOneLoads(n, w, shared, f, g);
      }
      LevelOneLoads(n, w, shared, f, 0);
      LeavesOfGroupsDistinct(f, shared);
      var qs := LeavesOfGroups(f, shared, |f[1]|);
      Pigeonhole(qs, Product(ars));
      if q in qs {
        var g :| 0 <= g < |qs| && qs[g] == q;
        GroupIsLeaf(f, shared, g);
        LevelOneLoads(n, w, shared, f, g);
        ShareOfOne(n);
      } else {
        NoGroupNoThread(f, shared, q);
      }
    }
  }

  /** An even share of `n` threads among `p` units: rounded down or up, and at most one if `n < p`. */
  predicate Even(load: nat, n: nat, p: nat)
    requires p > 0
  {
    if n >= p then n / p <= load <= n / p + (if n % p > 0 then 1 else 0) else load <= 1
  }

  /** The threads that the map sends to the processing unit `id`. */
  ghost function SentTo(m: seq<nat>, n: nat, id: nat): set<nat>
    requires n <= |m|
  {
    set t: nat | t in NumbersBelow(n) && Sends(m, n, t, id)
  }

  predicate Sends(m: seq<nat>, n: nat, t: nat, id: nat)
    requires n <= |m|
  {
    t < n && m[t] == id
  }

  /** With at least as many threads as processing units, every unit gets its even share, rounded
      down or up; with fewer, no unit gets more than one. */
  lemma EvenLoad(m: seq<nat>, n: nat, w: Weights, ars: seq<nat>, lab: Labels, f: Levels, q: nat)
    requires Machine(ars, lab) && Placement(m, n, w, ars, lab, f) && q < Product(ars) && DistinctPus(lab, Product(ars))
    ensures lab.pus.Some? ==> q < |lab.pus.value| && Even(|SentTo(m, n, lab.pus.value[q])|, n, Product(ars))
    ensures lab.pus.None? ==> Even(|SentTo(m, n, q)|, n, Product(ars))
  {
    LeavesIsProduct(ars);
    var shared := SharedOf(ars);
    EvenLeaf(m, n, w, ars, lab, f, q);
    forall t: nat
      ensures t in SentTo(m, n, PuId(lab, q)) <==> t in ThreadsOn(f, shared, q)
    {
      InBelow(n, t);
      ThreadsOnMember(f, shared, q, t);
      if t < n {
        EveryThreadPlaced(m, n, w, ars, lab, f, t);
        var leaf := Leaf(f, shared, t);
        if leaf != q {
          assert PuId(lab, leaf) != PuId(lab, q);
        }
      }
    }
    assert SentTo(m, n, PuId(lab, q)) == ThreadsOn(f, shared, q);
  }

  lemma ShareOfOne(n: nat)
    ensures n > 0 ==> n / n == 1 && n % n == 0
  {
  }

  /** A machine without shared levels has one processing unit, and all threads run there. */
  lemma OneUnit(f: Levels, shared: seq<nat>, q: nat)
    requires Fits(f, shared) && shared == [] && q == 0
    ensures |ThreadsOn(f, shared, q)| == |f[0]|
  {
    forall t: nat
      ensures t in ThreadsOn(f, shared, q) <==> t in NumbersBelow(|f[0]|)
    {
      ThreadsOnMember(f, shared, q, t);
      InBelow(|f[0]|, t);
    }
    assert ThreadsOn(f, shared, q) == NumbersBelow(|f[0]|);
    BelowCardinality(|f[0]|);
  }

  lemma LeafListed(f: Levels, shared: seq<nat>, t: nat)
    requires Fits(f, shared) && (forall g | 0 <= g < |f[1]| :: f[1][g] != []) && t < |f[0]|
    ensures Leaf(f, shared, t) in LeavesOfGroups(f, shared, |f[1]|)
  {
    var g := Up(f, shared, 1, t);
    GroupOfMember(f, shared, g, 0);
    SameLeafSameGroup(f, shared, t, f[1][g][0]);
    assert LeavesOfGroups(f, shared, |f[1]|)[g] == Leaf(f, shared, t);
  }

  lemma NoGroupNoThread(f: Levels, shared: seq<nat>, q: nat)
    requires Fits(f, shared) && forall g | 0 <= g < |f[1]| :: f[1][g] != []
    requires q !in LeavesOfGroups(f, shared, |f[1]|)
    ensures ThreadsOn(f, shared, q) == {}
  {
    forall t: nat
      ensures t !in ThreadsOn(f, shared, q)
    {
      ThreadsOnMember(f, shared, q, t);
      if t < |f[0]| {
        LeafListed(f, shared, t);
      }
    }
  }

  /** Thread 0 is always on the leftmost processing unit. */
  lemma ThreadZeroLeftmost(m: seq<nat>, n: nat, w: Weights, ars: seq<nat>, lab: Labels, f: Levels)
    requires Machine(ars, lab) && Placement(m, n, w, ars, lab, f) && n > 0
    ensures lab.pus.Some? ==> 0 < |lab.pus.value| && m[0] == lab.pus.value[0]
    ensures lab.pus.None? ==> m[0] == 0
  {
    EveryThreadPlaced(m, n, w, ars, lab, f, 0);
    ZeroStaysFirst(n, w, SharedOf(ars), f, |f| - 1);
  }

  lemma {:induction false} ZeroStaysFirst(n: nat, w: Weights, shared: seq<nat>, f: Levels, l: nat)
    requires Fits(f, shared) && GreedyLevels(w, f[..|f| - 1], shared) && f[|f| - 1] == [Range(|f[|f| - 2]|)]
    requires |f[0]| > 0 && 1 <= l < |f|
    ensures Up(f, shared, l, 0) == 0 && Offset(f, shared, l, 0) == 0
  {
    if l > 1 {
      ZeroStaysFirst(n, w, shared, f, l - 1);
    }
    var below := f[..|f| - 1];
    assert Holds(f[l], 0, 0, 0) by {
      if l < |below| {
        FirstIsZero(w, below, shared, l);
      } else {
        assert Up(f, shared, l - 1, 0) < |f[l - 1]|;
      }
    }
    var r := Rank(f, shared, l, 0);
    assert Holds(f[l], Up(f, shared, l, 0), r, Up(f, shared, l - 1, 0));
  }

  /** The placement is a function of the matrix: whatever two rounds did, if their matrices agree off
      the diagonal for the threads they place, they place them alike. */
  lemma PlacementUnique(m: seq<nat>, k: seq<nat>, n: nat, w: Weights, v: Weights, ars: seq<nat>, lab: Labels,
                        f: Levels, e: Levels)
    requires Placement(m, n, w, ars, lab, f) && Placement(k, n, v, ars, lab, e) && Agrees(w, v, n)
    ensures f == e && m[..n] == k[..n]
  {
    var x, y := f[..|f| - 1], e[..|e| - 1];
    GreedyLevelsCongruent(w, v, x, SharedOf(ars));
    ForestUnique(v, x, y, SharedOf(ars), |x|);
    assert x[..|x|] == x && y[..|x|] == y;
    assert f == x + [f[|f| - 1]] && e == y + [e[|e| - 1]];
    assert f[|f| - 2] == x[|x| - 1] && e[|e| - 2] == y[|y| - 1];
  }
}
