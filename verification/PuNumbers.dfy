/** Which ids the processing units of a finished tree carry: those that the caller chose, in the order of
    the arena, or their own numbers. */
module PuNumbers {
  import opened Arithmetic
  import opened Graphs
  import opened TreeShape

  /** Ids of `k` consecutive processing units from the left. */
  function PuIds(lab: Labels, leaf: nat, k: nat): (ids: seq<nat>)
    ensures |ids| == k
  {
    if k == 0 then [] else PuIds(lab, leaf, k - 1) + [PuId(lab, leaf + k - 1)]
  }

  lemma {:induction false} PuIdsConcat(lab: Labels, leaf: nat, a: nat, b: nat)
    ensures PuIds(lab, leaf, a + b) == PuIds(lab, leaf, a) + PuIds(LabelsBelow(lab), leaf + a, b)
  {
    if b > 0 {
      PuIdsConcat(lab, leaf, a, b - 1);
    }
  }

  /** They are a stretch of the caller's table, or consecutive numbers without one. */
  lemma {:induction false} PuIdsChosen(lab: Labels, leaf: nat, k: nat)
    requires lab.pus.Some? ==> leaf + k <= |lab.pus.value|
    ensures lab.pus.Some? ==> PuIds(lab, leaf, k) == lab.pus.value[leaf..leaf + k]
    ensures lab.pus.None? ==> PuIds(lab, leaf, k) == seq(k, i => leaf + i)
  {
    if k > 0 {
      PuIdsChosen(lab, leaf, k - 1);
    }
  }

  /** Ids of the processing units among the vertices `from..to`, in the order of the arena. */
  function UnitsIn(vs: seq<Vertex>, from: nat, to: nat): seq<nat>
    requires from <= to <= |vs|
  {
    if from == to then []
    else UnitsIn(vs, from, to - 1) + (if vs[to - 1].typ == Pu then [vs[to - 1].id] else [])
  }

  lemma {:induction false} UnitsConcat(vs: seq<Vertex>, from: nat, mid: nat, to: nat)
    requires from <= mid <= to <= |vs|
    ensures UnitsIn(vs, from, to) == UnitsIn(vs, from, mid) + UnitsIn(vs, mid, to)
  {
    if mid < to {
      UnitsConcat(vs, from, mid, to - 1);
    }
  }

  /** The processing units of a subtree carry the ids of its leaves from left to right. */
  lemma {:induction false} UnitsOfSubtree(vs: seq<Vertex>, es: seq<Edge>, s: Spot, ars: seq<nat>, lab: Labels,
                                          typ: ElType, up: seq<Link>)
    requires Subtree(vs, es, s, ars, lab, typ, up) && (typ == Pu <==> ars == [])
    ensures UnitsIn(vs, s.pos, s.pos + Size(ars)) == PuIds(lab, s.leaf, Leaves(ars))
    decreases |ars|, 2
  {
    if ars == [] {
      OneUnit(vs, s.pos, PuId(lab, s.leaf));
      assert PuIds(lab, s.leaf, 0) == [];
    } else {
      KidsOfSubtree(vs, es, s, ars, lab, typ, up);
      UnitsBelow(vs, es, s, ars, lab);
      NoUnit(vs, s.pos, s.pos + Size(ars));
    }
  }

  lemma {:induction false} UnitsBelow(vs: seq<Vertex>, es: seq<Edge>, s: Spot, ars: seq<nat>, lab: Labels)
    requires ars != [] && KidsOk(vs, es, s, ars, lab)
    ensures var a, z, n := s.pos + 1, Size(ars[1..]), Leaves(ars[1..]);
            && a + Times(ars[0], z) <= |vs|
            && UnitsIn(vs, a, a + Times(ars[0], z)) == PuIds(lab, s.leaf, Times(ars[0], n))
    decreases |ars|, 1
  {
    var a, z, n := s.pos + 1, Size(ars[1..]), Leaves(ars[1..]);
    forall j: nat | j < ars[0]
      ensures Stretch(vs, a, z, lab, s.leaf, n, j)
    {
      UnitsOfKid(vs, es, s, ars, lab, j);
    }
    Stretches(vs, a, z, lab, s.leaf, n, ars[0]);
  }

  lemma OneUnit(vs: seq<Vertex>, v: nat, id: nat)
    requires v < |vs| && vs[v].typ == Pu && vs[v].id == id
    ensures UnitsIn(vs, v, v + 1) == [id]
  {
    assert UnitsIn(vs, v, v) == [];
  }

  lemma NoUnit(vs: seq<Vertex>, v: nat, to: nat)
    requires v < to <= |vs| && vs[v].typ != Pu
    ensures UnitsIn(vs, v, to) == UnitsIn(vs, v + 1, to)
  {
    UnitsConcat(vs, v, v + 1, to);
    assert UnitsIn(vs, v, v) == [];
    assert UnitsIn(vs, v, v + 1) == [];
  }

  lemma KidsOfSubtree(vs: seq<Vertex>, es: seq<Edge>, s: Spot, ars: seq<nat>, lab: Labels, typ: ElType, up: seq<Link>)
    requires ars != [] && Subtree(vs, es, s, ars, lab, typ, up)
    ensures KidsOk(vs, es, s, ars, lab) && vs[s.pos].typ == typ
    ensures s.pos + 1 + Times(ars[0], Size(ars[1..])) == s.pos + Size(ars) <= |vs|
    ensures Times(ars[0], Leaves(ars[1..])) == Leaves(ars)
  {
  }

  ghost predicate KidsOk(vs: seq<Vertex>, es: seq<Edge>, s: Spot, ars: seq<nat>, lab: Labels)
    requires ars != []
  {
    s.pos < |vs| && forall j: nat | j < ars[0] :: ChildOk(vs, es, s, ars, lab, j)
  }

  /** The `j`th of consecutive stretches of `z` vertices holds the next `n` ids. */
  predicate Stretch(vs: seq<Vertex>, a: nat, z: nat, lab: Labels, leaf: nat, n: nat, j: nat) {
    && a + Times(j, z) <= a + Times(j, z) + z <= |vs|
    && UnitsIn(vs, a + Times(j, z), a + Times(j, z) + z) == PuIds(lab, leaf + Times(j, n), n)
  }

  lemma {:induction false} Stretches(vs: seq<Vertex>, a: nat, z: nat, lab: Labels, leaf: nat, n: nat, k: nat)
    requires a <= |vs| && forall j: nat | j < k :: Stretch(vs, a, z, lab, leaf, n, j)
    ensures a + Times(k, z) <= |vs| && UnitsIn(vs, a, a + Times(k, z)) == PuIds(lab, leaf, Times(k, n))
  {
    if k > 0 {
      Stretches(vs, a, z, lab, leaf, n, k - 1);
      assert Stretch(vs, a, z, lab, leaf, n, k - 1);
      UnitsConcat(vs, a, a + Times(k - 1, z), a + Times(k, z));
      PuIdsConcat(lab, leaf, Times(k - 1, n), n);
      PuIdsBelow(lab, leaf + Times(k - 1, n), n);
    }
  }

  lemma {:induction false} PuIdsBelow(lab: Labels, leaf: nat, k: nat)
    ensures PuIds(LabelsBelow(lab), leaf, k) == PuIds(lab, leaf, k)
  {
    if k > 0 {
      PuIdsBelow(lab, leaf, k - 1);
    }
  }

  lemma KidOk(vs: seq<Vertex>, es: seq<Edge>, s: Spot, ars: seq<nat>, lab: Labels, j: nat)
    requires ars != [] && KidsOk(vs, es, s, ars, lab) && j < ars[0]
    ensures Subtree(vs, es, Child(s, ars, j), ars[1..], LabelsBelow(lab), NodeType(ars[1..]),
                    [Link(ChildEdge(s, ars, j), s.pos)])
  {
    assert ChildOk(vs, es, s, ars, lab, j);
  }

  lemma {:induction false} UnitsOfKid(vs: seq<Vertex>, es: seq<Edge>, s: Spot, ars: seq<nat>, lab: Labels, j: nat)
    requires ars != [] && KidsOk(vs, es, s, ars, lab) && j < ars[0]
    ensures Stretch(vs, s.pos + 1, Size(ars[1..]), lab, s.leaf, Leaves(ars[1..]), j)
    decreases |ars|, 0
  {
    var c, rest := Child(s, ars, j), ars[1..];
    KidOk(vs, es, s, ars, lab, j);
    UnitsOfSubtree(vs, es, c, rest, LabelsBelow(lab), NodeType(rest), [Link(ChildEdge(s, ars, j), s.pos)]);
    PuIdsBelow(lab, c.leaf, Leaves(rest));
  }

  /** The units among `vs[from..to]` carry `k` entries of the caller's table from its `leaf`th, or without
      a table the numbers from `leaf` on. */
  lemma UnitsChosen(vs: seq<Vertex>, es: seq<Edge>, s: Spot, ars: seq<nat>, lab: Labels, typ: ElType, up: seq<Link>)
    requires Subtree(vs, es, s, ars, lab, typ, up) && (typ == Pu <==> ars == []) && Enough(lab, ars, s.leaf)
    ensures var units := UnitsIn(vs, s.pos, s.pos + Size(ars));
            && (lab.pus.Some? ==> units == lab.pus.value[s.leaf..s.leaf + Leaves(ars)])
            && (lab.pus.None? ==> units == seq(Leaves(ars), i => s.leaf + i))
  {
    UnitsOfSubtree(vs, es, s, ars, lab, typ, up);
    PuIdsChosen(lab, s.leaf, Leaves(ars));
  }
}
