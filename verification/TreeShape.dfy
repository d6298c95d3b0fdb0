/** What a uniform hardware tree looks like inside the arena. A subtree whose arity
    list is `ars` takes `Size(ars)` consecutive vertices in preorder and one edge
    fewer; its processing units are numbered from left to right. */
module TreeShape {
  import opened Arithmetic
  import opened Graphs

  /** Where a subtree starts: its first vertex, first edge and first processing unit. */
  datatype Spot = Spot(pos: nat, edge: nat, leaf: nat)

  /** What the caller of the builder chooses: processing unit ids and edge weights. */
  datatype Labels = Labels(pus: Option<seq<nat>>, weights: Option<seq<int>>)

  /** The labels a child is built with. */
  function LabelsBelow(lab: Labels): Labels {
    match lab.weights
    case None => lab
    case Some(w) => lab.(weights := Some(if w == [] then [] else w[1..]))
  }

  predicate Enough(lab: Labels, ars: seq<nat>, leaf: nat) {
    && (lab.pus.Some? ==> leaf + Leaves(ars) <= |lab.pus.value|)
    && (lab.weights.Some? ==> |ars| <= |lab.weights.value|)
  }

  function PuId(lab: Labels, leaf: nat): nat {
    match lab.pus
    case None => leaf
    case Some(ids) => if leaf < |ids| then ids[leaf] else 0
  }

  /** The ids are a permutation of the first `n` numbers: below `n` and all different. */
  ghost predicate PermutesPus(lab: Labels, n: nat) {
    && (forall a: nat | a < n :: PuId(lab, a) < n)
    && DistinctPus(lab, n)
  }

  /** Different processing units carry different ids. */
  ghost predicate DistinctPus(lab: Labels, n: nat) {
    forall a: nat, b: nat | a < b < n :: PuId(lab, a) != PuId(lab, b)
  }

  /** Weight of the edges from a vertex with arity list `ars` to its children. */
  function WeightBelow(lab: Labels, ars: seq<nat>): int {
    match lab.weights
    case None => Pow2(|ars|)
    case Some(w) => if w == [] then 0 else w[0]
  }

  function Size(ars: seq<nat>): (n: nat)
    ensures n >= 1
  {
    if ars == [] then 1 else 1 + Times(ars[0], Size(ars[1..]))
  }

  /** Number of processing units of the tree. */
  function Leaves(ars: seq<nat>): nat {
    if ars == [] then 1 else Times(ars[0], Leaves(ars[1..]))
  }

  lemma {:induction false} LeavesIsProduct(ars: seq<nat>)
    ensures Leaves(ars) == Product(ars)
  {
    if ars != [] {
      LeavesIsProduct(ars[1..]);
      TimesIsProduct(ars[0], Leaves(ars[1..]));
    }
  }

  /** The products of the first 0, 1, ... `k - 1` arities, added up: the vertices of the top `k` levels. */
  function TopLevels(ars: seq<nat>, k: nat): nat
    requires k <= |ars| + 1
  {
    if k == 0 then 0 else TopLevels(ars, k - 1) + Product(ars[..k - 1])
  }

  lemma {:induction false} TopLevelsStep(ars: seq<nat>, k: nat)
    requires ars != [] && k <= |ars|
    ensures TopLevels(ars, k + 1) == 1 + ars[0] * TopLevels(ars[1..], k)
  {
    if k > 0 {
      TopLevelsStep(ars, k - 1);
      var rest := ars[1..];
      assert ars[..k][0] == ars[0] && ars[..k][1..] == rest[..k - 1];
      MulDistributes(ars[0], TopLevels(rest, k - 1), Product(rest[..k - 1]));
    } else {
      assert ars[..0] == [];
      MulCommutes(ars[0], 0);
    }
  }

  lemma {:induction false} SizeIsSumOfLevels(ars: seq<nat>)
    ensures Size(ars) == TopLevels(ars, |ars| + 1)
  {
    if ars == [] {
      assert ars[..0] == [];
      assert TopLevels(ars, 1) == TopLevels(ars, 0) + Product(ars[..0]);
    } else {
      SizeIsSumOfLevels(ars[1..]);
      TopLevelsStep(ars, |ars|);
      TimesIsProduct(ars[0], Size(ars[1..]));
    }
  }

  function NodeType(ars: seq<nat>): ElType {
    if ars == [] then Pu else Undefined
  }

  function Child(s: Spot, ars: seq<nat>, j: nat): Spot
    requires ars != []
  {
    var n := Size(ars[1..]);
    Spot(s.pos + 1 + Times(j, n), s.edge + Times(j, n), s.leaf + Times(j, Leaves(ars[1..])))
  }

  /** The edge to child `j`, allocated right after those inside the child. */
  function ChildEdge(s: Spot, ars: seq<nat>, j: nat): nat
    requires ars != []
  {
    s.edge + Times(j, Size(ars[1..])) + Size(ars[1..]) - 1
  }

  function ChildLink(s: Spot, ars: seq<nat>, j: nat): Link
    requires ars != []
  {
    Link(ChildEdge(s, ars, j), Child(s, ars, j).pos)
  }

  function ChildLinks(s: Spot, ars: seq<nat>, k: nat): (ls: seq<Link>)
    requires ars != []
    ensures |ls| == k
  {
    if k == 0 then [] else ChildLinks(s, ars, k - 1) + [ChildLink(s, ars, k - 1)]
  }

  lemma {:induction false} ChildLinksAt(s: Spot, ars: seq<nat>, k: nat, j: nat)
    requires ars != [] && j < k
    ensures ChildLinks(s, ars, k)[j] == ChildLink(s, ars, j)
  {
    if j < k - 1 {
      ChildLinksAt(s, ars, k - 1, j);
    }
  }

  function Links(s: Spot, ars: seq<nat>, up: seq<Link>): seq<Link> {
    (if ars == [] then [] else ChildLinks(s, ars, ars[0])) + up
  }

  /** The arena holds, at `s`, the tree of `ars`: a vertex of type `typ` that links its
      children from left to right and then `up`. */
  ghost predicate Subtree(vs: seq<Vertex>, es: seq<Edge>, s: Spot, ars: seq<nat>, lab: Labels, typ: ElType,
                          up: seq<Link>)
    decreases |ars|
  {
    && s.pos + Size(ars) <= |vs|
    && s.edge + Size(ars) <= |es| + 1
    && vs[s.pos] == Vertex(typ, if ars == [] then PuId(lab, s.leaf) else 0, s.pos, Links(s, ars, up))
    && (ars != [] ==> forall j: nat | j < ars[0] :: ChildOk(vs, es, s, ars, lab, j))
  }

  ghost predicate ChildOk(vs: seq<Vertex>, es: seq<Edge>, s: Spot, ars: seq<nat>, lab: Labels, j: nat)
    requires ars != []
    decreases |ars|, 0
  {
    var c, e := Child(s, ars, j), ChildEdge(s, ars, j);
    && e < |es|
    && es[e] == Edge(Undefined, WeightBelow(lab, ars), s.pos, c.pos)
    && Subtree(vs, es, c, ars[1..], LabelsBelow(lab), NodeType(ars[1..]), [Link(e, s.pos)])
  }

  lemma ChildIsSubtree(vs: seq<Vertex>, es: seq<Edge>, s: Spot, ars: seq<nat>, lab: Labels, typ: ElType, up: seq<Link>,
                       j: nat)
    requires Subtree(vs, es, s, ars, lab, typ, up) && ars != [] && j < ars[0]
    ensures Subtree(vs, es, Child(s, ars, j), ars[1..], LabelsBelow(lab), NodeType(ars[1..]),
                    [Link(ChildEdge(s, ars, j), s.pos)])
  {
    assert ChildOk(vs, es, s, ars, lab, j);
  }

  lemma ArityBelowSize(ars: seq<nat>)
    requires ars != []
    ensures ars[0] < Size(ars)
  {
    TimesIsProduct(ars[0], Size(ars[1..]));
    MulMonotone(ars[0], ars[0], 1, Size(ars[1..]));
  }

  lemma ChildRange(s: Spot, ars: seq<nat>, j: nat)
    requires ars != [] && j < ars[0]
    ensures Child(s, ars, j).pos + Size(ars[1..]) <= s.pos + Size(ars)
    ensures ChildEdge(s, ars, j) + 1 == Child(s, ars, j).edge + Size(ars[1..])
    ensures ChildEdge(s, ars, j) + 1 < s.edge + Size(ars)
    ensures Child(s, ars, j).leaf + Leaves(ars[1..]) <= s.leaf + Leaves(ars)
  {
    TimesMonotone(j + 1, ars[0], Size(ars[1..]));
    TimesMonotone(j + 1, ars[0], Leaves(ars[1..]));
  }

  lemma NextChild(s: Spot, ars: seq<nat>, j: nat)
    requires ars != []
    ensures var c, n := Child(s, ars, j), Size(ars[1..]);
            && Child(s, ars, j + 1) == Spot(c.pos + n, c.edge + n, c.leaf + Leaves(ars[1..]))
            && ChildEdge(s, ars, j) == c.edge + n - 1
            && ChildLinks(s, ars, j + 1) == ChildLinks(s, ars, j) + [Link(c.edge + n - 1, c.pos)]
  {
  }

  lemma ChildrenOrdered(s: Spot, ars: seq<nat>, j: nat, k: nat)
    requires ars != [] && j < k
    ensures Child(s, ars, j).pos + Size(ars[1..]) <= Child(s, ars, k).pos
    ensures ChildEdge(s, ars, j) < Child(s, ars, k).edge
    ensures Child(s, ars, j).leaf + Leaves(ars[1..]) <= Child(s, ars, k).leaf
  {
    TimesMonotone(j + 1, k, Size(ars[1..]));
    TimesMonotone(j + 1, k, Leaves(ars[1..]));
  }

  /** A finished child looks only at its own vertices and at the edges up to its own. */
  lemma {:induction false} ChildFrame(vs: seq<Vertex>, es: seq<Edge>, ws: seq<Vertex>, fs: seq<Edge>,
                                      s: Spot, ars: seq<nat>, lab: Labels, j: nat)
    requires ars != [] && ChildOk(vs, es, s, ars, lab, j)
    requires |vs| == |ws| && |es| == |fs|
    requires Child(s, ars, j).pos + Size(ars[1..]) <= |vs| && Child(s, ars, j).edge + Size(ars[1..]) <= |es|
    requires var c := Child(s, ars, j); forall i | c.pos <= i < c.pos + Size(ars[1..]) :: ws[i] == vs[i]
    requires var c := Child(s, ars, j); forall i | c.edge <= i < c.edge + Size(ars[1..]) :: fs[i] == es[i]
    ensures ChildOk(ws, fs, s, ars, lab, j)
    decreases |ars|, 0
  {
    var c, e, rest := Child(s, ars, j), ChildEdge(s, ars, j), ars[1..];
    SubtreeFrame(vs, es, ws, fs, c, rest, LabelsBelow(lab), NodeType(rest), [Link(e, s.pos)]);
  }

  /** A subtree looks only at its own stretch of the arena. */
  lemma {:induction false} SubtreeFrame(vs: seq<Vertex>, es: seq<Edge>, ws: seq<Vertex>, fs: seq<Edge>,
                                        s: Spot, ars: seq<nat>, lab: Labels, typ: ElType, up: seq<Link>)
    requires Subtree(vs, es, s, ars, lab, typ, up)
    requires |vs| == |ws| && |es| == |fs|
    requires forall i | s.pos <= i < s.pos + Size(ars) :: ws[i] == vs[i]
    requires forall i | s.edge <= i < s.edge + Size(ars) - 1 :: fs[i] == es[i]
    ensures Subtree(ws, fs, s, ars, lab, typ, up)
    decreases |ars|, 1
  {
    if ars != [] {
      forall j: nat | j < ars[0]
        ensures ChildOk(ws, fs, s, ars, lab, j)
      {
        ChildRange(s, ars, j);
        ChildFrame(vs, es, ws, fs, s, ars, lab, j);
      }
    }
  }

  /** Changing only the type and the upward link of its first vertex re-labels a subtree. */
  lemma SubtreeRetop(vs: seq<Vertex>, es: seq<Edge>, ws: seq<Vertex>, fs: seq<Edge>,
                     s: Spot, ars: seq<nat>, lab: Labels, typ: ElType, up: seq<Link>, typ': ElType, up': seq<Link>)
    requires Subtree(vs, es, s, ars, lab, typ, up)
    requires |vs| == |ws| && |es| == |fs|
    requires forall i | s.pos < i < s.pos + Size(ars) :: ws[i] == vs[i]
    requires forall i | s.edge <= i < s.edge + Size(ars) - 1 :: fs[i] == es[i]
    requires ws[s.pos] == vs[s.pos].(typ := typ', linked := Links(s, ars, up'))
    ensures Subtree(ws, fs, s, ars, lab, typ', up')
  {
    if ars != [] {
      forall j: nat | j < ars[0]
        ensures ChildOk(ws, fs, s, ars, lab, j)
      {
        ChildRange(s, ars, j);
        ChildFrame(vs, es, ws, fs, s, ars, lab, j);
      }
    }
  }

  /** The vertex that closes round `j` of the builder's loop, and what it leaves alone. */
  lemma AttachChild(us: seq<Vertex>, ds: seq<Edge>, ws: seq<Vertex>, fs: seq<Edge>,
                    s: Spot, ars: seq<nat>, lab: Labels, j: nat)
    requires ars != [] && j < ars[0] && s.pos + Size(ars) <= |us| && s.edge + Size(ars) <= |ds| + 1
    requires Subtree(us, ds, Child(s, ars, j), ars[1..], LabelsBelow(lab), NodeType(ars[1..]), [])
    requires Linked(us, ds, ws, fs, s, ars, lab, j)
    ensures ChildOk(ws, fs, s, ars, lab, j)
  {
    ChildRange(s, ars, j);
    var c, e, rest := Child(s, ars, j), ChildEdge(s, ars, j), ars[1..];
    assert us[c.pos].linked + [Link(e, s.pos)] == Links(c, rest, [Link(e, s.pos)]);
    SubtreeRetop(us, ds, ws, fs, c, rest, LabelsBelow(lab), NodeType(rest), [], NodeType(rest), [Link(e, s.pos)]);
  }

  /** `ws` and `fs` are `us` and `ds` after linking child `j` to the vertex at `s`. */
  ghost predicate Linked(us: seq<Vertex>, ds: seq<Edge>, ws: seq<Vertex>, fs: seq<Edge>,
                         s: Spot, ars: seq<nat>, lab: Labels, j: nat)
    requires ars != []
  {
    var c, e := Child(s, ars, j), ChildEdge(s, ars, j);
    && s.pos < c.pos < |us| && e < |ds|
    && ws == us[s.pos := us[s.pos].(linked := us[s.pos].linked + [Link(e, c.pos)])]
               [c.pos := us[c.pos].(linked := us[c.pos].linked + [Link(e, s.pos)])]
    && fs == ds[e := Edge(Undefined, WeightBelow(lab, ars), s.pos, c.pos)]
  }

  /** A vertex that has no upward link yet has room for it. */
  lemma FreshLinks(us: seq<Vertex>, ds: seq<Edge>, s: Spot, ars: seq<nat>, lab: Labels, typ: ElType)
    requires Subtree(us, ds, s, ars, lab, typ, [])
    ensures us[s.pos].linked == Links(s, ars, []) && |us[s.pos].linked| < |us|
  {
    if ars != [] {
      ArityBelowSize(ars);
    }
  }

  lemma LinksGrow(us: seq<Vertex>, ds: seq<Edge>, ws: seq<Vertex>, fs: seq<Edge>, s: Spot, ars: seq<nat>, lab: Labels,
                  j: nat)
    requires ars != [] && Linked(us, ds, ws, fs, s, ars, lab, j)
    requires us[s.pos] == Vertex(Undefined, 0, s.pos, ChildLinks(s, ars, j))
    ensures ws[s.pos] == Vertex(Undefined, 0, s.pos, ChildLinks(s, ars, j + 1))
  {
  }

  /** A finished child `k` is not touched by building and linking child `j`. */
  lemma ChildKept(vs: seq<Vertex>, es: seq<Edge>, us: seq<Vertex>, ds: seq<Edge>, ws: seq<Vertex>, fs: seq<Edge>,
                  s: Spot, ars: seq<nat>, lab: Labels, k: nat, j: nat)
    requires ars != [] && k < j < ars[0] && s.pos + Size(ars) <= |us| == |vs| && s.edge + Size(ars) <= |ds| + 1
    requires |ds| == |es| && ChildOk(vs, es, s, ars, lab, k)
    requires forall i | 0 <= i < Child(s, ars, j).pos && i < |us| :: us[i] == vs[i]
    requires forall i | 0 <= i < Child(s, ars, j).edge && i < |ds| :: ds[i] == es[i]
    requires Linked(us, ds, ws, fs, s, ars, lab, j)
    ensures ChildOk(ws, fs, s, ars, lab, k)
  {
    ChildrenOrdered(s, ars, k, j);
    ChildRange(s, ars, k);
    ChildRange(s, ars, j);
    ChildFrame(vs, es, ws, fs, s, ars, lab, k);
  }

  ghost predicate SameUpTo<T>(us: seq<T>, vs: seq<T>, n: nat) {
    forall i | 0 <= i < n && i < |us| && i < |vs| :: us[i] == vs[i]
  }

  /** One round of the builder: child `j` is built, which leaves the arena as `us` and `ds`, and linked. */
  ghost predicate Round(vs: seq<Vertex>, es: seq<Edge>, us: seq<Vertex>, ds: seq<Edge>, ws: seq<Vertex>, fs: seq<Edge>,
                        s: Spot, ars: seq<nat>, lab: Labels, j: nat) {
    && ars != [] && j < ars[0] && s.pos + Size(ars) <= |us| == |vs| && s.edge + Size(ars) <= |ds| + 1 && |ds| == |es|
    && SameUpTo(us, vs, Child(s, ars, j).pos) && SameUpTo(ds, es, Child(s, ars, j).edge)
    && Subtree(us, ds, Child(s, ars, j), ars[1..], LabelsBelow(lab), NodeType(ars[1..]), [])
    && Linked(us, ds, ws, fs, s, ars, lab, j)
  }

  lemma ChildDone(vs: seq<Vertex>, es: seq<Edge>, us: seq<Vertex>, ds: seq<Edge>, ws: seq<Vertex>, fs: seq<Edge>,
                  s: Spot, ars: seq<nat>, lab: Labels, k: nat, j: nat)
    requires Round(vs, es, us, ds, ws, fs, s, ars, lab, j) && k <= j && (k < j ==> ChildOk(vs, es, s, ars, lab, k))
    ensures ChildOk(ws, fs, s, ars, lab, k)
  {
    if k == j {
      AttachChild(us, ds, ws, fs, s, ars, lab, j);
    } else {
      ChildKept(vs, es, us, ds, ws, fs, s, ars, lab, k, j);
    }
  }

  /** Building and linking child `j` completes it and keeps the children before it. */
  lemma RoundDone(vs: seq<Vertex>, es: seq<Edge>, us: seq<Vertex>, ds: seq<Edge>, ws: seq<Vertex>, fs: seq<Edge>,
                  s: Spot, ars: seq<nat>, lab: Labels, j: nat)
    requires Round(vs, es, us, ds, ws, fs, s, ars, lab, j)
    requires forall k: nat | k < j :: ChildOk(vs, es, s, ars, lab, k)
    ensures forall k: nat | k <= j :: ChildOk(ws, fs, s, ars, lab, k)
  {
    forall k: nat | k <= j
      ensures ChildOk(ws, fs, s, ars, lab, k)
    {
      ChildDone(vs, es, us, ds, ws, fs, s, ars, lab, k, j);
    }
  }
}
