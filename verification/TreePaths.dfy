/** Vertices of the uniform tree named by the child indices on the way down from the root. */
module TreePaths {
  import opened Arithmetic
  import opened Graphs
  import opened TreeShape

  predicate ValidPath(ars: seq<nat>, p: seq<nat>) {
    |p| <= |ars| && forall i | 0 <= i < |p| :: p[i] < ars[i]
  }

  function Node(s: Spot, ars: seq<nat>, p: seq<nat>): Spot
    requires ValidPath(ars, p)
    decreases |p|
  {
    if p == [] then s else Node(Child(s, ars, p[0]), ars[1..], p[1..])
  }

  lemma {:induction false} NodeSnoc(s: Spot, ars: seq<nat>, p: seq<nat>, j: nat)
    requires ValidPath(ars, p) && |p| < |ars| && j < ars[|p|]
    ensures ValidPath(ars, p + [j])
    ensures Node(s, ars, p + [j]) == Child(Node(s, ars, p), ars[|p|..], j)
    decreases |p|
  {
    if p == [] {
      assert ars[0..] == ars;
      assert ([] + [j])[1..] == [];
    } else {
      assert (p + [j])[1..] == p[1..] + [j];
      assert ars[1..][|p| - 1..] == ars[|p|..];
      NodeSnoc(Child(s, ars, p[0]), ars[1..], p[1..], j);
    }
  }

  lemma {:induction false} NodeInside(s: Spot, ars: seq<nat>, p: seq<nat>)
    requires ValidPath(ars, p)
    ensures s.pos <= Node(s, ars, p).pos && Node(s, ars, p).pos + Size(ars[|p|..]) <= s.pos + Size(ars)
    ensures s.leaf <= Node(s, ars, p).leaf && Node(s, ars, p).leaf + Leaves(ars[|p|..]) <= s.leaf + Leaves(ars)
    ensures p != [] ==> s.pos < Node(s, ars, p).pos
    decreases |p|
  {
    if p == [] {
      assert ars[0..] == ars;
    } else {
      ChildRange(s, ars, p[0]);
      assert ars[1..][|p| - 1..] == ars[|p|..];
      NodeInside(Child(s, ars, p[0]), ars[1..], p[1..]);
    }
  }

  /** Different paths lead to different vertices. */
  lemma {:induction false} NodeInjective(s: Spot, ars: seq<nat>, p: seq<nat>, q: seq<nat>)
    requires ValidPath(ars, p) && ValidPath(ars, q) && p != q
    ensures Node(s, ars, p).pos != Node(s, ars, q).pos
    decreases |p|
  {
    NodeInside(s, ars, p);
    NodeInside(s, ars, q);
    if p != [] && q != [] {
      var c, d := Child(s, ars, p[0]), Child(s, ars, q[0]);
      if p[0] == q[0] {
        assert p == [p[0]] + p[1..] && q == [q[0]] + q[1..];
        NodeInjective(c, ars[1..], p[1..], q[1..]);
      } else {
        NodeInside(c, ars[1..], p[1..]);
        NodeInside(d, ars[1..], q[1..]);
        ChildrenOrdered(s, ars, if p[0] < q[0] then p[0] else q[0], if p[0] < q[0] then q[0] else p[0]);
      }
    }
  }

  /** Different full paths lead to differently numbered processing units. */
  lemma {:induction false} LeafInjective(s: Spot, ars: seq<nat>, p: seq<nat>, q: seq<nat>)
    requires ValidPath(ars, p) && ValidPath(ars, q) && p != q && |p| == |q| == |ars|
    ensures Node(s, ars, p).leaf != Node(s, ars, q).leaf
    decreases |p|
  {
    var c, d := Child(s, ars, p[0]), Child(s, ars, q[0]);
    assert ars[1..][|p| - 1..] == [];
    if p[0] == q[0] {
      assert p == [p[0]] + p[1..] && q == [q[0]] + q[1..];
      LeafInjective(c, ars[1..], p[1..], q[1..]);
    } else {
      NodeInside(c, ars[1..], p[1..]);
      NodeInside(d, ars[1..], q[1..]);
      ChildrenOrdered(s, ars, if p[0] < q[0] then p[0] else q[0], if p[0] < q[0] then q[0] else p[0]);
    }
  }

  /** Every vertex of the tree has a path. */
  lemma {:induction false} NodeOnto(s: Spot, ars: seq<nat>, v: nat) returns (p: seq<nat>)
    requires s.pos <= v < s.pos + Size(ars)
    ensures ValidPath(ars, p) && Node(s, ars, p).pos == v
    decreases |ars|
  {
    if v == s.pos {
      p := [];
    } else {
      var j := ChildWith(s, ars, v, ars[0]);
      var q := NodeOnto(Child(s, ars, j), ars[1..], v);
      p := [j] + q;
      assert p[1..] == q;
    }
  }

  lemma {:induction false} ChildWith(s: Spot, ars: seq<nat>, v: nat, k: nat) returns (j: nat)
    requires ars != [] && s.pos < v < Child(s, ars, k).pos
    ensures j < k && Child(s, ars, j).pos <= v < Child(s, ars, j).pos + Size(ars[1..])
  {
    if v >= Child(s, ars, k - 1).pos {
      j := k - 1;
    } else {
      j := ChildWith(s, ars, v, k - 1);
    }
  }

  /** What the arena holds at the end of a path, when edge weights are the default ones. */
  lemma {:induction false} VertexAt(vs: seq<Vertex>, es: seq<Edge>, s: Spot, ars: seq<nat>, lab: Labels, typ: ElType,
                                    up: seq<Link>, p: seq<nat>)
    requires Subtree(vs, es, s, ars, lab, typ, up) && ValidPath(ars, p) && lab.weights == None
    ensures var rest := ars[|p|..];
            if p == [] then Subtree(vs, es, Node(s, ars, p), rest, lab, typ, up)
            else ParentLinkOk(es, s, ars, p)
                 && Subtree(vs, es, Node(s, ars, p), rest, lab, NodeType(rest), [UpLink(s, ars, p)])
    decreases |p|
  {
    if p == [] {
      assert ars[0..] == ars;
    } else {
      var k := |p| - 1;
      var q, j := p[..k], p[k];
      VertexAt(vs, es, s, ars, lab, typ, up, q);
      VertexBelow(vs, es, s, ars, lab, p, if q == [] then typ else NodeType(ars[k..]),
                  if q == [] then up else [UpLink(s, ars, q)]);
    }
  }

  /** From the vertex at the end of a path to its child. */
  lemma VertexBelow(vs: seq<Vertex>, es: seq<Edge>, s: Spot, ars: seq<nat>, lab: Labels, p: seq<nat>, typ: ElType,
                    up: seq<Link>)
    requires ValidPath(ars, p) && p != [] && lab.weights == None
    requires var k := |p| - 1; Subtree(vs, es, Node(s, ars, p[..k]), ars[k..], lab, typ, up)
    ensures ParentLinkOk(es, s, ars, p)
    ensures Subtree(vs, es, Node(s, ars, p), ars[|p|..], lab, NodeType(ars[|p|..]), [UpLink(s, ars, p)])
  {
    var k := |p| - 1;
    assert p == p[..k] + [p[k]];
    NodeSnoc(s, ars, p[..k], p[k]);
    assert ars[k..][1..] == ars[|p|..];
    ChildSubtree(vs, es, Node(s, ars, p[..k]), ars[k..], lab, typ, up, p[k]);
  }

  lemma ChildSubtree(vs: seq<Vertex>, es: seq<Edge>, s: Spot, ars: seq<nat>, lab: Labels, typ: ElType, up: seq<Link>,
                     j: nat)
    requires Subtree(vs, es, s, ars, lab, typ, up) && ars != [] && j < ars[0] && lab.weights == None
    ensures var c, e := Child(s, ars, j), ChildEdge(s, ars, j);
            && Subtree(vs, es, c, ars[1..], lab, NodeType(ars[1..]), [Link(e, s.pos)])
            && e < |es| && es[e].weight == Pow2(|ars|)
  {
    assert ChildOk(vs, es, s, ars, lab, j);
  }

  /** The link from the vertex at the end of `p` to its parent. */
  function UpLink(s: Spot, ars: seq<nat>, p: seq<nat>): Link
    requires ValidPath(ars, p) && p != []
  {
    var k := |p| - 1;
    Link(ChildEdge(Node(s, ars, p[..k]), ars[k..], p[k]), Node(s, ars, p[..k]).pos)
  }

  ghost predicate ParentLinkOk(es: seq<Edge>, s: Spot, ars: seq<nat>, p: seq<nat>)
    requires ValidPath(ars, p) && p != []
  {
    var e := UpLink(s, ars, p).e;
    e < |es| && es[e].weight == Pow2(|ars| - |p| + 1)
  }

  // ------------------------------------------------------- all edges, whatever the weights

  /** The labels `d` levels below the root. */
  function LabelsAt(lab: Labels, d: nat): Labels {
    if d == 0 then lab else LabelsBelow(LabelsAt(lab, d - 1))
  }

  lemma {:induction false} LabelsAtSuffix(lab: Labels, d: nat)
    requires lab.weights.Some? ==> d <= |lab.weights.value|
    ensures LabelsAt(lab, d).pus == lab.pus
    ensures LabelsAt(lab, d).weights == if lab.weights.Some? then Some(lab.weights.value[d..]) else None
  {
    if d > 0 {
      LabelsAtSuffix(lab, d - 1);
    }
  }

  lemma {:induction false} SubtreeAt(vs: seq<Vertex>, es: seq<Edge>, s: Spot, ars: seq<nat>, lab: Labels, typ: ElType,
                                     up: seq<Link>, p: seq<nat>) returns (typ': ElType, up': seq<Link>)
    requires Subtree(vs, es, s, ars, lab, typ, up) && ValidPath(ars, p)
    ensures Subtree(vs, es, Node(s, ars, p), ars[|p|..], LabelsAt(lab, |p|), typ', up')
    decreases |p|
  {
    if p == [] {
      assert ars[0..] == ars;
      typ', up' := typ, up;
    } else {
      var k := |p| - 1;
      var q := p[..k];
      typ', up' := SubtreeAt(vs, es, s, ars, lab, typ, up, q);
      assert p == q + [p[k]];
      NodeSnoc(s, ars, q, p[k]);
      assert ars[k..][1..] == ars[|p|..];
      var n := Node(s, ars, q);
      ChildIsSubtree(vs, es, n, ars[k..], LabelsAt(lab, k), typ', up', p[k]);
      typ', up' := NodeType(ars[|p|..]), [Link(ChildEdge(n, ars[k..], p[k]), n.pos)];
    }
  }

  /** The edge from the vertex at the end of a path to its `j`th child leads from the one to the other; its
      weight is the caller's for that depth, or by default the power of two that halves from level to level. */
  lemma EdgeOfPath(vs: seq<Vertex>, es: seq<Edge>, s: Spot, ars: seq<nat>, lab: Labels, typ: ElType, up: seq<Link>,
                   p: seq<nat>, j: nat) returns (e: nat)
    requires Subtree(vs, es, s, ars, lab, typ, up) && ValidPath(ars, p + [j])
    requires lab.weights.Some? ==> |ars| <= |lab.weights.value|
    ensures ValidPath(ars, p) && e < |es|
    ensures es[e].src == Node(s, ars, p).pos && es[e].dest == Node(s, ars, p + [j]).pos
    ensures es[e].weight == if lab.weights.Some? then lab.weights.value[|p|] else Pow2(|ars| - |p|)
  {
    assert ValidPath(ars, p) by {
      forall i | 0 <= i < |p|
        ensures p[i] < ars[i]
      {
        assert (p + [j])[i] == p[i];
      }
    }
    assert (p + [j])[|p|] == j;
    var typ', up' := SubtreeAt(vs, es, s, ars, lab, typ, up, p);
    NodeSnoc(s, ars, p, j);
    LabelsAtSuffix(lab, |p|);
    assert ChildOk(vs, es, Node(s, ars, p), ars[|p|..], LabelsAt(lab, |p|), j);
    e := ChildEdge(Node(s, ars, p), ars[|p|..], j);
  }
}
