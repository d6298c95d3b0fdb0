/** The thread-group forest that the greedy mapping builds bottom-up, as a value.

    Level 0 holds the threads. `f[l]` lists the groups of level `l`; a group is the
    list of its elements, which are positions in level `l - 1`. The last level holds
    the one root group. `shared` lists, from the root down, the arities of the
    hardware levels with at least two children, so a forest for it has
    `|shared| + 1` grouped levels. */
module Forest {
  import opened Arithmetic

  type Grouping = seq<seq<nat>>
  type Levels = seq<Grouping>

  /** Level 0 of a forest of `n` threads. */
  function ThreadLevel(n: nat): Grouping {
    seq(n, _ => [])
  }

  predicate Holds(gs: Grouping, g: nat, r: nat, e: nat) {
    g < |gs| && r < |gs[g]| && gs[g][r] == e
  }

  ghost predicate Placed(gs: Grouping, e: nat) {
    exists g: nat, r: nat :: Holds(gs, g, r, e)
  }

  /** Every element below `n` sits in exactly one place of exactly one group. */
  ghost predicate Partition(gs: Grouping, n: nat) {
    && (forall g: nat, r: nat, e: nat | Holds(gs, g, r, e) :: e < n)
    && (forall g: nat, r: nat, h: nat, s: nat, e: nat | Holds(gs, g, r, e) && Holds(gs, h, s, e) :: g == h && r == s)
    && (forall e: nat | e < n :: Placed(gs, e))
  }

  /** The group and the rank inside it where element `e` sits. */
  ghost function Owner(gs: Grouping, n: nat, e: nat): (p: (nat, nat))
    requires Partition(gs, n) && e < n
    ensures Holds(gs, p.0, p.1, e)
  {
    assert Placed(gs, e);
    var g: nat, r: nat :| Holds(gs, g, r, e);
    (g, r)
  }

  /** Arity of the hardware level that groups of level `l` are laid out on. */
  function Arity(shared: seq<nat>, l: nat): nat
    requires 2 <= l <= |shared| + 1
  {
    shared[|shared| + 1 - l]
  }

  /** Number of processing units below one hardware unit of level `l`. */
  function Units(shared: seq<nat>, l: nat): nat
    requires 1 <= l <= |shared| + 1
  {
    Product(shared[|shared| + 1 - l..])
  }

  /** Number of hardware units of level `l` in the whole machine. */
  function Capacity(shared: seq<nat>, l: nat): nat
    requires 1 <= l <= |shared| + 1
  {
    Product(shared[..|shared| + 1 - l])
  }

  lemma UnitsStep(shared: seq<nat>, l: nat)
    requires 2 <= l <= |shared| + 1
    ensures Units(shared, l) == Arity(shared, l) * Units(shared, l - 1)
  {
    assert shared[|shared| + 1 - l..][1..] == shared[|shared| + 2 - l..];
  }

  lemma CapacityStep(shared: seq<nat>, l: nat)
    requires 2 <= l <= |shared| + 1
    ensures Capacity(shared, l - 1) == Capacity(shared, l) * Arity(shared, l)
  {
    var k := |shared| + 1 - l;
    assert shared[..k + 1] == shared[..k] + [shared[k]];
    ProductConcat(shared[..k], [shared[k]]);
    assert [shared[k]][1..] == [];
  }

  /** Consecutive levels partition one another, there is one root group, and no
      group has more elements than its hardware unit has children. */
  ghost predicate Fits(f: Levels, shared: seq<nat>) {
    && |f| == |shared| + 2
    && |f[|f| - 1]| == 1
    && (forall l | 1 <= l < |f| :: Partition(f[l], |f[l - 1]|))
    && (forall l, g | 2 <= l < |f| && 0 <= g < |f[l]| :: |f[l][g]| <= Arity(shared, l))
  }

  /** The group of level `l` that thread `t` belongs to. */
  ghost function Up(f: Levels, shared: seq<nat>, l: nat, t: nat): (g: nat)
    requires Fits(f, shared) && l < |f| && t < |f[0]|
    ensures g < |f[l]|
  {
    if l == 0 then t else Owner(f[l], |f[l - 1]|, Up(f, shared, l - 1, t)).0
  }

  /** Position of the level `l - 1` group of thread `t` inside its level `l` group. */
  ghost function Rank(f: Levels, shared: seq<nat>, l: nat, t: nat): (r: nat)
    requires Fits(f, shared) && 1 <= l < |f| && t < |f[0]|
    ensures Holds(f[l], Up(f, shared, l, t), r, Up(f, shared, l - 1, t))
  {
    Owner(f[l], |f[l - 1]|, Up(f, shared, l - 1, t)).1
  }

  /** Offset of thread `t`'s processing unit from the leftmost one of its level `l`
      hardware unit. */
  ghost function Offset(f: Levels, shared: seq<nat>, l: nat, t: nat): nat
    requires Fits(f, shared) && 1 <= l < |f| && t < |f[0]|
  {
    if l == 1 then 0
    else Offset(f, shared, l - 1, t) + Units(shared, l - 1) * Rank(f, shared, l, t)
  }

  /** Index, from the left, of the processing unit of thread `t`. */
  ghost function Leaf(f: Levels, shared: seq<nat>, t: nat): nat
    requires Fits(f, shared) && t < |f[0]|
  {
    Offset(f, shared, |f| - 1, t)
  }

  /** Index, from the left, of the level `l` hardware unit of thread `t`. */
  ghost function UnitOf(f: Levels, shared: seq<nat>, l: nat, t: nat): nat
    requires Fits(f, shared) && 1 <= l < |f| && t < |f[0]|
    decreases |f| - l
  {
    if l == |f| - 1 then 0
    else Rank(f, shared, l + 1, t) + Arity(shared, l + 1) * UnitOf(f, shared, l + 1, t)
  }

  lemma {:induction false} OffsetBound(f: Levels, shared: seq<nat>, l: nat, t: nat)
    requires Fits(f, shared) && 1 <= l < |f| && t < |f[0]|
    ensures Offset(f, shared, l, t) < Units(shared, l)
  {
    if l == 1 {
      assert shared[|shared|..] == [];
    } else {
      OffsetBound(f, shared, l - 1, t);
      UnitsStep(shared, l);
      TwoDigitBound(Offset(f, shared, l - 1, t), Units(shared, l - 1), Rank(f, shared, l, t), Arity(shared, l));
    }
  }

  lemma SplitOffset(leaf: int, o: int, u: int, r: int, a: int, h: int, p: int, v: int, k: int)
    requires p == o + u * r && v == a * u && k == r + a * h && leaf == p + v * h
    ensures leaf == o + u * k
  {
    MulDistributes(u, r, a * h);
    MulAssociates(u, a, h);
    MulCommutes(u, a);
  }

  lemma {:induction false} OffsetSplit(f: Levels, shared: seq<nat>, l: nat, t: nat)
    requires Fits(f, shared) && 1 <= l < |f| && t < |f[0]|
    ensures Leaf(f, shared, t) == Offset(f, shared, l, t) + Units(shared, l) * UnitOf(f, shared, l, t)
    decreases |f| - l
  {
    if l < |f| - 1 {
      OffsetSplit(f, shared, l + 1, t);
      OffsetSplitBelow(f, shared, l, t, Leaf(f, shared, t));
    }
  }

  lemma OffsetSplitBelow(f: Levels, shared: seq<nat>, l: nat, t: nat, leaf: nat)
    requires Fits(f, shared) && 1 <= l < |f| - 1 && t < |f[0]|
    requires leaf == Offset(f, shared, l + 1, t) + Units(shared, l + 1) * UnitOf(f, shared, l + 1, t)
    ensures leaf == Offset(f, shared, l, t) + Units(shared, l) * UnitOf(f, shared, l, t)
  {
    UnitsStep(shared, l + 1);
    SplitOffset(leaf, Offset(f, shared, l, t), Units(shared, l), Rank(f, shared, l + 1, t),
                Arity(shared, l + 1), UnitOf(f, shared, l + 1, t), Offset(f, shared, l + 1, t), Units(shared, l + 1),
                UnitOf(f, shared, l, t));
  }

  /** Groups of one level sit on pairwise different hardware units of that level. */
  lemma {:induction false} UnitIdentifiesGroup(f: Levels, shared: seq<nat>, l: nat, a: nat, b: nat)
    requires Fits(f, shared) && 1 <= l < |f| && a < |f[0]| && b < |f[0]|
    ensures Up(f, shared, l, a) == Up(f, shared, l, b) <==> UnitOf(f, shared, l, a) == UnitOf(f, shared, l, b)
    decreases |f| - l
  {
    if l < |f| - 1 {
      UnitIdentifiesGroup(f, shared, l + 1, a, b);
      var ra, rb := Rank(f, shared, l + 1, a), Rank(f, shared, l + 1, b);
      var ha, hb := UnitOf(f, shared, l + 1, a), UnitOf(f, shared, l + 1, b);
      if ra + Arity(shared, l + 1) * ha == rb + Arity(shared, l + 1) * hb {
        DigitsUnique(ha, ra, hb, rb, Arity(shared, l + 1));
      }
    }
  }

  lemma UnitIsQuotient(f: Levels, shared: seq<nat>, l: nat, t: nat)
    requires Fits(f, shared) && 1 <= l < |f| && t < |f[0]|
    ensures Units(shared, l) > 0 && Leaf(f, shared, t) / Units(shared, l) == UnitOf(f, shared, l, t)
  {
    OffsetBound(f, shared, l, t);
    OffsetSplit(f, shared, l, t);
    DivModOf(UnitOf(f, shared, l, t), Units(shared, l), Offset(f, shared, l, t));
  }

  /** A group's element `r` is laid out on child `r` of the group's unit: among the units of the level below, counted
      from the left, the thread's is number `r` below its parent. */
  lemma ElementIsChild(f: Levels, shared: seq<nat>, l: nat, t: nat, r: nat)
    requires Fits(f, shared) && 2 <= l < |f| && t < |f[0]|
    requires r < |f[l][Up(f, shared, l, t)]| && f[l][Up(f, shared, l, t)][r] == Up(f, shared, l - 1, t)
    ensures var below, arity := Product(shared[|shared| + 2 - l..]), shared[|shared| + 1 - l];
            below > 0 && arity > 0 && Leaf(f, shared, t) / below % arity == r
  {
    UnitIsQuotient(f, shared, l - 1, t);
    assert Holds(f[l], Up(f, shared, l, t), r, Up(f, shared, l - 1, t));
    assert Holds(f[l], Up(f, shared, l, t), Rank(f, shared, l, t), Up(f, shared, l - 1, t));
    DivModOf(UnitOf(f, shared, l, t), Arity(shared, l), r);
  }

  /** Locality: two threads share a group of level `l` exactly when their processing
      units lie below the same hardware unit of level `l`. */
  lemma Locality(f: Levels, shared: seq<nat>, l: nat, a: nat, b: nat)
    requires Fits(f, shared) && 1 <= l < |f| && a < |f[0]| && b < |f[0]|
    ensures Units(shared, l) > 0
    ensures Up(f, shared, l, a) == Up(f, shared, l, b)
       <==> Leaf(f, shared, a) / Units(shared, l) == Leaf(f, shared, b) / Units(shared, l)
  {
    UnitIsQuotient(f, shared, l, a);
    UnitIsQuotient(f, shared, l, b);
    UnitIdentifiesGroup(f, shared, l, a, b);
  }

  lemma LeafInRange(f: Levels, shared: seq<nat>, t: nat)
    requires Fits(f, shared) && t < |f[0]|
    ensures Leaf(f, shared, t) < Product(shared)
  {
    OffsetBound(f, shared, |f| - 1, t);
    assert shared[0..] == shared;
  }

  /** Threads on the same processing unit are exactly the members of one level 1 group. */
  lemma SameLeafSameGroup(f: Levels, shared: seq<nat>, a: nat, b: nat)
    requires Fits(f, shared) && a < |f[0]| && b < |f[0]|
    ensures Leaf(f, shared, a) == Leaf(f, shared, b) <==> Up(f, shared, 1, a) == Up(f, shared, 1, b)
  {
    Locality(f, shared, 1, a, b);
    assert shared[|shared|..] == [];
  }

  lemma MemberIffUp(f: Levels, shared: seq<nat>, l: nat, gi: nat, t: nat)
    requires Fits(f, shared) && 1 <= l < |f| && gi < |f[l]| && t < |f[0]|
    ensures Up(f, shared, l - 1, t) in f[l][gi] <==> Up(f, shared, l, t) == gi
    ensures forall i | 0 <= i < |f[l][gi]| && f[l][gi][i] == Up(f, shared, l - 1, t) :: Rank(f, shared, l, t) == i
  {
    var e, r := Up(f, shared, l - 1, t), Rank(f, shared, l, t);
    assert Holds(f[l], Up(f, shared, l, t), r, e);
    forall i | 0 <= i < |f[l][gi]| && f[l][gi][i] == e
      ensures Up(f, shared, l, t) == gi && r == i
    {
      assert Holds(f[l], gi, i, e);
    }
  }
}
