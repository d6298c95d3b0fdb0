/** The rule by which the greedy mapping forms groups, and what it means across
    levels: the choice at every level is the greedy choice for the communication
    between whole sets of threads. */
module GreedyRule {
  import opened Arithmetic
  import opened Forest
  import opened Affinity

  /** `e` is the lowest-numbered free element among those that communicate most with
      the elements already in the group. */
  ghost predicate IsPick(w: Weights, n: nat, taken: set<nat>, prior: seq<nat>, e: nat) {
    && e < n && e !in taken
    && forall j: nat | j < n && j !in taken ::
         Row(w, j, prior) <= Row(w, e, prior) && (j < e ==> Row(w, j, prior) < Row(w, e, prior))
  }

  /** Member `r` of a group is the greedy choice given the members before it. */
  ghost predicate PickAt(w: Weights, n: nat, taken: set<nat>, group: seq<nat>, r: nat)
    requires r < |group|
  {
    IsPick(w, n, taken + Elems(group[..r]), group[..r], group[r])
  }

  ghost predicate IsGreedyGroup(w: Weights, n: nat, taken: set<nat>, group: seq<nat>) {
    forall r: nat | r < |group| :: PickAt(w, n, taken, group, r)
  }

  ghost predicate GroupAt(w: Weights, n: nat, gs: Grouping, g: nat)
    requires g < |gs|
  {
    IsGreedyGroup(w, n, Elems(Flatten(gs[..g])), gs[g])
  }

  /** Every group is filled by the rule after all earlier groups have been. */
  ghost predicate IsGreedy(w: Weights, n: nat, gs: Grouping) {
    forall g: nat | g < |gs| :: GroupAt(w, n, gs, g)
  }

  /** `k` groups of `n` elements whose sizes differ by at most one, larger ones first. */
  predicate Balanced(gs: Grouping, n: nat, k: nat)
    requires k > 0
  {
    |gs| == k && forall g | 0 <= g < k :: |gs[g]| == n / k + (if g < n % k then 1 else 0)
  }

  lemma PickUnique(w: Weights, n: nat, taken: set<nat>, prior: seq<nat>, d: nat, e: nat)
    requires IsPick(w, n, taken, prior, d) && IsPick(w, n, taken, prior, e)
    ensures d == e
  {
  }

  lemma {:induction false} GreedyGroupUnique(w: Weights, n: nat, taken: set<nat>, a: seq<nat>, b: seq<nat>, k: nat)
    requires IsGreedyGroup(w, n, taken, a) && IsGreedyGroup(w, n, taken, b) && k <= |a| && k <= |b|
    ensures a[..k] == b[..k]
  {
    if k > 0 {
      GreedyGroupUnique(w, n, taken, a, b, k - 1);
      var prior := a[..k - 1];
      assert b[..k - 1] == prior;
      assert PickAt(w, n, taken, a, k - 1) && PickAt(w, n, taken, b, k - 1);
      PickUnique(w, n, taken + Elems(prior), prior, a[k - 1], b[k - 1]);
    }
  }

  /** The rule and the sizes leave no freedom: there is one greedy grouping. */
  lemma {:induction false} GreedyUnique(w: Weights, n: nat, a: Grouping, b: Grouping, k: nat)
    requires IsGreedy(w, n, a) && IsGreedy(w, n, b) && k <= |a| == |b|
    requires forall g | 0 <= g < |a| :: |a[g]| == |b[g]|
    ensures a[..k] == b[..k]
  {
    if k > 0 {
      GreedyUnique(w, n, a, b, k - 1);
      var x, y := a[k - 1], b[k - 1];
      assert GroupAt(w, n, a, k - 1) && GroupAt(w, n, b, k - 1);
      GreedyGroupUnique(w, n, Elems(Flatten(a[..k - 1])), x, y, |x|);
      assert x[..|x|] == x && y[..|x|] == y;
    }
  }

  /** Equal communication between different elements below `n`. */
  ghost predicate Agrees(v: Weights, w: Weights, n: nat) {
    forall a: nat, b: nat {:trigger v(a, b)} | a < n && b < n && a != b :: v(a, b) == w(a, b)
  }

  lemma {:induction false} RowCongruent(w: Weights, v: Weights, j: nat, s: seq<nat>)
    requires forall i | 0 <= i < |s| :: w(j, s[i]) == v(j, s[i])
    ensures Row(w, j, s) == Row(v, j, s)
  {
    if s != [] {
      RowCongruent(w, v, j, s[..|s| - 1]);
    }
  }

  /** The rule never looks at the communication of an element with itself. */
  lemma PickCongruent(w: Weights, v: Weights, n: nat, taken: set<nat>, prior: seq<nat>, e: nat)
    requires Agrees(w, v, n)
    requires forall i | 0 <= i < |prior| :: prior[i] < n && prior[i] in taken
    requires IsPick(w, n, taken, prior, e)
    ensures IsPick(v, n, taken, prior, e)
  {
    forall j: nat | j < n && j !in taken
      ensures Row(w, j, prior) == Row(v, j, prior)
    {
      RowCongruent(w, v, j, prior);
    }
  }

  lemma GreedyGroupCongruent(w: Weights, v: Weights, n: nat, taken: set<nat>, group: seq<nat>)
    requires Agrees(w, v, n) && IsGreedyGroup(w, n, taken, group)
    ensures IsGreedyGroup(v, n, taken, group)
  {
    forall r: nat | r < |group|
      ensures PickAt(v, n, taken, group, r)
    {
      assert PickAt(w, n, taken, group, r);
      forall q: nat | q < r
        ensures group[..r][q] < n
      {
        assert PickAt(w, n, taken, group, q);
      }
      PickCongruent(w, v, n, taken + Elems(group[..r]), group[..r], group[r]);
    }
  }

  lemma GreedyCongruent(w: Weights, v: Weights, n: nat, gs: Grouping)
    requires Agrees(w, v, n) && IsGreedy(w, n, gs)
    ensures IsGreedy(v, n, gs)
  {
    forall g: nat | g < |gs|
      ensures GroupAt(v, n, gs, g)
    {
      assert GroupAt(w, n, gs, g);
      GreedyGroupCongruent(w, v, n, Elems(Flatten(gs[..g])), gs[g]);
    }
  }

  // ------------------------------------------------------ threads of a group

  /** The threads below group `g` of level `l`. */
  function Threads(f: Levels, l: nat, g: nat): seq<nat>
    decreases l, 0
  {
    if l == 0 || l >= |f| || g >= |f[l]| then [g] else ThreadsOf(f, l - 1, f[l][g])
  }

  function ThreadsOf(f: Levels, l: nat, es: seq<nat>): seq<nat>
    decreases l, |es| + 1
  {
    if es == [] then [] else ThreadsOf(f, l, es[..|es| - 1]) + Threads(f, l, es[|es| - 1])
  }

  lemma {:induction false} ThreadsOfMember(f: Levels, l: nat, es: seq<nat>, t: nat)
    ensures t in ThreadsOf(f, l, es) <==> exists i :: 0 <= i < |es| && t in Threads(f, l, es[i])
    decreases |es|
  {
    if es != [] {
      var k := |es| - 1;
      ThreadsOfMember(f, l, es[..k], t);
      assert es == es[..k] + [es[k]];
    }
  }

  /** A thread is below a group exactly when the group is its ancestor. */
  lemma {:induction false} ThreadsAreUp(f: Levels, shared: seq<nat>, l: nat, g: nat, t: nat)
    requires Fits(f, shared) && l < |f| && g < |f[l]| && t < |f[0]|
    ensures t in Threads(f, l, g) <==> Up(f, shared, l, t) == g
  {
    if l > 0 {
      var es, e := f[l][g], Up(f, shared, l - 1, t);
      forall i | 0 <= i < |es|
        ensures t in Threads(f, l - 1, es[i]) <==> e == es[i]
      {
        assert Holds(f[l], g, i, es[i]);
        ThreadsAreUp(f, shared, l - 1, es[i], t);
      }
      ThreadsOfOne(f, l - 1, es, t, e);
      MemberIffUp(f, shared, l, g, t);
    }
  }

  /** If `e` is the only element that can have `t` below it, a list has `t` below it exactly if it has `e`. */
  lemma ThreadsOfOne(f: Levels, l: nat, es: seq<nat>, t: nat, e: nat)
    requires forall i | 0 <= i < |es| :: t in Threads(f, l, es[i]) <==> e == es[i]
    ensures t in ThreadsOf(f, l, es) <==> e in es
  {
    ThreadsOfMember(f, l, es, t);
  }

  /** Communication between the threads of two groups of level `l`, as the width of a
      matrix cell leaves it. At level 0 it is the thread matrix itself. */
  function LevelWeight(w: Weights, f: Levels, l: nat, a: nat, b: nat): nat {
    if l == 0 then w(a, b) else Wrap(Total(w, Threads(f, l, a), Threads(f, l, b)))
  }

  function LevelWeights(w: Weights, f: Levels, l: nat): Weights {
    (a: nat, b: nat) => LevelWeight(w, f, l, a, b)
  }

  lemma {:induction false} RowOfThreads(w: Weights, f: Levels, l: nat, a: nat, es: seq<nat>, v: Weights)
    requires forall i | 0 <= i < |es| :: Wrap(v(a, es[i])) == Wrap(Total(w, Threads(f, l, a), Threads(f, l, es[i])))
    ensures Wrap(Row(v, a, es)) == Wrap(Total(w, Threads(f, l, a), ThreadsOf(f, l, es)))
    decreases |es|
  {
    var ts := Threads(f, l, a);
    if es == [] {
      TotalEmptyRight(w, ts);
    } else {
      var k := |es| - 1;
      RowOfThreads(w, f, l, a, es[..k], v);
      TotalConcatRight(w, ts, ThreadsOf(f, l, es[..k]), Threads(f, l, es[k]));
      AddModulo(Row(v, a, es[..k]), v(a, es[k]),
                Total(w, ts, ThreadsOf(f, l, es[..k])), Total(w, ts, Threads(f, l, es[k])));
    }
  }

  lemma {:induction false} TotalOfThreads(w: Weights, f: Levels, l: nat, ds: seq<nat>, es: seq<nat>, v: Weights)
    requires forall i, j | 0 <= i < |ds| && 0 <= j < |es| ::
               Wrap(v(ds[i], es[j])) == Wrap(Total(w, Threads(f, l, ds[i]), Threads(f, l, es[j])))
    ensures Wrap(Total(v, ds, es)) == Wrap(Total(w, ThreadsOf(f, l, ds), ThreadsOf(f, l, es)))
    decreases |ds|
  {
    if ds != [] {
      var k := |ds| - 1;
      TotalOfThreads(w, f, l, ds[..k], es, v);
      RowOfThreads(w, f, l, ds[k], es, v);
      TotalConcatLeft(w, ThreadsOf(f, l, ds[..k]), Threads(f, l, ds[k]), ThreadsOf(f, l, es));
      AddModulo(Total(v, ds[..k], es), Row(v, ds[k], es),
                Total(w, ThreadsOf(f, l, ds[..k]), ThreadsOf(f, l, es)),
                Total(w, Threads(f, l, ds[k]), ThreadsOf(f, l, es)));
    }
  }

  lemma SingleTotals(w: Weights, a: nat, b: nat)
    ensures Total(w, [a], [b]) == w(a, b)
  {
    TotalSingle(w, a, [b]);
    RowSingle(w, a, b);
  }

  /** Aggregation: if every matrix is the coarsening of the one below it, the matrix
      of level `l + 1` holds, for two different groups, the communication between the
      threads below one and the threads below the other. */
  lemma Aggregation(w: Weights, f: Levels, l: nat, v: Weights, u: Weights)
    requires l + 1 < |f| && Partition(f[l + 1], |f[l]|)
    requires Agrees(v, LevelWeights(w, f, l), |f[l]|)
    requires Coarsens(v, f[l + 1], u)
    ensures Agrees(u, LevelWeights(w, f, l + 1), |f[l + 1]|)
  {
    forall a: nat, b: nat | a < |f[l + 1]| && b < |f[l + 1]| && a != b
      ensures u(a, b) == LevelWeights(w, f, l + 1)(a, b)
    {
      AggregationAt(w, f, l, v, a, b);
    }
  }

  lemma AggregationAt(w: Weights, f: Levels, l: nat, v: Weights, a: nat, b: nat)
    requires l + 1 < |f| && Partition(f[l + 1], |f[l]|)
    requires Agrees(v, LevelWeights(w, f, l), |f[l]|)
    requires a < |f[l + 1]| && b < |f[l + 1]| && a != b
    ensures Wrap(Total(v, f[l + 1][a], f[l + 1][b])) == LevelWeights(w, f, l + 1)(a, b)
  {
    var ds, es := f[l + 1][a], f[l + 1][b];
    forall i, j | 0 <= i < |ds| && 0 <= j < |es|
      ensures Wrap(v(ds[i], es[j])) == Wrap(Total(w, Threads(f, l, ds[i]), Threads(f, l, es[j])))
    {
      assert Holds(f[l + 1], a, i, ds[i]) && Holds(f[l + 1], b, j, es[j]);
      assert v(ds[i], es[j]) == LevelWeights(w, f, l)(ds[i], es[j]);
      if l == 0 {
        SingleTotals(w, ds[i], es[j]);
      } else {
        ModTwice(Total(w, Threads(f, l, ds[i]), Threads(f, l, es[j])));
      }
    }
    TotalOfThreads(w, f, l, ds, es, v);
  }

  // ------------------------------------------------ forests built level by level

  /** Number of groups that level `l` gets. */
  function GroupCount(shared: seq<nat>, l: nat, nelements: nat): nat
    requires 1 <= l <= |shared| + 1
  {
    if nelements > Capacity(shared, l) then Capacity(shared, l) else nelements
  }

  /** Level `l` splits level `l - 1` evenly, into as many groups as there are hardware units,
      by the greedy rule for the communication between whole sets of threads. */
  ghost predicate LevelOk(w: Weights, f: Levels, shared: seq<nat>, l: nat)
    requires 1 <= l < |f| && l <= |shared| + 1
  {
    var n := |f[l - 1]|;
    && Partition(f[l], n)
    && GroupCount(shared, l, n) > 0 && Balanced(f[l], n, GroupCount(shared, l, n))
    && IsGreedy(LevelWeights(w, f, l - 1), n, f[l])
  }

  ghost predicate GreedyLevels(w: Weights, f: Levels, shared: seq<nat>) {
    && 1 <= |f| <= |shared| + 2 && |f[0]| >= 1
    && forall l | 1 <= l < |f| :: LevelOk(w, f, shared, l)
  }

  lemma {:induction false} ThreadsExtend(f: Levels, gs: Grouping, l: nat, g: nat)
    requires l < |f|
    ensures Threads(f + [gs], l, g) == Threads(f, l, g)
    decreases l, 0
  {
    if l > 0 && g < |f[l]| {
      ThreadsOfExtend(f, gs, l - 1, f[l][g]);
    }
  }

  lemma {:induction false} ThreadsOfExtend(f: Levels, gs: Grouping, l: nat, es: seq<nat>)
    requires l < |f|
    ensures ThreadsOf(f + [gs], l, es) == ThreadsOf(f, l, es)
    decreases l, |es| + 1
  {
    if es != [] {
      ThreadsOfExtend(f, gs, l, es[..|es| - 1]);
      ThreadsExtend(f, gs, l, es[|es| - 1]);
    }
  }

  lemma LevelWeightsExtend(w: Weights, f: Levels, gs: Grouping, l: nat, n: nat)
    requires l < |f|
    ensures Agrees(LevelWeights(w, f, l), LevelWeights(w, f + [gs], l), n)
  {
    forall a: nat, b: nat | a < n && b < n && a != b
      ensures LevelWeights(w, f, l)(a, b) == LevelWeights(w, f + [gs], l)(a, b)
    {
      ThreadsExtend(f, gs, l, a);
      ThreadsExtend(f, gs, l, b);
    }
  }

  lemma LevelOkExtend(w: Weights, f: Levels, gs: Grouping, shared: seq<nat>, l: nat)
    requires 1 <= l < |f| && l <= |shared| + 1 && LevelOk(w, f, shared, l)
    ensures LevelOk(w, f + [gs], shared, l)
  {
    var n := |f[l - 1]|;
    LevelWeightsExtend(w, f, gs, l - 1, n);
    GreedyCongruent(LevelWeights(w, f, l - 1), LevelWeights(w, f + [gs], l - 1), n, f[l]);
  }

  /** Adding a level built from the matrix `v` of the level below. */
  lemma AddLevel(w: Weights, f: Levels, shared: seq<nat>, gs: Grouping, v: Weights)
    requires GreedyLevels(w, f, shared) && |f| <= |shared| + 1
    requires var n := |f[|f| - 1]|;
             && Partition(gs, n) && GroupCount(shared, |f|, n) > 0 && Balanced(gs, n, GroupCount(shared, |f|, n))
             && IsGreedy(v, n, gs) && Agrees(v, LevelWeights(w, f, |f| - 1), n)
    ensures GreedyLevels(w, f + [gs], shared)
  {
    var k, n := |f|, |f[|f| - 1]|;
    forall l | 1 <= l < k + 1
      ensures LevelOk(w, f + [gs], shared, l)
    {
      if l < k {
        assert LevelOk(w, f, shared, l);
        LevelOkExtend(w, f, gs, shared, l);
      } else {
        GreedyCongruent(v, LevelWeights(w, f, k - 1), n, gs);
        LevelWeightsExtend(w, f, gs, k - 1, n);
        GreedyCongruent(LevelWeights(w, f, k - 1), LevelWeights(w, f + [gs], k - 1), n, gs);
      }
    }
  }

  /** How many groups a level has, in terms of the number of threads. */
  lemma {:induction false} LevelSize(w: Weights, f: Levels, shared: seq<nat>, l: nat)
    requires GreedyLevels(w, f, shared) && 1 <= l < |f|
    requires forall i | 0 <= i < |shared| :: shared[i] >= 1
    ensures |f[l]| == GroupCount(shared, l, |f[0]|) >= 1
    ensures |f[l]| == Min(|f[0]|, Product(shared[..|shared| + 1 - l]))
  {
    assert LevelOk(w, f, shared, l);
    if l > 1 {
      LevelSize(w, f, shared, l - 1);
      CapacityStep(shared, l);
      MulMonotone(Capacity(shared, l), Capacity(shared, l), 1, Arity(shared, l));
    }
  }

  lemma MulSuccessor(k: nat, a: nat)
    ensures k * (a + 1) == k * a + k
  {
  }

  lemma ShareBound(n: nat, k: nat, a: nat)
    requires k > 0 && n <= k * a
    ensures n / k + (if n % k > 0 then 1 else 0) <= a
  {
    var q, r := n / k, n % k;
    assert n == k * q + r;
    if q >= a {
      MulMonotone(k, k, a, q);
      if q > a {
        MulMonotone(k, k, a + 1, q);
        MulSuccessor(k, a);
        assert false;
      }
    }
  }

  /** No group has more elements than its hardware unit has children. */
  lemma GroupFits(w: Weights, f: Levels, shared: seq<nat>, l: nat, g: nat)
    requires GreedyLevels(w, f, shared) && 2 <= l < |f| && g < |f[l]|
    requires forall i | 0 <= i < |shared| :: shared[i] >= 1
    ensures |f[l][g]| <= Arity(shared, l)
  {
    var n, k := |f[l - 1]|, |f[l]|;
    assert LevelOk(w, f, shared, l);
    LevelSize(w, f, shared, l - 1);
    CapacityStep(shared, l);
    if n <= Capacity(shared, l) {
      MulMonotone(n, n, 1, Arity(shared, l));
    }
    ShareBound(n, k, Arity(shared, l));
  }

  lemma GroupsNonEmpty(w: Weights, f: Levels, shared: seq<nat>, l: nat, g: nat)
    requires GreedyLevels(w, f, shared) && 1 <= l < |f| && g < |f[l]|
    ensures f[l][g] != []
  {
    assert LevelOk(w, f, shared, l);
    var n, k := |f[l - 1]|, |f[l]|;
    assert n == k * (n / k) + n % k && n % k < k <= n;
    if n / k == 0 {
      assert false;
    }
  }

  /** The root group takes all groups of the topmost level in order. */
  lemma RootCompletes(w: Weights, f: Levels, shared: seq<nat>)
    requires GreedyLevels(w, f, shared) && |f| == |shared| + 1
    requires forall i | 0 <= i < |shared| :: shared[i] >= 1
    ensures Fits(f + [[Range(|f[|f| - 1]|)]], shared)
  {
    var n := |f[|f| - 1]|;
    var root := [Range(n)];
    var full := f + [root];
    assert Partition(root, n) by {
      forall e: nat | e < n
        ensures Placed(root, e)
      {
        assert Holds(root, 0, e, e);
      }
    }
    forall l | 1 <= l < |full|
      ensures Partition(full[l], |full[l - 1]|)
    {
      if l < |f| {
        assert LevelOk(w, f, shared, l);
      }
    }
    forall l, g | 2 <= l < |full| && 0 <= g < |full[l]|
      ensures |full[l][g]| <= Arity(shared, l)
    {
      if l < |f| {
        GroupFits(w, f, shared, l, g);
      } else {
        LevelSize(w, f, shared, l - 1);
        CapacityStep(shared, l);
        assert shared[..0] == [];
      }
    }
  }

  // --------------------------------------------------- the forest is determined

  lemma {:induction false} ThreadsPrefix(f: Levels, e: Levels, l: nat, g: nat)
    requires l < |f| && l < |e| && f[..l + 1] == e[..l + 1]
    ensures Threads(f, l, g) == Threads(e, l, g)
    decreases l, 0
  {
    if l > 0 {
      assert f[l] == f[..l + 1][l] && e[l] == e[..l + 1][l];
      assert f[..l + 1][..l] == f[..l] && e[..l + 1][..l] == e[..l];
      if g < |f[l]| {
        ThreadsOfPrefix(f, e, l - 1, f[l][g]);
      }
    }
  }

  lemma {:induction false} ThreadsOfPrefix(f: Levels, e: Levels, l: nat, es: seq<nat>)
    requires l < |f| && l < |e| && f[..l + 1] == e[..l + 1]
    ensures ThreadsOf(f, l, es) == ThreadsOf(e, l, es)
    decreases l, |es| + 1
  {
    if es != [] {
      ThreadsOfPrefix(f, e, l, es[..|es| - 1]);
      ThreadsPrefix(f, e, l, es[|es| - 1]);
    }
  }

  /** Communication that agrees between threads agrees between the groups of every level. */
  lemma {:induction false} LevelWeightsCongruent(w: Weights, v: Weights, f: Levels, l: nat)
    requires l < |f| && Agrees(w, v, |f[0]|) && forall k | 1 <= k < |f| :: Partition(f[k], |f[k - 1]|)
    ensures Agrees(LevelWeights(w, f, l), LevelWeights(v, f, l), |f[l]|)
  {
    if l > 0 {
      LevelWeightsCongruent(w, v, f, l - 1);
      var u := LevelWeights(w, f, l - 1);
      forall a: nat, b: nat | a < |f[l]| && b < |f[l]| && a != b
        ensures LevelWeights(w, f, l)(a, b) == LevelWeights(v, f, l)(a, b)
      {
        AggregationAt(w, f, l - 1, u, a, b);
        AggregationAt(v, f, l - 1, u, a, b);
      }
    }
  }

  /** A forest is greedy for every matrix that agrees off the diagonal. */
  lemma GreedyLevelsCongruent(w: Weights, v: Weights, f: Levels, shared: seq<nat>)
    requires GreedyLevels(w, f, shared) && Agrees(w, v, |f[0]|)
    ensures GreedyLevels(v, f, shared)
  {
    forall k | 1 <= k < |f|
      ensures Partition(f[k], |f[k - 1]|)
    {
      assert LevelOk(w, f, shared, k);
    }
    forall l | 1 <= l < |f|
      ensures LevelOk(v, f, shared, l)
    {
      assert LevelOk(w, f, shared, l);
      LevelWeightsCongruent(w, v, f, l - 1);
      GreedyCongruent(LevelWeights(w, f, l - 1), LevelWeights(v, f, l - 1), |f[l - 1]|, f[l]);
    }
  }

  lemma LevelUnique(w: Weights, f: Levels, e: Levels, shared: seq<nat>, l: nat)
    requires 1 <= l < |f| && l < |e| && l <= |shared| + 1 && f[..l] == e[..l]
    requires LevelOk(w, f, shared, l) && LevelOk(w, e, shared, l)
    ensures f[l] == e[l]
  {
    var n := |f[l - 1]|;
    assert f[l - 1] == f[..l][l - 1] && e[l - 1] == e[..l][l - 1];
    var u, v := LevelWeights(w, f, l - 1), LevelWeights(w, e, l - 1);
    forall a: nat, b: nat | a < n && b < n && a != b
      ensures v(a, b) == u(a, b)
    {
      ThreadsPrefix(f, e, l - 1, a);
      ThreadsPrefix(f, e, l - 1, b);
    }
    GreedyCongruent(v, u, n, e[l]);
    GreedyUnique(u, n, f[l], e[l], |f[l]|);
    assert f[l][..|f[l]|] == f[l] && e[l][..|f[l]|] == e[l];
  }

  /** The matrix determines the forest: the algorithm has no freedom left. */
  lemma {:induction false} ForestUnique(w: Weights, f: Levels, e: Levels, shared: seq<nat>, k: nat)
    requires GreedyLevels(w, f, shared) && GreedyLevels(w, e, shared) && f[0] == e[0]
    requires 1 <= k <= |f| && k <= |e|
    ensures f[..k] == e[..k]
  {
    if k > 1 {
      var l := k - 1;
      ForestUnique(w, f, e, shared, l);
      LevelUnique(w, f, e, shared, l);
      assert f[..k] == f[..l] + [f[l]] && e[..k] == e[..l] + [e[l]];
    }
  }

  lemma FirstPick(w: Weights, n: nat, taken: set<nat>, e: nat)
    requires IsPick(w, n, taken, [], e) && 0 !in taken
    ensures e == 0
  {
    assert Row(w, 0, []) == Row(w, e, []);
  }

  /** The first choice of all is always element 0. */
  lemma FirstIsZero(w: Weights, f: Levels, shared: seq<nat>, l: nat)
    requires GreedyLevels(w, f, shared) && 1 <= l < |f|
    ensures |f[l]| > 0 && f[l][0] != [] && f[l][0][0] == 0
  {
    assert LevelOk(w, f, shared, l);
    GroupsNonEmpty(w, f, shared, l, 0);
    var u, n, group := LevelWeights(w, f, l - 1), |f[l - 1]|, f[l][0];
    assert GroupAt(u, n, f[l], 0) && f[l][..0] == [];
    assert PickAt(u, n, Elems(Flatten([])), group, 0) && group[..0] == [];
    FirstPick(u, n, Elems(Flatten([])) + Elems([]), group[0]);
  }

  /** What greedy means: no element that is taken up later, by this group or by one after it, communicates
      more with the group's members so far than the one taken next; as much only if it has a higher number. */
  lemma GreedyChoice(w: Weights, f: Levels, shared: seq<nat>, l: nat, g: nat, r: nat, h: nat, s: nat)
    requires GreedyLevels(w, f, shared) && 1 <= l < |f|
    requires g < |f[l]| && r < |f[l][g]| && h < |f[l]| && s < |f[l][h]|
    requires g < h || (g == h && r < s)
    ensures var u, prior := LevelWeights(w, f, l - 1), f[l][g][..r];
            var next, later := f[l][g][r], f[l][h][s];
            Row(u, later, prior) <= Row(u, next, prior) && (later < next ==> Row(u, later, prior) < Row(u, next, prior))
  {
    var u, gs, n := LevelWeights(w, f, l - 1), f[l], |f[l - 1]|;
    assert LevelOk(w, f, shared, l);
    assert Holds(gs, h, s, gs[h][s]);
    assert GroupAt(u, n, gs, g);
    assert PickAt(u, n, Elems(Flatten(gs[..g])), gs[g], r);
    NotTakenYet(gs, n, g, r, h, s);
  }

  /** What stands later in a partition is not among what stands before. */
  lemma NotTakenYet(gs: Grouping, n: nat, g: nat, r: nat, h: nat, s: nat)
    requires Partition(gs, n) && g < |gs| && r < |gs[g]| && h < |gs| && s < |gs[h]|
    requires g < h || (g == h && r < s)
    ensures gs[h][s] !in Flatten(gs[..g]) && gs[h][s] !in gs[g][..r]
  {
    var e := gs[h][s];
    assert Holds(gs, h, s, e);
    if e in Flatten(gs[..g]) {
      var g', r' := FlattenOnly(gs[..g], e);
      assert Holds(gs, g', r', e);
      assert false;
    }
    if e in gs[g][..r] {
      var r' :| 0 <= r' < r && gs[g][r'] == e;
      assert Holds(gs, g, r', e);
      assert false;
    }
  }
}
