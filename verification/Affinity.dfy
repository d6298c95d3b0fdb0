/** Communication between threads and between groups of threads, as values: which
    element the greedy rule picks next, what coarsening a matrix by a grouping must
    preserve, and the laws that follow. */
module Affinity {
  import opened Arithmetic
  import opened Forest

  /** Communication between two elements of a level. */
  type Weights = (nat, nat) -> nat

  /** A value as a 32-bit C `unsigned` holds it. */
  function Wrap(a: nat): (r: nat)
    ensures r < 0x1_0000_0000
  {
    if a < 0x1_0000_0000 then a else Wrap(a - 0x1_0000_0000)
  }

  lemma {:induction false} WrapIsModulo(a: nat)
    ensures Wrap(a) == a % 0x1_0000_0000
  {
    if a >= 0x1_0000_0000 {
      WrapIsModulo(a - 0x1_0000_0000);
    }
  }

  ghost predicate Symmetric(w: Weights) {
    forall i: nat, j: nat :: w(i, j) == w(j, i)
  }

  // ---------------------------------------------------------------- sums

  /** Communication of `a` with every element of `s`. */
  function Row(w: Weights, a: nat, s: seq<nat>): nat {
    if s == [] then 0 else Row(w, a, s[..|s| - 1]) + w(a, s[|s| - 1])
  }

  /** Communication between every element of `s` and every element of `t`. */
  function Total(w: Weights, s: seq<nat>, t: seq<nat>): nat {
    if s == [] then 0 else Total(w, s[..|s| - 1], t) + Row(w, s[|s| - 1], t)
  }

  /** Communication over all unordered pairs of positions of `s`. */
  function PairSum(w: Weights, s: seq<nat>): nat {
    if s == [] then 0 else PairSum(w, s[..|s| - 1]) + Row(w, s[|s| - 1], s[..|s| - 1])
  }

  /** Communication that stays inside a group. */
  function Intra(w: Weights, gs: Grouping): nat {
    if gs == [] then 0 else Intra(w, gs[..|gs| - 1]) + PairSum(w, gs[|gs| - 1])
  }

  function Flatten(gs: Grouping): seq<nat> {
    if gs == [] then [] else Flatten(gs[..|gs| - 1]) + gs[|gs| - 1]
  }

  function Range(n: nat): seq<nat> {
    seq(n, i => i)
  }

  lemma {:induction false} RowConcat(w: Weights, a: nat, s: seq<nat>, t: seq<nat>)
    ensures Row(w, a, s + t) == Row(w, a, s) + Row(w, a, t)
  {
    if t == [] {
      assert s + t == s;
    } else {
      assert (s + t)[..|s + t| - 1] == s + t[..|t| - 1];
      RowConcat(w, a, s, t[..|t| - 1]);
    }
  }

  lemma {:induction false} TotalConcatLeft(w: Weights, s: seq<nat>, t: seq<nat>, u: seq<nat>)
    ensures Total(w, s + t, u) == Total(w, s, u) + Total(w, t, u)
  {
    if t == [] {
      assert s + t == s;
    } else {
      assert (s + t)[..|s + t| - 1] == s + t[..|t| - 1];
      TotalConcatLeft(w, s, t[..|t| - 1], u);
    }
  }

  lemma {:induction false} TotalConcatRight(w: Weights, s: seq<nat>, t: seq<nat>, u: seq<nat>)
    ensures Total(w, s, t + u) == Total(w, s, t) + Total(w, s, u)
  {
    if s != [] {
      TotalConcatRight(w, s[..|s| - 1], t, u);
      RowConcat(w, s[|s| - 1], t, u);
    }
  }

  lemma TotalSingle(w: Weights, a: nat, t: seq<nat>)
    ensures Total(w, [a], t) == Row(w, a, t)
  {
    assert [a][..0] == [];
  }

  lemma RowSingle(w: Weights, a: nat, b: nat)
    ensures Row(w, a, [b]) == w(a, b)
  {
    assert [b][..0] == [];
  }

  lemma {:induction false} TotalColumn(w: Weights, s: seq<nat>, b: nat)
    requires Symmetric(w)
    ensures Total(w, s, [b]) == Row(w, b, s)
  {
    if s != [] {
      TotalColumn(w, s[..|s| - 1], b);
      RowSingle(w, s[|s| - 1], b);
      assert w(s[|s| - 1], b) == w(b, s[|s| - 1]);
    }
  }

  lemma {:induction false} TotalSymmetric(w: Weights, s: seq<nat>, t: seq<nat>)
    requires Symmetric(w)
    ensures Total(w, s, t) == Total(w, t, s)
  {
    if s == [] {
      TotalEmptyRight(w, t);
    } else {
      var k := |s| - 1;
      TotalSymmetric(w, s[..k], t);
      assert s == s[..k] + [s[k]];
      TotalConcatRight(w, t, s[..k], [s[k]]);
      TotalColumn(w, t, s[k]);
    }
  }

  lemma {:induction false} TotalEmptyRight(w: Weights, s: seq<nat>)
    ensures Total(w, s, []) == 0
  {
    if s != [] {
      TotalEmptyRight(w, s[..|s| - 1]);
    }
  }

  lemma {:induction false} PairSumConcat(w: Weights, s: seq<nat>, t: seq<nat>)
    ensures PairSum(w, s + t) == PairSum(w, s) + PairSum(w, t) + Total(w, t, s)
  {
    if t == [] {
      assert s + t == s;
    } else {
      var k := |t| - 1;
      assert (s + t)[..|s + t| - 1] == s + t[..k];
      PairSumConcat(w, s, t[..k]);
      RowConcat(w, t[k], s, t[..k]);
    }
  }

  // -------------------------------------------- sums do not depend on order

  function Without(s: seq<nat>, i: nat): seq<nat>
    requires i < |s|
  {
    s[..i] + s[i + 1..]
  }

  lemma SplitAt(s: seq<nat>, i: nat)
    requires i < |s|
    ensures s == s[..i] + [s[i]] + s[i + 1..]
    ensures multiset(s) == multiset(Without(s, i)) + multiset{s[i]}
  {
    assert s == s[..i] + [s[i]] + s[i + 1..];
  }

  lemma {:induction false} RowPermutation(w: Weights, a: nat, s: seq<nat>, t: seq<nat>)
    requires multiset(s) == multiset(t)
    ensures Row(w, a, s) == Row(w, a, t)
    decreases |s|
  {
    if s == [] {
      EmptyPermutation(t);
    } else {
      var k := |s| - 1;
      var i := FindLast(s, t);
      RowPermutation(w, a, s[..k], Without(t, i));
      RowConcat(w, a, t[..i] + [t[i]], t[i + 1..]);
      RowConcat(w, a, t[..i], [t[i]]);
      RowConcat(w, a, t[..i], t[i + 1..]);
      SplitAt(t, i);
      assert [t[i]][..0] == [];
    }
  }

  lemma EmptyPermutation(t: seq<nat>)
    requires multiset([]) == multiset(t)
    ensures t == []
  {
    assert |multiset(t)| == |t|;
  }

  lemma CancelOne(a: multiset<nat>, b: multiset<nat>, x: nat)
    requires a + multiset{x} == b + multiset{x}
    ensures a == b
  {
    assert (a + multiset{x}) - multiset{x} == a;
    assert (b + multiset{x}) - multiset{x} == b;
  }

  lemma FindLast(s: seq<nat>, t: seq<nat>) returns (i: nat)
    requires s != [] && multiset(s) == multiset(t)
    ensures i < |t| && t[i] == s[|s| - 1]
    ensures multiset(s[..|s| - 1]) == multiset(Without(t, i))
  {
    var k := |s| - 1;
    SplitAt(s, k);
    assert Without(s, k) == s[..k];
    assert s[k] in multiset(t);
    i :| i < |t| && t[i] == s[k];
    SplitAt(t, i);
    CancelOne(multiset(s[..k]), multiset(Without(t, i)), s[k]);
  }

  lemma {:induction false} PairSumPermutation(w: Weights, s: seq<nat>, t: seq<nat>)
    requires Symmetric(w) && multiset(s) == multiset(t)
    ensures PairSum(w, s) == PairSum(w, t)
    decreases |s|
  {
    if s == [] {
      EmptyPermutation(t);
    } else {
      var k := |s| - 1;
      var i := FindLast(s, t);
      PairSumPermutation(w, s[..k], Without(t, i));
      RowPermutation(w, s[k], s[..k], Without(t, i));
      PairSumMiddle(w, t[..i], t[i], t[i + 1..]);
      SplitAt(t, i);
    }
  }

  lemma PairSumMiddle(w: Weights, s: seq<nat>, a: nat, t: seq<nat>)
    requires Symmetric(w)
    ensures PairSum(w, s + [a] + t) == PairSum(w, s + t) + Row(w, a, s + t)
  {
    PairSumConcat(w, s + [a], t);
    PairSumConcat(w, s, t);
    TotalConcatRight(w, t, s, [a]);
    TotalColumn(w, t, a);
    RowConcat(w, a, s, t);
    assert (s + [a])[..|s|] == s;
  }

  // ---------------------------------------------------- flattening groupings

  lemma {:induction false} FlattenHolds(gs: Grouping, g: nat, r: nat)
    requires g < |gs| && r < |gs[g]|
    ensures gs[g][r] in Flatten(gs)
  {
    if g < |gs| - 1 {
      FlattenHolds(gs[..|gs| - 1], g, r);
    }
  }

  lemma {:induction false} FlattenOnly(gs: Grouping, e: nat) returns (g: nat, r: nat)
    requires e in Flatten(gs)
    ensures Holds(gs, g, r, e)
  {
    var k := |gs| - 1;
    if e in gs[k] {
      r :| r < |gs[k]| && gs[k][r] == e;
      g := k;
    } else {
      g, r := FlattenOnly(gs[..k], e);
    }
  }

  /** Different places of a grouping hold different elements. */
  ghost predicate Injective(gs: Grouping) {
    forall g: nat, r: nat, h: nat, s: nat, e: nat | Holds(gs, g, r, e) && Holds(gs, h, s, e) :: g == h && r == s
  }

  lemma {:induction false} FlattenDistinct(gs: Grouping)
    requires Injective(gs)
    ensures Distinct(Flatten(gs))
  {
    if gs != [] {
      var k := |gs| - 1;
      var front, last := Flatten(gs[..k]), gs[k];
      forall g: nat, r: nat, h: nat, s: nat, e: nat | Holds(gs[..k], g, r, e) && Holds(gs[..k], h, s, e)
        ensures g == h && r == s
      {
        assert Holds(gs, g, r, e) && Holds(gs, h, s, e);
      }
      FlattenDistinct(gs[..k]);
      forall i, j | 0 <= i < |front| && 0 <= j < |last|
        ensures front[i] != last[j]
      {
        var g, r := FlattenOnly(gs[..k], front[i]);
        assert Holds(gs, g, r, front[i]);
        assert Holds(gs, k, j, last[j]);
      }
      forall i, j | 0 <= i < j < |last|
        ensures last[i] != last[j]
      {
        assert Holds(gs, k, i, last[i]) && Holds(gs, k, j, last[j]);
      }
    }
  }

  /** Where a place of a grouping ends up in the flat list. */
  lemma {:induction false} FlattenAt(gs: Grouping, g: nat, r: nat)
    requires g < |gs| && r < |gs[g]|
    ensures |Flatten(gs[..g])| + r < |Flatten(gs)| && Flatten(gs)[|Flatten(gs[..g])| + r] == gs[g][r]
  {
    var k := |gs| - 1;
    if g < k {
      FlattenAt(gs[..k], g, r);
      assert gs[..k][..g] == gs[..g];
    }
  }

  lemma FlattenBefore(gs: Grouping, g: nat, r: nat, h: nat)
    requires g < h <= |gs| && r < |gs[g]|
    ensures |Flatten(gs[..g])| + r < |Flatten(gs[..h])|
  {
    FlattenAt(gs[..h], g, r);
    assert gs[..h][..g] == gs[..g];
  }

  /** A grouping whose flat list enumerates `0..n` without repetition is a partition. */
  lemma FlatPartition(gs: Grouping, n: nat)
    requires Distinct(Flatten(gs)) && |Flatten(gs)| == n
    requires forall i | 0 <= i < n :: Flatten(gs)[i] < n
    ensures Partition(gs, n)
  {
    var flat := Flatten(gs);
    Pigeonhole(flat, n);
    forall g: nat, r: nat, e: nat | Holds(gs, g, r, e)
      ensures e < n
    {
      FlattenAt(gs, g, r);
    }
    forall g: nat, r: nat, h: nat, s: nat, e: nat | Holds(gs, g, r, e) && Holds(gs, h, s, e)
      ensures g == h && r == s
    {
      FlattenAt(gs, g, r);
      FlattenAt(gs, h, s);
      if g < h {
        FlattenBefore(gs, g, r, h);
      } else if h < g {
        FlattenBefore(gs, h, s, g);
      }
    }
    forall e: nat | e < n
      ensures Placed(gs, e)
    {
      var g, r := FlattenOnly(gs, e);
    }
  }

  lemma {:induction false} DistinctMultiset(s: seq<nat>, e: nat)
    requires Distinct(s)
    ensures multiset(s)[e] == if e in s then 1 else 0
  {
    if s != [] {
      var k := |s| - 1;
      assert s == s[..k] + [s[k]];
      DistinctMultiset(s[..k], e);
    }
  }

  lemma FlattenIsPermutation(gs: Grouping, n: nat)
    requires Partition(gs, n)
    ensures multiset(Flatten(gs)) == multiset(Range(n))
  {
    FlattenDistinct(gs);
    forall e: nat
      ensures multiset(Flatten(gs))[e] == multiset(Range(n))[e]
    {
      DistinctMultiset(Flatten(gs), e);
      DistinctMultiset(Range(n), e);
      if e < n {
        var p := Owner(gs, n, e);
        FlattenHolds(gs, p.0, p.1);
        assert Range(n)[e] == e;
      } else if e in Flatten(gs) {
        var g, r := FlattenOnly(gs, e);
      }
    }
  }

  // ------------------------------------------------------------ conservation

  /** `v` is the coarsening of `w` by `gs`, up to the width of a matrix cell. */
  ghost predicate Coarsens(w: Weights, gs: Grouping, v: Weights) {
    forall a: nat, b: nat {:trigger v(a, b)} | a < |gs| && b < |gs| && a != b ::
      v(a, b) == Wrap(Total(w, gs[a], gs[b]))
  }

  function Coarse(w: Weights, gs: Grouping): Weights {
    (a: nat, b: nat) => if a < |gs| && b < |gs| then Total(w, gs[a], gs[b]) else 0
  }

  lemma {:induction false} CoarseRow(w: Weights, gs: Grouping, a: nat, k: nat)
    requires a < |gs| && k <= |gs|
    ensures Row(Coarse(w, gs), a, Range(k)) == Total(w, gs[a], Flatten(gs[..k]))
  {
    if k == 0 {
      TotalEmptyRight(w, gs[a]);
    } else {
      CoarseRow(w, gs, a, k - 1);
      assert Range(k)[..k - 1] == Range(k - 1);
      assert gs[..k][..k - 1] == gs[..k - 1];
      TotalConcatRight(w, gs[a], Flatten(gs[..k - 1]), gs[k - 1]);
    }
  }

  lemma {:induction false} FlattenPairs(w: Weights, gs: Grouping, k: nat)
    requires k <= |gs|
    ensures PairSum(w, Flatten(gs[..k])) == Intra(w, gs[..k]) + PairSum(Coarse(w, gs), Range(k))
  {
    if k > 0 {
      FlattenPairs(w, gs, k - 1);
      assert gs[..k][..k - 1] == gs[..k - 1];
      PairSumConcat(w, Flatten(gs[..k - 1]), gs[k - 1]);
      assert Range(k)[..k - 1] == Range(k - 1);
      CoarseRow(w, gs, k - 1, k - 1);
    }
  }

  /** Coarsening conserves communication: what the old matrix held over all pairs is
      what stays inside the groups plus what the coarse matrix holds over all pairs. */
  lemma Conservation(w: Weights, gs: Grouping, n: nat)
    requires Symmetric(w) && Partition(gs, n)
    ensures PairSum(w, Range(n)) == Intra(w, gs) + PairSum(Coarse(w, gs), Range(|gs|))
  {
    FlattenIsPermutation(gs, n);
    PairSumPermutation(w, Flatten(gs), Range(n));
    FlattenPairs(w, gs, |gs|);
    assert gs[..|gs|] == gs;
  }

  lemma ModTwice(a: nat)
    ensures Wrap(Wrap(a)) == Wrap(a)
  {
  }

  lemma {:induction false} WrapAdd(a: nat, b: nat)
    ensures Wrap(Wrap(a) + b) == Wrap(a + b)
  {
    if a >= 0x1_0000_0000 {
      WrapAdd(a - 0x1_0000_0000, b);
    }
  }

  lemma AddModulo(a: nat, b: nat, c: nat, d: nat)
    requires Wrap(a) == Wrap(c) && Wrap(b) == Wrap(d)
    ensures Wrap(a + b) == Wrap(c + d)
  {
    WrapAdd(a, b);
    WrapAdd(c, b);
    WrapAdd(b, c);
    WrapAdd(d, c);
  }

  lemma {:induction false} RowModulo(w: Weights, v: Weights, a: nat, s: seq<nat>)
    requires forall i | 0 <= i < |s| :: Wrap(v(a, s[i])) == Wrap(w(a, s[i]))
    ensures Wrap(Row(v, a, s)) == Wrap(Row(w, a, s))
  {
    if s != [] {
      var k := |s| - 1;
      RowModulo(w, v, a, s[..k]);
      AddModulo(Row(v, a, s[..k]), v(a, s[k]), Row(w, a, s[..k]), w(a, s[k]));
    }
  }

  lemma {:induction false} PairsModulo(w: Weights, v: Weights, n: nat)
    requires forall a: nat, b: nat | a < n && b < n && a != b :: Wrap(v(a, b)) == Wrap(w(a, b))
    ensures Wrap(PairSum(v, Range(n))) == Wrap(PairSum(w, Range(n)))
  {
    if n > 0 {
      PairsModulo(w, v, n - 1);
      assert Range(n)[..n - 1] == Range(n - 1);
      RowModulo(w, v, n - 1, Range(n - 1));
      AddModulo(PairSum(v, Range(n - 1)), Row(v, n - 1, Range(n - 1)), PairSum(w, Range(n - 1)),
                Row(w, n - 1, Range(n - 1)));
    }
  }

  lemma CoarsePairsModulo(w: Weights, gs: Grouping, v: Weights)
    requires Coarsens(w, gs, v)
    ensures Wrap(PairSum(v, Range(|gs|))) == Wrap(PairSum(Coarse(w, gs), Range(|gs|)))
  {
    forall a: nat, b: nat | a < |gs| && b < |gs| && a != b
      ensures Wrap(v(a, b)) == Wrap(Coarse(w, gs)(a, b))
    {
      ModTwice(Total(w, gs[a], gs[b]));
    }
    PairsModulo(Coarse(w, gs), v, |gs|);
  }

  /** The same law for the matrix the program stores, whose cells are `unsigned`. */
  lemma ConservationModulo(w: Weights, gs: Grouping, n: nat, v: Weights)
    requires Symmetric(w) && Partition(gs, n) && Coarsens(w, gs, v)
    ensures Wrap(PairSum(w, Range(n))) == Wrap(Intra(w, gs) + PairSum(v, Range(|gs|)))
  {
    Conservation(w, gs, n);
    CoarseSumModulo(w, gs, v, PairSum(w, Range(n)));
  }

  lemma CoarseSumModulo(w: Weights, gs: Grouping, v: Weights, total: nat)
    requires Coarsens(w, gs, v) && total == Intra(w, gs) + PairSum(Coarse(w, gs), Range(|gs|))
    ensures Wrap(total) == Wrap(Intra(w, gs) + PairSum(v, Range(|gs|)))
  {
    CoarsePairsModulo(w, gs, v);
    AddModulo(Intra(w, gs), PairSum(Coarse(w, gs), Range(|gs|)), Intra(w, gs), PairSum(v, Range(|gs|)));
  }

  lemma {:induction false} RowAtMost(w: Weights, v: Weights, a: nat, s: seq<nat>)
    requires forall i | 0 <= i < |s| :: v(a, s[i]) <= w(a, s[i])
    ensures Row(v, a, s) <= Row(w, a, s)
  {
    if s != [] {
      RowAtMost(w, v, a, s[..|s| - 1]);
    }
  }

  lemma {:induction false} PairsAtMost(w: Weights, v: Weights, n: nat)
    requires forall a: nat, b: nat | a < n && b < n && a != b :: v(a, b) <= w(a, b)
    ensures PairSum(v, Range(n)) <= PairSum(w, Range(n))
  {
    if n > 0 {
      PairsAtMost(w, v, n - 1);
      assert Range(n)[..n - 1] == Range(n - 1);
      RowAtMost(w, v, n - 1, Range(n - 1));
    }
  }

  lemma CoarseAtMost(w: Weights, gs: Grouping, v: Weights)
    requires Coarsens(w, gs, v)
    ensures PairSum(v, Range(|gs|)) <= PairSum(Coarse(w, gs), Range(|gs|))
  {
    forall a: nat, b: nat | a < |gs| && b < |gs| && a != b
      ensures v(a, b) <= Coarse(w, gs)(a, b)
    {
      WrapAtMost(Total(w, gs[a], gs[b]));
    }
    PairsAtMost(Coarse(w, gs), v, |gs|);
  }

  lemma {:induction false} WrapAtMost(a: nat)
    ensures Wrap(a) <= a
  {
    if a >= 0x1_0000_0000 {
      WrapAtMost(a - 0x1_0000_0000);
    }
  }

  lemma {:induction false} WrapLoss(a: nat) returns (k: nat)
    ensures a == Wrap(a) + k * 0x1_0000_0000
  {
    if a < 0x1_0000_0000 {
      k := 0;
    } else {
      k := WrapLoss(a - 0x1_0000_0000);
      k := k + 1;
    }
  }

  lemma SameWrap(a: nat, b: nat) returns (k: nat)
    requires b <= a && Wrap(a) == Wrap(b)
    ensures a == b + k * 0x1_0000_0000
  {
    var i := WrapLoss(a);
    var j := WrapLoss(b);
    k := i - j;
  }

  /** The stored cells lose a multiple of 2^32. */
  lemma CoarseLoss(w: Weights, gs: Grouping, v: Weights) returns (k: nat)
    requires Coarsens(w, gs, v)
    ensures PairSum(Coarse(w, gs), Range(|gs|)) == PairSum(v, Range(|gs|)) + k * 0x1_0000_0000
  {
    CoarsePairsModulo(w, gs, v);
    CoarseAtMost(w, gs, v);
    k := SameWrap(PairSum(Coarse(w, gs), Range(|gs|)), PairSum(v, Range(|gs|)));
  }

  /** Without overflow, that is for an old total that fits a cell, the stored cells conserve it exactly. */
  lemma ConservationExact(w: Weights, gs: Grouping, n: nat, v: Weights)
    requires Symmetric(w) && Partition(gs, n) && Coarsens(w, gs, v) && PairSum(w, Range(n)) < 0x1_0000_0000
    ensures PairSum(w, Range(n)) == Intra(w, gs) + PairSum(v, Range(|gs|))
  {
    Conservation(w, gs, n);
    ExactIfSmall(w, gs, v, PairSum(w, Range(n)));
  }

  lemma ExactIfSmall(w: Weights, gs: Grouping, v: Weights, total: nat)
    requires Coarsens(w, gs, v) && total == Intra(w, gs) + PairSum(Coarse(w, gs), Range(|gs|)) < 0x1_0000_0000
    ensures total == Intra(w, gs) + PairSum(v, Range(|gs|))
  {
    var k := CoarseLoss(w, gs, v);
    NothingLost(total, Intra(w, gs), PairSum(Coarse(w, gs), Range(|gs|)), PairSum(v, Range(|gs|)), k);
  }

  lemma NothingLost(total: nat, inside: nat, exact: nat, stored: nat, k: nat)
    requires total == inside + exact < 0x1_0000_0000 && exact == stored + k * 0x1_0000_0000
    ensures total == inside + stored
  {
  }
}
