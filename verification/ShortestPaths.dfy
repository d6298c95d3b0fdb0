/** What the in-place relaxation computes, as a value: shortest distances that only pass
    through the first `k` vertices, and their relation to the paths of the graph. */
module ShortestPaths {

  /** Direct distance between two vertices. */
  type Steps = (nat, nat) -> nat

  /** Shortest distance from `i` to `j` that only passes through vertices below `k`. */
  function Through(w: Steps, k: nat, i: nat, j: nat): nat {
    if k == 0 then w(i, j)
    else
      var direct, detour := Through(w, k - 1, i, j), Through(w, k - 1, i, k - 1) + Through(w, k - 1, k - 1, j);
      if direct > detour then detour else direct
  }

  ghost predicate ZeroDiagonal(w: Steps, n: nat) {
    forall i: nat | i < n :: w(i, i) == 0
  }

  lemma {:induction false} DiagonalStaysZero(w: Steps, n: nat, k: nat, i: nat)
    requires ZeroDiagonal(w, n) && i < n
    ensures Through(w, k, i, i) == 0
  {
    if k > 0 {
      DiagonalStaysZero(w, n, k - 1, i);
    }
  }

  /** Phase `k` leaves row and column `k` alone, which is what makes updating in place safe. */
  lemma PhaseKeepsPivot(w: Steps, n: nat, k: nat, i: nat)
    requires ZeroDiagonal(w, n) && k < n
    ensures Through(w, k + 1, i, k) == Through(w, k, i, k)
    ensures Through(w, k + 1, k, i) == Through(w, k, k, i)
  {
    DiagonalStaysZero(w, n, k, k);
  }

  lemma {:induction false} ThroughShrinks(w: Steps, k: nat, i: nat, j: nat)
    ensures Through(w, k, i, j) <= w(i, j)
  {
    if k > 0 {
      ThroughShrinks(w, k - 1, i, j);
    }
  }

  lemma {:induction false} ThroughSymmetric(w: Steps, n: nat, k: nat, i: nat, j: nat)
    requires (forall a: nat, b: nat | a < n && b < n :: w(a, b) == w(b, a)) && k <= n && i < n && j < n
    ensures Through(w, k, i, j) == Through(w, k, j, i)
  {
    if k > 0 {
      ThroughSymmetric(w, n, k - 1, i, j);
      ThroughSymmetric(w, n, k - 1, i, k - 1);
      ThroughSymmetric(w, n, k - 1, k - 1, j);
    }
  }

  /** Going through any of the first `k` vertices is no shorter than the result of phase `k`. */
  lemma {:induction false} Triangle(w: Steps, n: nat, k: nat, i: nat, m: nat, j: nat)
    requires ZeroDiagonal(w, n) && k <= n && m < k
    ensures Through(w, k, i, j) <= Through(w, k, i, m) + Through(w, k, m, j)
  {
    var p := k - 1;
    if m == p {
      PhaseKeepsPivot(w, n, p, i);
      PhaseKeepsPivot(w, n, p, j);
    } else {
      Triangle(w, n, p, i, m, j);
      Triangle(w, n, p, p, m, j);
      Triangle(w, n, p, i, m, p);
    }
  }

  // ------------------------------------------------------------------ paths

  /** Total distance along consecutive vertices of `p`. */
  function Length(w: Steps, p: seq<nat>): nat {
    if |p| <= 1 then 0 else Length(w, p[..|p| - 1]) + w(p[|p| - 2], p[|p| - 1])
  }

  ghost predicate Joins(p: seq<nat>, n: nat, i: nat, j: nat) {
    p != [] && p[0] == i && p[|p| - 1] == j && forall x | 0 <= x < |p| :: p[x] < n
  }

  lemma {:induction false} LengthConcat(w: Steps, p: seq<nat>, q: seq<nat>)
    requires p != [] && q != [] && p[|p| - 1] == q[0]
    ensures Length(w, p + q[1..]) == Length(w, p) + Length(w, q)
  {
    if |q| == 1 {
      assert p + q[1..] == p;
    } else {
      var r := q[..|q| - 1];
      LengthConcat(w, p, r);
      assert (p + q[1..])[..|p + q[1..]| - 1] == p + r[1..];
      var all := p + q[1..];
      assert all[|all| - 1] == q[|q| - 1] && all[|all| - 2] == q[|q| - 2];
    }
  }

  /** No path is shorter than the result. */
  lemma {:induction false} NoPathIsShorter(w: Steps, n: nat, p: seq<nat>, i: nat, j: nat)
    requires ZeroDiagonal(w, n) && Joins(p, n, i, j)
    ensures Through(w, n, i, j) <= Length(w, p)
  {
    if |p| == 1 {
      DiagonalStaysZero(w, n, n, i);
    } else {
      var m := p[|p| - 2];
      NoPathIsShorter(w, n, p[..|p| - 1], i, m);
      Triangle(w, n, n, i, m, j);
      ThroughShrinks(w, n, m, j);
    }
  }

  /** Some path is as short as the result. */
  lemma {:induction false} SomePathAttains(w: Steps, n: nat, k: nat, i: nat, j: nat) returns (p: seq<nat>)
    requires k <= n && i < n && j < n
    ensures Joins(p, n, i, j) && Length(w, p) == Through(w, k, i, j) && |p| >= 2
  {
    if k == 0 {
      p := [i, j];
      assert p[..1] == [i];
    } else {
      var m := k - 1;
      if Through(w, m, i, j) > Through(w, m, i, m) + Through(w, m, m, j) {
        var q := SomePathAttains(w, n, m, i, m);
        var r := SomePathAttains(w, n, m, m, j);
        LengthConcat(w, q, r);
        p := q + r[1..];
      } else {
        p := SomePathAttains(w, n, m, i, j);
      }
    }
  }
}
