/** The 32-bit counter of passes of the list head. A search gives up when it overflows; how far
    it can move during a call, and from which values on a call can miss a page. */
module WalkCounter {
  import opened Arithmetic
  import opened PageRule

  /** The longest jump after a hidden page. */
  const LONGEST: nat := 61

  // ------------------------------------------------------- what a pass has to skip

  /** How many of the `d` pages before `z` are in `h`. */
  function Near(h: set<nat>, z: nat, d: nat): (r: nat)
    ensures r <= d
  {
    if d == 0 then 0 else Near(h, z, d - 1) + (if d <= z && z - d in h then 1 else 0)
  }

  lemma {:induction false} NearGrows(h: set<nat>, p: nat, z: nat, d: nat)
    requires p !in h
    ensures Near(h + {p}, z, d) == Near(h, z, d) + (if p < z <= p + d then 1 else 0)
  {
    if d > 0 {
      NearGrows(h, p, z, d - 1);
    }
  }

  lemma {:induction false} NearAtMost(h: set<nat>, z: nat, d: nat)
    ensures Near(h, z, d) <= |h|
  {
    if d > 0 {
      if d <= z && z - d in h {
        NearAtMost(h - {z - d}, z, d - 1);
        NearGrows(h - {z - d}, z - d, z, d - 1);
        assert h - {z - d} + {z - d} == h;
      } else {
        NearAtMost(h, z, d - 1);
      }
    }
  }

  predicate Ahead(c: Cursor, z: nat) {
    c.vma.Some? && c.nextAddr <= z
  }

  /** How often a scan from `s` to `t` can have passed the list head while it left `z` alone:
      every round skipped `z`, by a jump from a page shortly before it. */
  function Passes(s: Scan, t: Scan, z: nat): nat {
    Near(s.targets - t.targets, z, LONGEST - 1) + (if Ahead(t.cursor, z) then 1 else 0)
  }

  ghost predicate Counted(s: Scan, t: Scan) {
    forall z | z in t.targets :: t.cursor.numWalks <= s.cursor.numWalks + Passes(s, t, z)
  }

  lemma {:induction false} WalksAfterBound(w: Walks, k: nat)
    ensures WalksAfter(w, k) <= w + k
  {
    if k > 0 {
      WalksAfterBound(w, k - 1);
    }
  }

  /** The counter when the search has found the page to hide. */
  function WalksFound(sp: Space, t: Scan): Walks {
    WalksAfter(t.cursor.numWalks, if MustWrap(sp, t) then 1 else 0)
  }

  lemma FoundCounted(sp: Space, s: Scan, t: Scan, z: nat)
    requires ScanOk(sp, t) && CanHide(sp, t) && Counted(s, t) && z in t.targets
    ensures Choice(sp, t).Some?
    ensures var p := Choice(sp, t).value;
            WalksFound(sp, t) <= s.cursor.numWalks + Near(s.targets - t.targets, z, LONGEST - 1)
              + (if p <= z then 1 else 0)
  {
    HasChoice(sp, t);
    WalksAfterBound(t.cursor.numWalks, 1);
  }

  /** Where the cursor stands after hiding `p`, seen from another target: the target is ahead of
      it, or was jumped over; and passing the list head puts everything ahead. */
  lemma MovedPast(sp: Space, t: Scan, k: nat, p: nat, w: Walks, jump: nat, z: nat)
    requires ScanOk(sp, t) && Eligible(sp, k) && Inside(sp, k, p) && z in t.targets && z != p && jump >= 1
    ensures var c := Moved(sp, k, p, w, jump);
            if c.numWalks == w then z < p || z < p + jump || Ahead(c, z)
            else c.numWalks <= w + 1 && Ahead(c, z) && z < p + jump
  {
    var l: nat :| Eligible(sp, l) && Inside(sp, l, z);
    var f := NextVma(sp, Some(k));
    WalksAfterBound(w, f.walks);
    assert Eligible(sp, f.vma.value);
    assert WalksAfter(w, 1) == NextWalk(w);
  }

  lemma HideCounted(sp: Space, s: Scan, t: Scan, jump: nat)
    requires ScanOk(sp, t) && CanHide(sp, t) && Counted(s, t) && t.targets <= s.targets && 1 <= jump <= LONGEST
    ensures Counted(s, Hide(sp, t, jump))
  {
    HasChoice(sp, t);
    var u, p := Hide(sp, t, jump), Choice(sp, t).value;
    assert s.targets - u.targets == (s.targets - t.targets) + {p};
    forall z | z in u.targets
      ensures u.cursor.numWalks <= s.cursor.numWalks + Passes(s, u, z)
    {
      FoundCounted(sp, s, t, z);
      MovedPast(sp, t, AreaOf(sp, p), p, WalksFound(sp, t), jump, z);
      NearGrows(s.targets - t.targets, p, z, LONGEST - 1);
    }
  }

  lemma StepCounted(sp: Space, s: Scan, t: Scan, jump: nat)
    requires ScanOk(sp, t) && Counted(s, t) && t.targets <= s.targets && 1 <= jump <= LONGEST
    ensures Counted(s, if CanHide(sp, t) then Hide(sp, t, jump) else t)
  {
    if CanHide(sp, t) {
      HideCounted(sp, s, t, jump);
    }
  }

  lemma {:induction false} AlwaysCounted(sp: Space, s: Scan, cycles: nat -> nat, n: nat)
    requires ScanOk(sp, s)
    ensures Counted(s, HideMany(sp, s, cycles, n))
  {
    if n > 0 {
      AlwaysCounted(sp, s, cycles, n - 1);
      HidesOnlyTargets(sp, s, cycles, n - 1);
      StepCounted(sp, s, HideMany(sp, s, cycles, n - 1), Jump(cycles, n - 1));
    }
  }

  // ------------------------------------------------------------ what a call can rely on

  lemma HiddenAtMost(sp: Space, s: Scan, cycles: nat -> nat, n: nat)
    requires ScanOk(sp, s)
    ensures |s.targets - HideMany(sp, s, cycles, n).targets| <= n
  {
    var t := HideMany(sp, s, cycles, n).targets;
    HidesOnlyTargets(sp, s, cycles, n);
    assert s.targets == (s.targets - t) + t;
  }

  /** A scan that has hidden `j` pages has passed the list head at most `j` times, and never more than
      60 times, before a search that has to pass it again. */
  lemma PassesBeforeWrap(sp: Space, s: Scan, cycles: nat -> nat, j: nat)
    requires ScanOk(sp, s)
    ensures var t := HideMany(sp, s, cycles, j);
            t.targets != {} && MustWrap(sp, t) ==> t.cursor.numWalks <= s.cursor.numWalks + Min(j, LONGEST - 1)
  {
    var t := HideMany(sp, s, cycles, j);
    if t.targets != {} && MustWrap(sp, t) {
      var z :| z in t.targets;
      AlwaysCounted(sp, s, cycles, j);
      HiddenAtMost(sp, s, cycles, j);
      NearAtMost(s.targets - t.targets, z, LONGEST - 1);
    }
  }

  /** A call hides all it is asked for, or all there is. */
  ghost predicate HidesAll(sp: Space, s: Scan, cycles: nat -> nat, n: nat)
    requires ScanOk(sp, s)
  {
    |HideMany(sp, s, cycles, n).targets| == |s.targets| - Min(n, |s.targets|)
  }

  /** Nothing is missed as long as the counter stays below its maximum for as many passes as there
      are pages to hide, but at most 61. */
  lemma FarFromOverflow(sp: Space, s: Scan, cycles: nat -> nat, n: nat)
    requires ScanOk(sp, s) && s.cursor.numWalks + Min(Min(n, |s.targets|), LONGEST) <= MAX_WALKS
    ensures HidesAll(sp, s, cycles, n)
  {
    var asked := Min(n, |s.targets|);
    forall j: nat | j < asked
      ensures !IsStuckAt(sp, s, cycles, j)
    {
      PassesBeforeWrap(sp, s, cycles, j);
    }
    HidesExactly(sp, s, cycles, n);
  }

  /** The counter moves by at most 62 in a call that hides what it is asked for. */
  lemma {:induction false} WalksBound(sp: Space, s: Scan, cycles: nat -> nat, n: nat)
    requires ScanOk(sp, s)
    ensures HideMany(sp, s, cycles, n).cursor.numWalks <= s.cursor.numWalks + Min(n, LONGEST) + 1
  {
    if n > 0 {
      var t := HideMany(sp, s, cycles, n - 1);
      if CanHide(sp, t) {
        LastHide(sp, s, t, cycles, n - 1);
      } else {
        WalksBound(sp, s, cycles, n - 1);
      }
    }
  }

  lemma LastHide(sp: Space, s: Scan, t: Scan, cycles: nat -> nat, n: nat)
    requires ScanOk(sp, s) && t == HideMany(sp, s, cycles, n) && CanHide(sp, t)
    ensures Hide(sp, t, Jump(cycles, n)).cursor.numWalks <= s.cursor.numWalks + Min(n, LONGEST - 1) + 2
  {
    AlwaysCounted(sp, s, cycles, n);
    HiddenAtMost(sp, s, cycles, n);
    HasChoice(sp, t);
    var p := Choice(sp, t).value;
    var k, w := AreaOf(sp, p), WalksFound(sp, t);
    NearAtMost(s.targets - t.targets, p, LONGEST - 1);
    FoundCounted(sp, s, t, p);
    assert Eligible(sp, k);
    WalksAfterBound(w, NextVma(sp, Some(k)).walks);
  }

  /** A page that is missed: the second page of the only area is next, and the first is present. */
  lemma OverflowExample(cycles: nat -> nat)
    ensures var sp := Space([Vma(0, 2, false)], false, 2);
            var s := Scan({0}, Cursor(Some(0), 1, MAX_WALKS));
            ScanOk(sp, s) && s.targets != {} && HideMany(sp, s, cycles, 1).targets == s.targets
  {
    var sp := Space([Vma(0, 2, false)], false, 2);
    var s := Scan({0}, Cursor(Some(0), 1, MAX_WALKS));
    assert Eligible(sp, 0) && Inside(sp, 0, 0);
    assert Stuck(sp, s);
    OverflowHidesNothing(sp, s, cycles, 1);
  }

  // ----------------------------------------------------------- the worst case is met

  /** One area of at least 200 pages, the first `m` of them present, and the cursor behind them. */
  function WorstSpace(size: nat): Space {
    Space([Vma(0, size, false)], false, size)
  }

  function Pages(from: nat, to: nat): (r: set<nat>)
    ensures forall p: nat :: (p in r <==> from <= p < to)
    decreases if from < to then to - from else 0
  {
    if from >= to then {} else {from} + Pages(from + 1, to)
  }

  function LongJumps(): nat -> nat {
    (i: nat) => 60
  }

  /** With the longest jumps every page costs a round. */
  ghost function WorstAfter(w: Walks, m: nat, j: nat): Scan
    requires w + j <= MAX_WALKS
  {
    Scan(Pages(j, m), Cursor(Some(0), if j == 0 then 100 else j + 60, w + j))
  }

  lemma WorstOk(size: nat, w: Walks, m: nat, j: nat)
    requires size >= 200 && w + j <= MAX_WALKS && j <= m <= LONGEST
    ensures ScanOk(WorstSpace(size), WorstAfter(w, m, j)) && MustWrap(WorstSpace(size), WorstAfter(w, m, j))
    ensures |WorstAfter(w, m, j).targets| == m - j
  {
    var sp := WorstSpace(size);
    assert Eligible(sp, 0);
    forall p: nat | p < m
      ensures InEligible(sp, p)
    {
      assert Inside(sp, 0, p);
    }
    RangeSize(j, m);
  }

  lemma {:induction false} RangeSize(j: nat, m: nat)
    requires j <= m
    ensures |Pages(j, m)| == m - j
    decreases m - j
  {
    if j < m {
      RangeSize(j + 1, m);
    }
  }

  lemma WorstChoice(size: nat, w: Walks, m: nat, j: nat)
    requires size >= 200 && w + j < MAX_WALKS && j < m <= LONGEST
    ensures var sp, t := WorstSpace(size), WorstAfter(w, m, j);
            && ScanOk(sp, t) && CanHide(sp, t) && MustWrap(sp, t) && Choice(sp, t) == Some(j)
            && InEligible(sp, j) && AreaOf(sp, j) == 0
  {
    var sp, t := WorstSpace(size), WorstAfter(w, m, j);
    WorstOk(size, w, m, j);
    assert j in t.targets;
    HasChoice(sp, t);
    assert Eligible(sp, 0) && Inside(sp, 0, j);
    AreaUnique(sp, 0, j);
  }

  lemma WorstStep(size: nat, w: Walks, m: nat, j: nat)
    requires size >= 200 && w + j < MAX_WALKS && j < m <= LONGEST
    ensures ScanOk(WorstSpace(size), WorstAfter(w, m, j)) && CanHide(WorstSpace(size), WorstAfter(w, m, j))
    ensures Hide(WorstSpace(size), WorstAfter(w, m, j), LONGEST) == WorstAfter(w, m, j + 1)
  {
    WorstChoice(size, w, m, j);
    assert WorstAfter(w, m, j).targets - {j} == WorstAfter(w, m, j + 1).targets;
    assert WalksAfter(w + j, 1) == NextWalk(w + j);
  }

  /** `f` lists the scans that a call goes through, from the `i`th to the next. */
  ghost predicate Follows(sp: Space, f: nat -> Scan, cycles: nat -> nat, i: nat) {
    ScanOk(sp, f(i)) && CanHide(sp, f(i)) && Hide(sp, f(i), Jump(cycles, i)) == f(i + 1)
  }

  lemma {:induction false} HidesAlong(sp: Space, f: nat -> Scan, cycles: nat -> nat, n: nat)
    requires ScanOk(sp, f(0)) && forall i: nat | i < n :: Follows(sp, f, cycles, i)
    ensures HideMany(sp, f(0), cycles, n) == f(n)
  {
    if n > 0 {
      HidesAlong(sp, f, cycles, n - 1);
      assert Follows(sp, f, cycles, n - 1);
    }
  }

  ghost function WorstRun(w: Walks, m: nat): nat -> Scan {
    (i: nat) => WorstAfter(w, m, if w + i <= MAX_WALKS then i else 0)
  }

  lemma WorstFollows(size: nat, w: Walks, m: nat, n: nat)
    requires size >= 200 && w + n <= MAX_WALKS && n <= m <= LONGEST
    ensures forall i: nat | i < n :: Follows(WorstSpace(size), WorstRun(w, m), LongJumps(), i)
  {
    forall i: nat | i < n
      ensures Follows(WorstSpace(size), WorstRun(w, m), LongJumps(), i)
    {
      WorstStep(size, w, m, i);
      assert WorstRun(w, m)(i) == WorstAfter(w, m, i) && WorstRun(w, m)(i + 1) == WorstAfter(w, m, i + 1);
    }
  }

  lemma WorstReached(size: nat, w: Walks, m: nat, j: nat)
    requires size >= 200 && w + j <= MAX_WALKS && j <= m <= LONGEST
    ensures ScanOk(WorstSpace(size), WorstAfter(w, m, 0))
    ensures HideMany(WorstSpace(size), WorstAfter(w, m, 0), LongJumps(), j) == WorstAfter(w, m, j)
  {
    var f := WorstRun(w, m);
    WorstOk(size, w, m, 0);
    WorstFollows(size, w, m, j);
    assert f(0) == WorstAfter(w, m, 0) && f(j) == WorstAfter(w, m, j);
    HidesAlong(WorstSpace(size), f, LongJumps(), j);
  }

  lemma StuckMisses(sp: Space, s: Scan, cycles: nat -> nat, n: nat, j: nat, t: Scan)
    requires ScanOk(sp, s) && j < Min(n, |s.targets|)
    requires HideMany(sp, s, cycles, j) == t && t.targets != {} && Stuck(sp, t)
    ensures !HidesAll(sp, s, cycles, n)
  {
    assert IsStuckAt(sp, s, cycles, j);
    HidesExactly(sp, s, cycles, n);
  }

  /** A call can miss a page if the counter is so close to its maximum. */
  lemma CanMiss(w: Walks, n: nat) returns (sp: Space, s: Scan, cycles: nat -> nat)
    requires w + Min(n, LONGEST) > MAX_WALKS
    ensures ScanOk(sp, s) && s.cursor.numWalks == w && !HidesAll(sp, s, cycles, n)
  {
    var m, j := Min(n, LONGEST), MAX_WALKS - w;
    var t := WorstAfter(w, m, j);
    sp, s, cycles := WorstSpace(200 + n), WorstAfter(w, m, 0), LongJumps();
    WorstReached(200 + n, w, m, j);
    WorstOk(200 + n, w, m, 0);
    WorstOk(200 + n, w, m, j);
    StuckMisses(sp, s, cycles, n, j, t);
  }

  /** Whatever the areas, the pages and the jumps, a call that starts with the counter at `w` hides
      all it is asked for. */
  ghost predicate NeverMisses(w: Walks, n: nat) {
    forall sp, s, cycles | ScanOk(sp, s) && s.cursor.numWalks == w :: HidesAll(sp, s, cycles, n)
  }

  /** The exact condition, on what the caller knows before the call. */
  lemma NeverMissesExactly(w: Walks, n: nat)
    ensures NeverMisses(w, n) <==> w + Min(n, LONGEST) <= MAX_WALKS
  {
    if w + Min(n, LONGEST) <= MAX_WALKS {
      forall sp, s, cycles | ScanOk(sp, s) && s.cursor.numWalks == w
        ensures HidesAll(sp, s, cycles, n)
      {
        FarFromOverflow(sp, s, cycles, n);
      }
    } else {
      var sp, s, cycles := CanMiss(w, n);
    }
  }
}
