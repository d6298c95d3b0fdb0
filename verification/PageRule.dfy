/** Which pages a scan hides: it goes round the eligible memory areas of a process from where
    it last stopped, and hides the next present page for every fault it is to provoke. */
module PageRule {
  import opened Arithmetic

  /** A memory area holds the pages `start..end`; addresses are counted in pages. */
  datatype Vma = Vma(start: nat, end: nat, shared: bool)

  datatype Pte = Pte(none: bool, present: bool)

  /** What does not change during a call: the areas in list order, whether only shared ones
      are eligible, and the size of the address space. */
  datatype Space = Space(vmas: seq<Vma>, sharedOnly: bool, limit: nat)

  /** Areas are ordered and disjoint. */
  ghost predicate SpaceOk(sp: Space) {
    && (forall k | 0 <= k < |sp.vmas| :: sp.vmas[k].start < sp.vmas[k].end <= sp.limit)
    && forall j, k | 0 <= j < k < |sp.vmas| :: sp.vmas[j].end <= sp.vmas[k].start
  }

  predicate Eligible(sp: Space, k: nat) {
    k < |sp.vmas| && (!sp.sharedOnly || sp.vmas[k].shared)
  }

  predicate Inside(sp: Space, k: nat, p: nat) {
    k < |sp.vmas| && sp.vmas[k].start <= p < sp.vmas[k].end
  }

  ghost predicate InEligible(sp: Space, p: nat) {
    exists k: nat :: Eligible(sp, k) && Inside(sp, k, p)
  }

  predicate Present(pte: Pte) {
    !pte.none && pte.present
  }

  /** The pages that the scanner may hide. */
  ghost function Targets(sp: Space, ptes: seq<Pte>): set<nat> {
    set p: nat | p < |ptes| && Present(ptes[p]) && InEligible(sp, p)
  }

  /** They are the present pages of the areas, or of the shared ones only, as the flag says. */
  lemma TargetsMeaning(sp: Space, ptes: seq<Pte>, p: nat)
    ensures p in Targets(sp, ptes) <==>
              && p < |ptes| && !ptes[p].none && ptes[p].present
              && exists k: nat :: k < |sp.vmas| && sp.vmas[k].start <= p < sp.vmas[k].end
                                  && (sp.sharedOnly ==> sp.vmas[k].shared)
  {
    if k: nat :| k < |sp.vmas| && sp.vmas[k].start <= p < sp.vmas[k].end && (sp.sharedOnly ==> sp.vmas[k].shared) {
      assert Eligible(sp, k) && Inside(sp, k, p);
    }
  }

  // ------------------------------------------------------------ the cyclic order

  /** The first eligible area at or after `from`. */
  function FirstEligible(sp: Space, from: nat): (r: Option<nat>)
    ensures r.Some? ==> from <= r.value && Eligible(sp, r.value) && forall k | from <= k < r.value :: !Eligible(sp, k)
    ensures r.None? ==> forall k | from <= k :: !Eligible(sp, k)
    decreases |sp.vmas| - from
  {
    if from >= |sp.vmas| then None
    else if Eligible(sp, from) then Some(from)
    else FirstEligible(sp, from + 1)
  }

  /** An area and how often the list head was passed to get there. */
  datatype Found = Found(vma: Option<nat>, walks: nat)

  /** The cyclically next eligible area; without one the search goes round twice. */
  function NextVma(sp: Space, prev: Option<nat>): (r: Found)
    ensures r.vma.None? <==> forall k: nat :: !Eligible(sp, k)
    ensures r.vma.Some? ==> Eligible(sp, r.vma.value) && r.walks <= 1
  {
    var ahead := if prev.Some? then FirstEligible(sp, prev.value + 1) else None;
    if ahead.Some? then Found(ahead, 0)
    else
      var first := FirstEligible(sp, 0);
      if first.Some? then Found(first, 1) else Found(None, 2)
  }

  /** How many areas lie between `prev` and area `k` when going round the list. */
  function Between(sp: Space, prev: Option<nat>, k: nat): int {
    match prev
    case None => k
    case Some(p) => if k > p then k - p - 1 else k + |sp.vmas| - p - 1
  }

  /** The area found is the next eligible one going round the list, and the list head is passed once if that is needed
      to get there and twice if there is none. */
  lemma NextVmaIsNearest(sp: Space, prev: Option<nat>)
    requires prev.Some? ==> prev.value < |sp.vmas|
    ensures var r := NextVma(sp, prev);
            match r.vma
            case None => r.walks == 2 && forall k: nat :: !Eligible(sp, k)
            case Some(v) =>
              && Eligible(sp, v) && (forall k: nat | Eligible(sp, k) :: Between(sp, prev, v) <= Between(sp, prev, k))
              && r.walks == if prev.Some? && prev.value < v then 0 else 1
  {
  }

  /** The least member of `t` at or after `from`. */
  function FirstIn(t: set<nat>, from: nat, limit: nat): (r: Option<nat>)
    ensures r.Some? ==> from <= r.value < limit && r.value in t && forall p | p in t && from <= p :: r.value <= p
    ensures r.None? ==> forall p | p in t && p < limit :: p < from
    decreases limit - from
  {
    if from >= limit then None
    else if from in t then Some(from)
    else FirstIn(t, from + 1, limit)
  }

  // ------------------------------------------------------------- one hidden page

  const MAX_WALKS: nat := 0xffff_ffff

  type Walks = w: nat | w <= MAX_WALKS

  function NextWalk(w: Walks): Walks {
    if w == MAX_WALKS then 0 else w + 1
  }

  /** The 32-bit counter after `k` more increments. */
  function WalksAfter(w: Walks, k: nat): Walks {
    if k == 0 then w else NextWalk(WalksAfter(w, k - 1))
  }

  /** The resumable position of a scan. */
  datatype Cursor = Cursor(vma: Option<nat>, nextAddr: nat, numWalks: Walks)

  /** A cleared position. */
  const FRESH: Cursor := Cursor(None, 0, 0)

  /** The position is unset or inside an eligible area. */
  ghost predicate CursorOk(sp: Space, c: Cursor) {
    c.vma.Some? ==> Eligible(sp, c.vma.value) && Inside(sp, c.vma.value, c.nextAddr)
  }

  datatype Scan = Scan(targets: set<nat>, cursor: Cursor)

  ghost predicate ScanOk(sp: Space, s: Scan) {
    SpaceOk(sp) && CursorOk(sp, s.cursor) && forall p | p in s.targets :: p < sp.limit && InEligible(sp, p)
  }

  /** No target is left between the cursor and the end of the list. */
  predicate MustWrap(sp: Space, s: Scan) {
    s.cursor.vma.None? || FirstIn(s.targets, s.cursor.nextAddr, sp.limit).None?
  }

  /** The cyclically next target from the cursor. */
  function Choice(sp: Space, s: Scan): Option<nat> {
    FirstIn(s.targets, if MustWrap(sp, s) then 0 else s.cursor.nextAddr, sp.limit)
  }

  /** The counter is about to overflow in the middle of a search. */
  predicate Stuck(sp: Space, s: Scan) {
    s.cursor.numWalks == MAX_WALKS && MustWrap(sp, s)
  }

  predicate CanHide(sp: Space, s: Scan) {
    s.targets != {} && !Stuck(sp, s)
  }

  ghost function AreaOf(sp: Space, p: nat): nat
    requires InEligible(sp, p)
  {
    var k: nat :| Eligible(sp, k) && Inside(sp, k, p);
    k
  }

  lemma AreaUnique(sp: Space, k: nat, p: nat)
    requires SpaceOk(sp) && Eligible(sp, k) && Inside(sp, k, p)
    ensures InEligible(sp, p) && AreaOf(sp, p) == k
  {
  }

  /** Where the scan goes on after hiding page `p` of area `k`. */
  function Moved(sp: Space, k: nat, p: nat, w: Walks, jump: nat): Cursor
    requires k < |sp.vmas|
  {
    if p + jump < sp.vmas[k].end then Cursor(Some(k), p + jump, w)
    else Entered(sp, NextVma(sp, Some(k)), w)
  }

  function Entered(sp: Space, f: Found, w: Walks): Cursor {
    var start := if f.vma.Some? && f.vma.value < |sp.vmas| then sp.vmas[f.vma.value].start else 0;
    Cursor(f.vma, start, WalksAfter(w, f.walks))
  }

  lemma HasChoice(sp: Space, s: Scan)
    requires ScanOk(sp, s)
    ensures Choice(sp, s).Some? <==> s.targets != {}
    ensures Choice(sp, s).Some? ==> Choice(sp, s).value in s.targets
  {
    if s.targets != {} {
      var p :| p in s.targets;
    }
  }

  /** The page to hide is the first target from the cursor on, or the first of all if there is none ahead. */
  lemma ChoiceIsNext(sp: Space, s: Scan)
    requires ScanOk(sp, s) && s.targets != {}
    ensures var c := s.cursor;
            match Choice(sp, s)
            case None => false
            case Some(p) =>
              && p in s.targets
              && if c.vma.Some? && exists q: nat :: q in s.targets && c.nextAddr <= q
                 then c.nextAddr <= p && forall q: nat | q in s.targets && c.nextAddr <= q :: p <= q
                 else forall q: nat | q in s.targets :: p <= q
  {
    HasChoice(sp, s);
  }

  /** The scan after hiding one page. */
  ghost function Hide(sp: Space, s: Scan, jump: nat): Scan
    requires ScanOk(sp, s) && CanHide(sp, s)
  {
    HasChoice(sp, s);
    var p := Choice(sp, s).value;
    var w := WalksAfter(s.cursor.numWalks, if MustWrap(sp, s) then 1 else 0);
    Scan(s.targets - {p}, Moved(sp, AreaOf(sp, p), p, w, jump))
  }

  lemma HideKeepsOk(sp: Space, s: Scan, jump: nat)
    requires ScanOk(sp, s) && CanHide(sp, s) && jump >= 1
    ensures ScanOk(sp, Hide(sp, s, jump))
  {
    HasChoice(sp, s);
    var p := Choice(sp, s).value;
    var k := AreaOf(sp, p);
    assert Eligible(sp, k) && Inside(sp, k, p);
    var f := NextVma(sp, Some(k));
    assert Eligible(sp, f.vma.value);
  }

  /** Where a search leaves the cursor that finds nothing: it has gone round three times, or
      until the counter overflowed, or has not found any eligible area. */
  function GivenUp(sp: Space, c: Cursor): Cursor {
    match FirstEligible(sp, 0)
    case None => Cursor(None, c.nextAddr, WalksAfter(c.numWalks, 2))
    case Some(k) => Cursor(Some(k), if k < |sp.vmas| then sp.vmas[k].start else 0,
                           if c.numWalks + 3 > MAX_WALKS then 0 else c.numWalks + 3)
  }

  /** A search in vain ends at the start of the first area that the flag admits, three passes later, or with the
      counter at zero if it has no room for them; without such an area it ends nowhere, two passes later. */
  lemma GivenUpMeaning(sp: Space, c: Cursor, k: nat)
    requires k <= |sp.vmas| && forall j | 0 <= j < k :: sp.sharedOnly && !sp.vmas[j].shared
    ensures k == |sp.vmas| ==> GivenUp(sp, c) == Cursor(None, c.nextAddr, (c.numWalks + 2) % 0x1_0000_0000)
    ensures k < |sp.vmas| && (sp.sharedOnly ==> sp.vmas[k].shared) ==>
              GivenUp(sp, c) == Cursor(Some(k), sp.vmas[k].start,
                                       if c.numWalks + 3 < 0x1_0000_0000 then c.numWalks + 3 else 0)
  {
    assert WalksAfter(c.numWalks, 1) == NextWalk(c.numWalks);
    assert WalksAfter(c.numWalks, 2) == NextWalk(NextWalk(c.numWalks));
    if k < |sp.vmas| && (sp.sharedOnly ==> sp.vmas[k].shared) {
      assert Eligible(sp, k);
    }
  }

  lemma GivenUpOk(sp: Space, c: Cursor)
    requires SpaceOk(sp)
    ensures CursorOk(sp, GivenUp(sp, c)) && GivenUp(sp, c).numWalks <= c.numWalks + 3
  {
    assert WalksAfter(c.numWalks, 1) == NextWalk(c.numWalks);
    assert WalksAfter(c.numWalks, 2) == NextWalk(NextWalk(c.numWalks));
  }

  // ---------------------------------------------------------------- a whole call

  /** The jump after the `i`th page, from the cycle counter. */
  function Jump(cycles: nat -> nat, i: nat): nat {
    cycles(i) % 61 + 1
  }

  /** Hides up to `n` pages. */
  ghost function HideMany(sp: Space, s: Scan, cycles: nat -> nat, n: nat): (r: Scan)
    requires ScanOk(sp, s)
    ensures ScanOk(sp, r)
    decreases n
  {
    if n == 0 then s
    else
      var before := HideMany(sp, s, cycles, n - 1);
      if CanHide(sp, before) then
        HideKeepsOk(sp, before, Jump(cycles, n - 1));
        Hide(sp, before, Jump(cycles, n - 1))
      else before
  }

  /** Some step of the first `n` finds targets but a counter about to overflow. */
  ghost predicate GetsStuck(sp: Space, s: Scan, cycles: nat -> nat, n: nat)
    requires ScanOk(sp, s)
  {
    exists j: nat :: j < n && IsStuckAt(sp, s, cycles, j)
  }

  ghost predicate IsStuckAt(sp: Space, s: Scan, cycles: nat -> nat, j: nat)
    requires ScanOk(sp, s)
  {
    var t := HideMany(sp, s, cycles, j);
    t.targets != {} && Stuck(sp, t)
  }

  lemma HidesOne(sp: Space, s: Scan, jump: nat)
    requires ScanOk(sp, s) && CanHide(sp, s)
    ensures Hide(sp, s, jump).targets < s.targets && |Hide(sp, s, jump).targets| == |s.targets| - 1
  {
    HasChoice(sp, s);
  }

  lemma {:induction false} HidesOnlyTargets(sp: Space, s: Scan, cycles: nat -> nat, n: nat)
    requires ScanOk(sp, s)
    ensures HideMany(sp, s, cycles, n).targets <= s.targets
    ensures |s.targets| - Min(n, |s.targets|) <= |HideMany(sp, s, cycles, n).targets| <= |s.targets|
  {
    if n > 0 {
      HidesOnlyTargets(sp, s, cycles, n - 1);
      var t := HideMany(sp, s, cycles, n - 1);
      if CanHide(sp, t) {
        HidesOne(sp, t, Jump(cycles, n - 1));
      }
    }
  }

  /** As long as more can be hidden, a page was hidden every time. */
  lemma {:induction false} HidesOrEnds(sp: Space, s: Scan, cycles: nat -> nat, n: nat)
    requires ScanOk(sp, s)
    ensures CanHide(sp, HideMany(sp, s, cycles, n)) ==> |HideMany(sp, s, cycles, n).targets| == |s.targets| - n
  {
    if n > 0 {
      HidesOrEnds(sp, s, cycles, n - 1);
      OneLess(sp, HideMany(sp, s, cycles, n - 1), Jump(cycles, n - 1), |s.targets| - (n - 1));
    }
  }

  lemma OneLess(sp: Space, t: Scan, jump: nat, size: int)
    requires ScanOk(sp, t) && (CanHide(sp, t) ==> |t.targets| == size)
    ensures CanHide(sp, t) ==> |Hide(sp, t, jump).targets| == size - 1
  {
    if CanHide(sp, t) {
      HidesOne(sp, t, jump);
    }
  }

  /** If fewer pages were hidden than asked for, although there were enough, the last step was stuck. */
  lemma SticksAtLast(sp: Space, s: Scan, cycles: nat -> nat, n: nat)
    requires ScanOk(sp, s) && 0 < n <= |s.targets| && |HideMany(sp, s, cycles, n).targets| != |s.targets| - n
    ensures IsStuckAt(sp, s, cycles, n - 1)
  {
    var t := HideMany(sp, s, cycles, n - 1);
    HidesOnlyTargets(sp, s, cycles, n - 1);
    HidesOrEnds(sp, s, cycles, n - 1);
    if CanHide(sp, t) {
      HidesOne(sp, t, Jump(cycles, n - 1));
    }
  }

  lemma {:induction false} StaysStuck(sp: Space, s: Scan, cycles: nat -> nat, j: nat, n: nat)
    requires ScanOk(sp, s) && j <= n && !CanHide(sp, HideMany(sp, s, cycles, j))
    ensures HideMany(sp, s, cycles, n) == HideMany(sp, s, cycles, j)
  {
    if j < n {
      StaysStuck(sp, s, cycles, j, n - 1);
    }
  }

  lemma HidesWhileUnstuck(sp: Space, s: Scan, cycles: nat -> nat, n: nat)
    requires ScanOk(sp, s) && !GetsStuck(sp, s, cycles, Min(n, |s.targets|))
    ensures |HideMany(sp, s, cycles, n).targets| == |s.targets| - Min(n, |s.targets|)
  {
    var k := Min(n, |s.targets|);
    if k > 0 && |HideMany(sp, s, cycles, k).targets| != |s.targets| - k {
      SticksAtLast(sp, s, cycles, k);
      assert false;
    }
    if k < n {
      StaysStuck(sp, s, cycles, k, n);
    }
  }

  /** A call hides as many distinct pages as it is asked for and there are, exactly if no
      search on the way has to pass the list head with the counter at its maximum. */
  lemma HidesExactly(sp: Space, s: Scan, cycles: nat -> nat, n: nat)
    requires ScanOk(sp, s)
    ensures |HideMany(sp, s, cycles, n).targets| == |s.targets| - Min(n, |s.targets|)
            <==> !GetsStuck(sp, s, cycles, Min(n, |s.targets|))
  {
    if GetsStuck(sp, s, cycles, Min(n, |s.targets|)) {
      var j: nat :| j < Min(n, |s.targets|) && IsStuckAt(sp, s, cycles, j);
      StaysStuck(sp, s, cycles, j, n);
      HidesOnlyTargets(sp, s, cycles, j);
    } else {
      HidesWhileUnstuck(sp, s, cycles, n);
    }
  }

  /** With the counter at its maximum and nothing ahead of the cursor, a call hides nothing at all. */
  lemma OverflowHidesNothing(sp: Space, s: Scan, cycles: nat -> nat, n: nat)
    requires ScanOk(sp, s) && Stuck(sp, s)
    ensures HideMany(sp, s, cycles, n) == s
  {
    StaysStuck(sp, s, cycles, 0, n);
  }
}
