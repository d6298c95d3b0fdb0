/** The scanner over its whole life: calls at different times, with different pages present, between
    new threads, which make private areas eligible, and resets. */
module ScanLives {
  import opened Arithmetic
  import opened PageRule
  import opened WalkCounter
  import opened PageScans

  /** What happens to a scanner: a call, with the targets it finds and what the environment answers; a new
      thread; a reset at the end of a session. */
  datatype Happening =
    | Call(targets: set<nat>, cycles: nat -> nat, active: nat -> nat, numFaults: int)
    | NewThread
    | Reset

  /** Whether only shared areas are eligible, the position, and the calls since the last reset. */
  datatype Life = Life(sharedOnly: bool, cursor: Cursor, calls: nat)

  const BORN: Life := Life(true, FRESH, 0)

  /** The memory areas of the process, as far as they are eligible. */
  function View(areas: Space, l: Life): Space {
    areas.(sharedOnly := l.sharedOnly)
  }

  ghost predicate CanHappen(areas: Space, l: Life, h: Happening, n: nat) {
    h.Call? ==> ScanOk(View(areas, l), Scan(h.targets, l.cursor)) && Requested(h.numFaults) <= n
  }

  ghost function Next(areas: Space, l: Life, h: Happening, n: nat): Life
    requires CanHappen(areas, l, h, n)
  {
    match h
    case Call(targets, cycles, active, numFaults) =>
      var end := CallEnd(View(areas, l), Scan(targets, l.cursor), cycles, active, numFaults);
      l.(cursor := end.cursor, calls := l.calls + 1)
    case NewThread => l.(sharedOnly := false)
    case Reset => BORN
  }

  /** A call only finds targets in eligible areas. */
  ghost predicate Plausible(areas: Space, l: Life, h: Happening, n: nat) {
    h.Call? ==>
      Requested(h.numFaults) <= n && forall p | p in h.targets :: p < areas.limit && InEligible(View(areas, l), p)
  }

  /** `ls` are the states that the scanner goes through. */
  ghost predicate Lives(areas: Space, hs: seq<Happening>, ls: seq<Life>, n: nat) {
    && |ls| == |hs| + 1 && ls[0] == BORN
    && forall k: nat | k < |hs| :: LivesOn(areas, ls[k], hs[k], ls[k + 1], n)
  }

  ghost predicate LivesOn(areas: Space, l: Life, h: Happening, after: Life, n: nat) {
    Plausible(areas, l, h, n) && (CanHappen(areas, l, h, n) ==> after == Next(areas, l, h, n))
  }

  /** How far the counter can have come: calls for at most `n` faults move it by at most this much each. */
  function PerCall(n: nat): nat {
    Min(n, LONGEST) + 4
  }

  ghost predicate LifeOk(areas: Space, l: Life, n: nat) {
    CursorOk(View(areas, l), l.cursor) && l.cursor.numWalks <= Times(l.calls, PerCall(n))
  }

  /** A good position stays good, through calls, new threads and resets. */
  lemma NextIsOk(areas: Space, l: Life, h: Happening, after: Life, n: nat)
    requires SpaceOk(areas) && LifeOk(areas, l, n) && LivesOn(areas, l, h, after, n)
    ensures CanHappen(areas, l, h, n) && LifeOk(areas, after, n)
    ensures h.Call? ==> after.sharedOnly == l.sharedOnly && after.calls == l.calls + 1
    ensures h.NewThread? ==> after == Life(false, l.cursor, l.calls)
    ensures h.Reset? ==> after == Life(true, Cursor(None, 0, 0), 0)
  {
    match h {
      case Call(targets, cycles, active, numFaults) =>
        var sp, s := View(areas, l), Scan(targets, l.cursor);
        assert SpaceOk(sp);
        CallWalks(sp, s, cycles, active, numFaults);
        CallEndOk(sp, s, cycles, active, numFaults);
      case NewThread =>
        if l.cursor.vma.Some? {
          assert Eligible(View(areas, after), l.cursor.vma.value);
        }
      case Reset =>
    }
  }

  lemma CallEndOk(sp: Space, s: Scan, cycles: nat -> nat, active: nat -> nat, numFaults: int)
    requires ScanOk(sp, s)
    ensures CursorOk(sp, CallEnd(sp, s, cycles, active, numFaults).cursor)
  {
    GivenUpOk(sp, HideMany(sp, s, cycles, Awake(active, Requested(numFaults))).cursor);
  }

  lemma {:induction false} AlwaysOk(areas: Space, hs: seq<Happening>, ls: seq<Life>, n: nat, k: nat)
    requires SpaceOk(areas) && Lives(areas, hs, ls, n) && k <= |hs|
    ensures LifeOk(areas, ls[k], n)
  {
    if k > 0 {
      AlwaysOk(areas, hs, ls, n, k - 1);
      assert LivesOn(areas, ls[k - 1], hs[k - 1], ls[k], n);
      NextIsOk(areas, ls[k - 1], hs[k - 1], ls[k], n);
    }
  }

  /** From a fresh scanner on no call misses a page, as long as the calls since the last reset leave the counter
      room; with at most 61 faults a call that is 66 million calls. */
  lemma NeverMissesInLife(areas: Space, hs: seq<Happening>, ls: seq<Life>, n: nat, k: nat)
    requires SpaceOk(areas) && Lives(areas, hs, ls, n) && k < |hs| && hs[k].Call?
    requires forall i: nat | i < Requested(hs[k].numFaults) :: hs[k].active(i) >= 4
    requires Times(ls[k].calls, PerCall(n)) + Min(n, LONGEST) <= MAX_WALKS
    ensures var h, s := hs[k], Scan(hs[k].targets, ls[k].cursor);
            && ScanOk(View(areas, ls[k]), s)
            && var hidden := h.targets - CallEnd(View(areas, ls[k]), s, h.cycles, h.active, h.numFaults).targets;
               |hidden| == Min(Requested(h.numFaults), |h.targets|)
  {
    AlwaysOk(areas, hs, ls, n, k);
    assert LivesOn(areas, ls[k], hs[k], ls[k + 1], n);
    NextIsOk(areas, ls[k], hs[k], ls[k + 1], n);
    CallHides(View(areas, ls[k]), Scan(hs[k].targets, ls[k].cursor), hs[k].cycles, hs[k].active, hs[k].numFaults);
  }
}
