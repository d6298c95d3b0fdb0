/** The scanner that provokes page faults: it walks the eligible memory areas of a process
    round and round from where it last stopped, and hides a present page per fault. */
module PageScans {
  import opened Arithmetic
  import opened PageRule
  import opened WalkCounter

  // ------------------------------------------------------------------ one search

  /** How far the search for the next page has come: `wraps` passes of the list head since the
      start `s`, now at `addr`. */
  ghost predicate Searching(sp: Space, s: Scan, wraps: nat, addr: nat) {
    if wraps == 0 then
      s.cursor.vma.Some? && s.cursor.nextAddr <= addr && NoneBetween(s.targets, s.cursor.nextAddr, addr)
    else if wraps == 1 then MustWrap(sp, s) && NoneBetween(s.targets, 0, addr)
    else s.targets == {}
  }

  ghost predicate NoneBetween(t: set<nat>, from: nat, to: nat) {
    forall p | p in t && from <= p :: to <= p
  }

  /** In an eligible area the callback accepts exactly the targets. */
  lemma TargetsInside(sp: Space, ptes: seq<Pte>, k: nat, p: nat)
    requires Eligible(sp, k) && Inside(sp, k, p) && p < |ptes|
    ensures p in Targets(sp, ptes) <==> Present(ptes[p])
  {
  }

  lemma SearchStarts(sp: Space, s: Scan)
    requires ScanOk(sp, s) && s.cursor.vma.None?
    ensures var r := NextVma(sp, None);
            && (r.vma.None? ==> s.targets == {})
            && (r.vma.Some? ==> r.walks == 1 && Searching(sp, s, 1, sp.vmas[r.vma.value].start))
  {
    var r := NextVma(sp, None);
    if r.vma.Some? {
      NoneBefore(sp, s, r.vma.value);
    }
  }

  /** No target lies before the first eligible area. */
  lemma NoneBefore(sp: Space, s: Scan, first: nat)
    requires ScanOk(sp, s) && FirstEligible(sp, 0) == Some(first)
    ensures NoneBetween(s.targets, 0, sp.vmas[first].start)
  {
    forall p | p in s.targets
      ensures sp.vmas[first].start <= p
    {
      var k: nat :| Eligible(sp, k) && Inside(sp, k, p);
    }
  }

  /** No target lies between an area without targets and the next eligible one. */
  lemma NoneAfter(sp: Space, s: Scan, k: nat, addr: nat, from: nat)
    requires ScanOk(sp, s) && k < |sp.vmas| && addr <= sp.vmas[k].end && NoneBetween(s.targets, from, addr)
    requires forall p | p in s.targets && addr <= p :: sp.vmas[k].end <= p
    ensures var r := FirstEligible(sp, k + 1);
            && (r.Some? ==> NoneBetween(s.targets, from, sp.vmas[r.value].start))
            && (r.None? ==> forall p | p in s.targets :: p < from)
  {
    var r := FirstEligible(sp, k + 1);
    forall p | p in s.targets && from <= p
      ensures r.Some? && sp.vmas[r.value].start <= p
    {
      var l: nat :| Eligible(sp, l) && Inside(sp, l, p);
      assert k < l;
    }
  }

  /** A target found in the current area is the one to choose. */
  lemma SearchFound(sp: Space, s: Scan, wraps: nat, addr: nat, p: nat)
    requires ScanOk(sp, s) && Searching(sp, s, wraps, addr)
    requires p in s.targets && addr <= p && NoneBetween(s.targets, addr, p)
    ensures Choice(sp, s) == Some(p) && wraps == if MustWrap(sp, s) then 1 else 0
  {
  }

  /** Without one the search goes on in the next eligible area. */
  lemma SearchMissed(sp: Space, s: Scan, wraps: nat, addr: nat, k: nat)
    requires ScanOk(sp, s) && Searching(sp, s, wraps, addr) && Eligible(sp, k) && Inside(sp, k, addr)
    requires NoneBetween(s.targets, addr, sp.vmas[k].end)
    ensures var r := NextVma(sp, Some(k));
            r.vma.Some? && r.walks <= 1 && Searching(sp, s, wraps + r.walks, sp.vmas[r.vma.value].start)
  {
    var r := NextVma(sp, Some(k));
    assert Eligible(sp, k);
    if wraps <= 1 {
      NoneAfter(sp, s, k, addr, if wraps == 0 then s.cursor.nextAddr else 0);
      if r.walks == 1 {
        NoneBefore(sp, s, r.vma.value);
      }
    }
  }

  /** At the start of the first eligible area. */
  predicate AtHead(sp: Space, c: Cursor) {
    c.vma.Some? && c.vma.value < |sp.vmas| && FirstEligible(sp, 0) == c.vma && c.nextAddr == sp.vmas[c.vma.value].start
  }

  /** After that many passes a search that started with the counter at `start` gives up. */
  predicate Spent(start: Walks, wraps: nat) {
    wraps == 3 || start + wraps > MAX_WALKS
  }

  ghost predicate InSearch(sp: Space, s: Scan, wraps: nat, c: Cursor) {
    && c.vma.Some? && CursorOk(sp, c)
    && wraps <= 3 && s.cursor.numWalks + wraps <= MAX_WALKS + 1
    && c.numWalks == WalksAfter(s.cursor.numWalks, wraps) && Searching(sp, s, wraps, c.nextAddr)
    && (Spent(s.cursor.numWalks, wraps) ==> AtHead(sp, c))
  }

  lemma MissedGoesOn(sp: Space, s: Scan, wraps: nat, c: Cursor)
    requires ScanOk(sp, s) && InSearch(sp, s, wraps, c) && !Spent(s.cursor.numWalks, wraps)
    requires NoneBetween(s.targets, c.nextAddr, sp.vmas[c.vma.value].end)
    ensures var r := NextVma(sp, c.vma);
            && r.vma.Some? && r.walks <= 1 && (r.walks == 0 ==> r.vma.value > c.vma.value)
            && InSearch(sp, s, wraps + r.walks, Entered(sp, r, c.numWalks))
  {
    var r := NextVma(sp, c.vma);
    SearchMissed(sp, s, wraps, c.nextAddr, c.vma.value);
    WalksAdd(s.cursor.numWalks, wraps, r.walks);
    assert Eligible(sp, r.vma.value);
  }

  lemma StartsFromHead(sp: Space, s: Scan)
    requires ScanOk(sp, s) && s.cursor.vma.None?
    ensures var r := NextVma(sp, None);
            && (r.vma.None? ==> s.targets == {})
            && (r.vma.Some? ==> InSearch(sp, s, 1, Entered(sp, r, s.cursor.numWalks)))
  {
    SearchStarts(sp, s);
    var r := NextVma(sp, None);
    if r.vma.Some? {
      assert Eligible(sp, r.vma.value);
    }
  }

  lemma SearchInVain(sp: Space, s: Scan, wraps: nat, c: Cursor)
    requires ScanOk(sp, s) && InSearch(sp, s, wraps, c)
    ensures if Minus(c.numWalks, s.cursor.numWalks) > 2 then !CanHide(sp, s) && c == GivenUp(sp, s.cursor)
            else !Spent(s.cursor.numWalks, wraps)
  {
    GivesUp(s.cursor.numWalks, wraps);
  }

  /** `a - b` as `unsigned long` */
  function Minus(a: nat, b: nat): int {
    if a >= b then a - b else a - b + 0x1_0000_0000_0000_0000
  }

  /** The test that ends a search in vain fires after three passes or on an overflow. */
  lemma GivesUp(start: Walks, wraps: nat)
    requires wraps <= 3
    ensures Minus(WalksAfter(start, wraps), start) > 2 <==> Spent(start, wraps)
    ensures WalksAfter(start, wraps) ==
            if start + wraps > MAX_WALKS then start + wraps - MAX_WALKS - 1 else start + wraps
  {
    assert WalksAfter(start, 1) == NextWalk(start);
    assert WalksAfter(start, 2) == NextWalk(NextWalk(start));
    assert WalksAfter(start, 3) == NextWalk(NextWalk(NextWalk(start)));
  }

  lemma {:induction false} WalksAdd(w: Walks, i: nat, j: nat)
    ensures WalksAfter(WalksAfter(w, i), j) == WalksAfter(w, i + j)
  {
    if j > 0 {
      WalksAdd(w, i, j - 1);
    }
  }

  /** The page table after hiding a set of pages. */
  ghost function Hiding(ptes: seq<Pte>, pages: set<nat>): seq<Pte> {
    seq(|ptes|, i requires 0 <= i < |ptes| => if i in pages then ptes[i].(present := false) else ptes[i])
  }

  lemma HidingOne(sp: Space, ptes: seq<Pte>, p: nat)
    requires p in Targets(sp, ptes)
    ensures ptes[p := ptes[p].(present := false)] == Hiding(ptes, {p})
    ensures Targets(sp, Hiding(ptes, {p})) == Targets(sp, ptes) - {p}
  {
  }

  lemma HidingMore(ptes: seq<Pte>, a: set<nat>, b: set<nat>)
    ensures Hiding(Hiding(ptes, a), b) == Hiding(ptes, a + b)
  {
  }

  lemma FoundIsHidden(sp: Space, s: Scan, ptes: seq<Pte>, wraps: nat, k: nat, addr: nat, p: nat, jump: nat)
    requires ScanOk(sp, s) && s.targets == Targets(sp, ptes) && Searching(sp, s, wraps, addr)
    requires Eligible(sp, k) && Inside(sp, k, p) && p < |ptes| && Present(ptes[p])
    requires addr <= p && NoneBetween(s.targets, addr, p) && s.cursor.numWalks + wraps <= MAX_WALKS && jump >= 1
    ensures CanHide(sp, s)
    ensures var t, after := Hide(sp, s, jump), ptes[p := ptes[p].(present := false)];
            && t.targets == Targets(sp, after) && after == Hiding(ptes, s.targets - t.targets)
            && t.cursor == Moved(sp, k, p, WalksAfter(s.cursor.numWalks, wraps), jump) && CursorOk(sp, t.cursor)
  {
    TargetsInside(sp, ptes, k, p);
    SearchFound(sp, s, wraps, addr, p);
    HidingOne(sp, ptes, p);
    AreaUnique(sp, k, p);
    HideKeepsOk(sp, s, jump);
    assert s.targets - Hide(sp, s, jump).targets == {p};
  }

  /** How many of `n` iterations find at least four active threads before one does not. */
  function Awake(active: nat -> nat, n: nat): (r: nat)
    ensures r <= n
  {
    if n == 0 then 0
    else if Awake(active, n - 1) == n - 1 && active(n - 1) >= 4 then n
    else Awake(active, n - 1)
  }

  lemma {:induction false} AwakeStops(active: nat -> nat, i: nat, n: nat)
    requires i < n && Awake(active, i) == i && active(i) < 4
    ensures Awake(active, n) == i
  {
    if i + 1 < n {
      AwakeStops(active, i, n - 1);
    }
  }

  lemma {:induction false} AlwaysAwake(active: nat -> nat, n: nat)
    requires forall i | 0 <= i < n :: active(i) >= 4
    ensures Awake(active, n) == n
  {
    if n > 0 {
      AlwaysAwake(active, n - 1);
    }
  }

  // ------------------------------------------------------------------ the scanner

  class AddressSpace {
    const vmas: seq<Vma>
    const ptes: array<Pte>

    function View(sharedOnly: bool): Space {
      Space(vmas, sharedOnly, ptes.Length)
    }

    /** The present pages of all areas, or of the shared ones. */
    ghost function PresentPages(sharedOnly: bool): set<nat>
      reads ptes
    {
      set p: nat | p < ptes.Length && !ptes[p].none && ptes[p].present
                   && exists k: nat :: k < |vmas| && vmas[k].start <= p < vmas[k].end && (sharedOnly ==> vmas[k].shared)
    }

    lemma TargetsArePresent(sharedOnly: bool)
      ensures TargetsOf(sharedOnly) == PresentPages(sharedOnly)
    {
      forall p: nat
        ensures p in TargetsOf(sharedOnly) <==> p in PresentPages(sharedOnly)
      {
        TargetsMeaning(View(sharedOnly), ptes[..], p);
      }
    }

    ghost function TargetsOf(sharedOnly: bool): set<nat>
      reads ptes
    {
      Targets(View(sharedOnly), ptes[..])
    }
  }

  /** The scanner's record for one process, with the counter of provoked faults. */
  class Scanner {
    var vma: Option<nat>
    var nextAddr: nat
    var numWalks: Walks
    var pfExtra: nat

    constructor ()
      ensures Position() == FRESH && pfExtra == 0
    {
      vma, nextAddr, numWalks, pfExtra := None, 0, 0, 0;
    }

    /** A reset clears everything. */
    method Init()
      modifies this
      ensures Position() == FRESH && pfExtra == 0
    {
      vma, nextAddr, numWalks, pfExtra := None, 0, 0, 0;
    }

    function Position(): Cursor
      reads this
    {
      Cursor(vma, nextAddr, numWalks)
    }

    /** Hides a present page and remembers where. */
    method CallbackPageWalk(mm: AddressSpace, addr: nat) returns (hid: bool)
      requires addr < mm.ptes.Length
      modifies this`nextAddr, this`pfExtra, mm.ptes
      ensures hid == old(Present(mm.ptes[addr]))
      ensures !hid ==> mm.ptes[..] == old(mm.ptes[..]) && nextAddr == old(nextAddr) && pfExtra == old(pfExtra)
      ensures hid ==> nextAddr == addr && pfExtra == old(pfExtra) + 1
                      && mm.ptes[..] == old(mm.ptes[..])[addr := old(mm.ptes[addr]).(present := false)]
    {
      if mm.ptes[addr].none || !mm.ptes[addr].present {
        return false;
      }
      nextAddr := addr;
      mm.ptes[addr] := mm.ptes[addr].(present := false);
      pfExtra := pfExtra + 1;
      return true;
    }

    /** Calls back for each page until one is hidden. */
    method WalkPageRange(mm: AddressSpace, addr: nat, end: nat) returns (hid: bool)
      requires addr <= end <= mm.ptes.Length
      modifies this`nextAddr, this`pfExtra, mm.ptes
      ensures !hid ==> mm.ptes[..] == old(mm.ptes[..]) && nextAddr == old(nextAddr) && pfExtra == old(pfExtra)
      ensures !hid ==> forall p | addr <= p < end :: !old(Present(mm.ptes[p]))
      ensures hid ==> addr <= nextAddr < end && old(mm.ptes[..])[nextAddr].present && !old(mm.ptes[..])[nextAddr].none
      ensures hid ==> forall p | addr <= p < nextAddr :: !old(Present(mm.ptes[p]))
      ensures hid ==> pfExtra == old(pfExtra) + 1
                      && mm.ptes[..] == old(mm.ptes[..])[nextAddr := old(mm.ptes[..])[nextAddr].(present := false)]
    {
      for page := addr to end
        invariant mm.ptes[..] == old(mm.ptes[..]) && nextAddr == old(nextAddr) && pfExtra == old(pfExtra)
        invariant forall p | addr <= p < page :: !old(Present(mm.ptes[p]))
      {
        assert mm.ptes[page] == old(mm.ptes[..])[page];
        hid := CallbackPageWalk(mm, page);
        if hid {
          return;
        }
      }
      return false;
    }

    method FindNextVma(sp: Space, prev: Option<nat>) returns (r: Option<nat>)
      requires prev.Some? ==> prev.value < |sp.vmas|
      modifies this`numWalks
      ensures r == NextVma(sp, prev).vma && numWalks == WalksAfter(old(numWalks), NextVma(sp, prev).walks)
    {
      var tmp: Option<nat>, i: nat := prev, 0;
      while true
        invariant i <= 2 && numWalks == WalksAfter(old(numWalks), i)
        invariant tmp.Some? ==> tmp.value < |sp.vmas|
        invariant i == 0 && prev.None? ==> tmp.None?
        invariant i == 0 && prev.Some? ==> NoneEligible(sp, prev.value + 1, tmp)
        invariant i == 0 && prev.Some? && tmp.Some? ==> prev.value <= tmp.value
        invariant i > 0 && prev.Some? ==> NoneEligible(sp, prev.value + 1, None)
        invariant i == 1 ==> NoneEligible(sp, 0, tmp)
        invariant i == 2 ==> NoneEligible(sp, 0, None)
        decreases 3 - i, if tmp.Some? then |sp.vmas| - tmp.value else 0
      {
        if tmp.None? {
          i := i + 1;
          if i > 2 {
            return None;
          }
          numWalks := NextWalk(numWalks);
          tmp := if |sp.vmas| > 0 then Some(0) else None;
        } else {
          tmp := if tmp.value + 1 < |sp.vmas| then Some(tmp.value + 1) else None;
        }
        if tmp.Some? && Eligible(sp, tmp.value) {
          return tmp;
        }
      }
    }

    /** Moves the cursor to the start of the next eligible area. */
    method EnterNextVma(sp: Space) returns (ok: bool)
      requires vma.Some? ==> vma.value < |sp.vmas|
      modifies this`vma, this`nextAddr, this`numWalks
      ensures vma == NextVma(sp, old(vma)).vma && ok == vma.Some?
      ensures numWalks == WalksAfter(old(numWalks), NextVma(sp, old(vma)).walks)
      ensures ok ==> Position() == Entered(sp, NextVma(sp, old(vma)), old(numWalks))
      ensures !ok ==> nextAddr == old(nextAddr)
    {
      vma := FindNextVma(sp, vma);
      if vma.None? {
        return false;
      }
      nextAddr := sp.vmas[vma.value].start;
      return true;
    }

    /** Jumps on from a hidden page. */
    method Advance(sp: Space, jump: nat)
      requires vma.Some? && Eligible(sp, vma.value)
      modifies this`vma, this`nextAddr, this`numWalks
      ensures Position() == Moved(sp, old(vma.value), old(nextAddr), old(numWalks), jump)
    {
      nextAddr := nextAddr + jump;
      if nextAddr >= sp.vmas[vma.value].end {
        var ok := EnterNextVma(sp);
        assert ok;
      }
    }

    /** Jumps on from a page that was found at or after `addr` and hidden. */
    method MoveOn(mm: AddressSpace, sharedOnly: bool, jump: nat, ghost s: Scan, ghost wraps: nat,
                  ghost ptes: seq<Pte>, ghost addr: nat, ghost extra: nat)
      requires ScanOk(mm.View(sharedOnly), s) && s.targets == Targets(mm.View(sharedOnly), ptes)
      requires Searching(mm.View(sharedOnly), s, wraps, addr) && !Spent(s.cursor.numWalks, wraps) && jump >= 1
      requires vma.Some? && Eligible(mm.View(sharedOnly), vma.value)
               && Inside(mm.View(sharedOnly), vma.value, nextAddr) && nextAddr < |ptes| == mm.ptes.Length
      requires addr <= nextAddr && Present(ptes[nextAddr]) && NoneBetween(s.targets, addr, nextAddr)
      requires numWalks == WalksAfter(s.cursor.numWalks, wraps)
      requires mm.ptes[..] == ptes[nextAddr := ptes[nextAddr].(present := false)] && pfExtra == extra + 1
      modifies this`vma, this`nextAddr, this`numWalks
      ensures HidOne(mm, sharedOnly, s, jump, ptes, extra) && CursorOk(mm.View(sharedOnly), Position())
    {
      FoundIsHidden(mm.View(sharedOnly), s, ptes, wraps, vma.value, addr, nextAddr, jump);
      Advance(mm.View(sharedOnly), jump);
    }

    /** Looks for a page in the rest of the current area, and moves on. */
    method TryArea(mm: AddressSpace, sharedOnly: bool, jump: nat, ghost s: Scan, ghost wraps: nat)
        returns (changed: bool, ghost passed: nat)
      requires ScanOk(mm.View(sharedOnly), s) && s.targets == mm.TargetsOf(sharedOnly)
      requires InSearch(mm.View(sharedOnly), s, wraps, Position()) && !Spent(s.cursor.numWalks, wraps) && jump >= 1
      modifies this, mm.ptes
      ensures changed ==> HidOne(mm, sharedOnly, s, jump, old(mm.ptes[..]), old(pfExtra))
      ensures !changed ==>
                Idle(mm, old(mm.ptes[..]), old(pfExtra)) && InSearch(mm.View(sharedOnly), s, passed, Position())
      ensures CursorOk(mm.View(sharedOnly), Position())
      ensures passed > wraps || (passed == wraps && (changed || vma.value > old(vma.value)))
      ensures passed <= 3
    {
      var sp := mm.View(sharedOnly);
      var k := vma.value;
      ghost var before, c := mm.ptes[..], Position();
      passed := wraps;
      changed := WalkPageRange(mm, nextAddr, sp.vmas[k].end);
      NoneInArea(sp, before, k, c.nextAddr, if changed then nextAddr else sp.vmas[k].end);
      if changed {
        MoveOn(mm, sharedOnly, jump, s, wraps, before, c.nextAddr, old(pfExtra));
      } else {
        passed := wraps + NextVma(sp, Some(k)).walks;
        MissedGoesOn(sp, s, wraps, c);
        var ok := EnterNextVma(sp);
      }
    }

    /** The state after hiding the page that `s` chooses. */
    ghost predicate HidOne(mm: AddressSpace, sharedOnly: bool, s: Scan, jump: nat, ptes: seq<Pte>, extra: nat)
      reads this, mm.ptes
    {
      var sp := mm.View(sharedOnly);
      && ScanOk(sp, s) && CanHide(sp, s)
      && Hide(sp, s, jump) == Scan(mm.TargetsOf(sharedOnly), Position())
      && mm.ptes[..] == Hiding(ptes, s.targets - mm.TargetsOf(sharedOnly)) && pfExtra == extra + 1
    }

    ghost predicate Idle(mm: AddressSpace, ptes: seq<Pte>, extra: nat)
      reads this, mm.ptes
    {
      mm.ptes[..] == ptes && pfExtra == extra
    }

    /** Searches area by area; `start` is the walk counter at the beginning. */
    method Search(mm: AddressSpace, sharedOnly: bool, start: nat, jump: nat, ghost s: Scan, ghost w: nat)
      returns (ok: bool)
      requires ScanOk(mm.View(sharedOnly), s) && s.targets == mm.TargetsOf(sharedOnly) && start == s.cursor.numWalks
      requires InSearch(mm.View(sharedOnly), s, w, Position()) && jump >= 1
      modifies this, mm.ptes
      ensures CursorOk(mm.View(sharedOnly), Position()) && ok == CanHide(mm.View(sharedOnly), s)
      ensures if ok then HidOne(mm, sharedOnly, s, jump, old(mm.ptes[..]), old(pfExtra))
              else Idle(mm, old(mm.ptes[..]), old(pfExtra))
      ensures !ok ==> Position() == GivenUp(mm.View(sharedOnly), s.cursor)
    {
      var sp := mm.View(sharedOnly);
      ghost var wraps, ptes, extra := w, mm.ptes[..], pfExtra;
      ok := false;
      while !ok
        invariant wraps <= 3 && CursorOk(sp, Position())
        invariant !ok ==> InSearch(sp, s, wraps, Position()) && Idle(mm, ptes, extra)
        invariant ok ==> HidOne(mm, sharedOnly, s, jump, ptes, extra)
        decreases !ok, 3 - wraps, if vma.Some? then |sp.vmas| - vma.value else 0
      {
        SearchInVain(sp, s, wraps, Position());
        if Minus(numWalks, start) > 2 {
          return false;
        }
        ok, wraps := TryArea(mm, sharedOnly, jump, s, wraps);
      }
    }

    /** One provoked fault. It fails, hiding nothing, exactly if too few threads are active or
        there is no page to hide or the walk counter overflows during the search. */
    method HideOne(mm: AddressSpace, sharedOnly: bool, active: nat, jump: nat) returns (ok: bool)
      requires ScanOk(mm.View(sharedOnly), Scan(mm.TargetsOf(sharedOnly), Position())) && jump >= 1
      modifies this, mm.ptes
      ensures CursorOk(mm.View(sharedOnly), Position())
      ensures ok == (active >= 4 && old(CanHide(mm.View(sharedOnly), Scan(mm.TargetsOf(sharedOnly), Position()))))
      ensures ok ==> HidOne(mm, sharedOnly, old(Scan(mm.TargetsOf(sharedOnly), Position())), jump, old(mm.ptes[..]),
                            old(pfExtra))
      ensures !ok ==> Idle(mm, old(mm.ptes[..]), old(pfExtra))
      ensures !ok ==>
                Position() == if active < 4 then old(Position()) else GivenUp(mm.View(sharedOnly), old(Position()))
    {
      var sp := mm.View(sharedOnly);
      var start := numWalks;
      ghost var s, wraps := Scan(mm.TargetsOf(sharedOnly), Position()), 0;
      if active < 4 {
        return false;
      }
      if vma.None? {
        StartsFromHead(sp, s);
        ok := EnterNextVma(sp);
        if !ok {
          return false;
        }
        wraps := 1;
      }
      ok := Search(mm, sharedOnly, start, jump, s, wraps);
    }

    /** The process looks as if the scan had gone from `s` to `t`. */
    ghost predicate Hidden(mm: AddressSpace, sharedOnly: bool, s: Scan, t: set<nat>, ptes: seq<Pte>, extra: nat)
      reads this, mm.ptes
    {
      && t <= s.targets && mm.TargetsOf(sharedOnly) == t
      && mm.ptes[..] == Hiding(ptes, s.targets - t) && pfExtra == extra + |s.targets - t|
    }

    /** Hides one more page after the targets have shrunk to `t`. */
    method HideAnother(mm: AddressSpace, sharedOnly: bool, active: nat, jump: nat,
                       ghost s: Scan, ghost t: Scan, ghost ptes: seq<Pte>, ghost extra: nat)
      returns (ok: bool, ghost u: Scan)
      requires t.cursor == Position() && Hidden(mm, sharedOnly, s, t.targets, ptes, extra)
      requires ScanOk(mm.View(sharedOnly), t) && jump >= 1
      modifies this, mm.ptes
      ensures CursorOk(mm.View(sharedOnly), Position()) && ok == (active >= 4 && CanHide(mm.View(sharedOnly), t))
      ensures ok ==> u == Hide(mm.View(sharedOnly), t, jump)
      ensures !ok ==> u == Refused(mm.View(sharedOnly), t, active)
      ensures u.cursor == Position() && Hidden(mm, sharedOnly, s, u.targets, ptes, extra)
    {
      ok := HideOne(mm, sharedOnly, active, jump);
      if ok {
        HidMore(mm.View(sharedOnly), s, t, jump, ptes);
        u := Hide(mm.View(sharedOnly), t, jump);
      } else {
        u := Refused(mm.View(sharedOnly), t, active);
      }
    }

    /** The `i`th iteration of a call that began in `s`. */
    method Iterate(mm: AddressSpace, sharedOnly: bool, numFaults: int, active: nat -> nat, cycles: nat -> nat, i: nat,
                   ghost s: Scan, ghost t: Scan, ghost ptes: seq<Pte>, ghost extra: nat)
      returns (ok: bool, ghost u: Scan)
      requires t.cursor == Position() && Hidden(mm, sharedOnly, s, t.targets, ptes, extra)
      requires HasHidden(mm.View(sharedOnly), s, cycles, active, i, t) && i < numFaults
      modifies this, mm.ptes
      ensures CursorOk(mm.View(sharedOnly), Position())
      ensures ok ==> HasHidden(mm.View(sharedOnly), s, cycles, active, i + 1, u)
      ensures !ok ==> Ends(mm.View(sharedOnly), s, cycles, active, numFaults, u)
      ensures u.cursor == Position() && Hidden(mm, sharedOnly, s, u.targets, ptes, extra)
    {
      Progress(mm.View(sharedOnly), s, cycles, active, i, t, numFaults);
      ok, u := HideAnother(mm, sharedOnly, active(i), Jump(cycles, i), s, t, ptes, extra);
    }

    /** Provokes up to `numFaults` faults; `active` and `cycles` are what the environment answers. The scan begins in
        `s`, with `ptes` as page table and `extra` faults counted. */
    method ProvokeFaults(mm: AddressSpace, sharedOnly: bool, numFaults: int, active: nat -> nat, cycles: nat -> nat,
                         ghost s: Scan, ghost ptes: seq<Pte>, ghost extra: nat)
      returns (ghost t: Scan)
      requires ScanOk(mm.View(sharedOnly), s) && s == Scan(mm.TargetsOf(sharedOnly), Position())
      requires ptes == mm.ptes[..] && extra == pfExtra
      modifies this, mm.ptes
      ensures CursorOk(mm.View(sharedOnly), Position())
      ensures Ends(mm.View(sharedOnly), s, cycles, active, numFaults, t)
      ensures t.cursor == Position() && Hidden(mm, sharedOnly, s, t.targets, ptes, extra)
    {
      HidingNone(s.targets, ptes);
      t := s;
      var i := 0;
      while i < numFaults
        invariant 0 <= i <= Requested(numFaults)
        invariant HasHidden(mm.View(sharedOnly), s, cycles, active, i, t)
        invariant t.cursor == Position() && Hidden(mm, sharedOnly, s, t.targets, ptes, extra)
      {
        var ok;
        ok, t := Iterate(mm, sharedOnly, numFaults, active, cycles, i, s, t, ptes, extra);
        if !ok {
          return;
        }
        i := i + 1;
      }
      Completed(mm.View(sharedOnly), s, cycles, active, i, t, numFaults);
    }

    /** What a call that went from `s` to `t` does to the page table. */
    lemma CallSeen(mm: AddressSpace, sharedOnly: bool, numFaults: int, active: nat -> nat, cycles: nat -> nat,
                   s: Scan, t: Scan, ptes: seq<Pte>)
      requires Ends(mm.View(sharedOnly), s, cycles, active, numFaults, t) && |ptes| == mm.ptes.Length
      requires s.targets == Targets(mm.View(sharedOnly), ptes) && mm.ptes[..] == Hiding(ptes, s.targets - t.targets)
      ensures forall p | 0 <= p < mm.ptes.Length && mm.ptes[p] != ptes[p] ::
                && !ptes[p].none && ptes[p].present && mm.ptes[p] == ptes[p].(present := false)
                && exists k: nat :: k < |mm.vmas| && mm.vmas[k].start <= p < mm.vmas[k].end
                                    && (sharedOnly ==> mm.vmas[k].shared)
      ensures sharedOnly ==>
                forall k: nat, p: nat | k < |mm.vmas| && mm.vmas[k].start <= p < mm.vmas[k].end && !mm.vmas[k].shared ::
                  mm.ptes[p] == ptes[p]
      ensures Unhindered(s, active, numFaults) ==>
                |s.targets - t.targets| == Min(Requested(numFaults), |s.targets|)
      ensures Unhindered(s, active, numFaults) && numFaults >= |s.targets| ==>
                forall k: nat, p: nat | k < |mm.vmas| && mm.vmas[k].start <= p < mm.vmas[k].end
                                        && (sharedOnly ==> mm.vmas[k].shared) ::
                  mm.ptes[p].none || !mm.ptes[p].present
    {
      var sp, hidden := mm.View(sharedOnly), s.targets - t.targets;
      forall p | 0 <= p < mm.ptes.Length && mm.ptes[p] != ptes[p]
        ensures !ptes[p].none && ptes[p].present && mm.ptes[p] == ptes[p].(present := false)
        ensures exists k: nat :: k < |mm.vmas| && mm.vmas[k].start <= p < mm.vmas[k].end
                                 && (sharedOnly ==> mm.vmas[k].shared)
      {
        assert mm.ptes[p] == mm.ptes[..][p];
        ChangedPage(sp, ptes, hidden, p);
      }
      forall k: nat, p: nat | k < |mm.vmas| && mm.vmas[k].start <= p < mm.vmas[k].end && !mm.vmas[k].shared
        && sharedOnly
        ensures mm.ptes[p] == ptes[p]
      {
        assert mm.ptes[p] == mm.ptes[..][p];
        PrivatePage(sp, ptes, hidden, k, p);
      }
      if Unhindered(s, active, numFaults) {
        AllAsked(sp, s, cycles, active, numFaults);
      }
      if Unhindered(s, active, numFaults) && numFaults >= |s.targets| {
        forall k: nat, p: nat | k < |mm.vmas| && mm.vmas[k].start <= p < mm.vmas[k].end
                                && (sharedOnly ==> mm.vmas[k].shared)
          ensures mm.ptes[p].none || !mm.ptes[p].present
        {
          assert mm.ptes[p] == mm.ptes[..][p];
          NoneLeft(sp, ptes, s, cycles, active, numFaults, k, p);
        }
      }
    }

    /** A whole call for a process that has memory. */
    method WalkPages(mm: AddressSpace, sharedOnly: bool, numFaults: int, active: nat -> nat, cycles: nat -> nat,
                     ghost s: Scan, ghost ptes: seq<Pte>, ghost pages: set<nat>)
      returns (ghost t: Scan)
      requires ScanOk(mm.View(sharedOnly), s) && s == Scan(mm.TargetsOf(sharedOnly), Position()) && ptes == mm.ptes[..]
      requires pages == mm.PresentPages(sharedOnly)
      modifies this, mm.ptes
      ensures t == CallEnd(mm.View(sharedOnly), s, cycles, active, numFaults)
      ensures Position() == t.cursor && CursorOk(mm.View(sharedOnly), Position())
      ensures Hidden(mm, sharedOnly, s, t.targets, ptes, old(pfExtra))
      ensures numWalks <= old(numWalks) + Min(Requested(numFaults), LONGEST) + 4
      ensures forall p | 0 <= p < mm.ptes.Length && mm.ptes[p] != ptes[p] ::
                && !ptes[p].none && ptes[p].present && mm.ptes[p] == ptes[p].(present := false)
                && exists k: nat :: k < |mm.vmas| && mm.vmas[k].start <= p < mm.vmas[k].end
                                    && (sharedOnly ==> mm.vmas[k].shared)
      ensures sharedOnly ==>
                forall k: nat, p: nat | k < |mm.vmas| && mm.vmas[k].start <= p < mm.vmas[k].end && !mm.vmas[k].shared ::
                  mm.ptes[p] == ptes[p]
      ensures Unhindered(s, active, numFaults) ==>
                pfExtra == old(pfExtra) + Min(Requested(numFaults), |pages|)
      ensures Unhindered(s, active, numFaults) && numFaults >= |pages| ==>
                forall k: nat, p: nat | k < |mm.vmas| && mm.vmas[k].start <= p < mm.vmas[k].end
                                        && (sharedOnly ==> mm.vmas[k].shared) ::
                  mm.ptes[p].none || !mm.ptes[p].present
    {
      mm.TargetsArePresent(sharedOnly);
      t := ProvokeFaults(mm, sharedOnly, numFaults, active, cycles, s, ptes, pfExtra);
      CallWalks(mm.View(sharedOnly), s, cycles, active, numFaults);
      CallSeen(mm, sharedOnly, numFaults, active, cycles, s, t, ptes);
    }

    /** A whole call for a process that may have no memory any more. It only hides present pages of areas that the flag
        admits. With enough active threads and room for the counter it hides as many as are asked for and present. */
    method PfPagewalk(mm: AddressSpace?, sharedOnly: bool, numFaults: int, active: nat -> nat, cycles: nat -> nat)
      requires mm != null ==> ScanOk(mm.View(sharedOnly), Scan(mm.TargetsOf(sharedOnly), Position()))
      modifies this, if mm == null then {} else {mm.ptes}
      ensures mm == null ==> unchanged(this)
      ensures mm != null ==>
                var sp, s := mm.View(sharedOnly), old(Scan(mm.TargetsOf(sharedOnly), Position()));
                var t := CallEnd(sp, s, cycles, active, numFaults);
                && Position() == t.cursor && CursorOk(sp, Position())
                && Hidden(mm, sharedOnly, s, t.targets, old(mm.ptes[..]), old(pfExtra))
                && numWalks <= old(numWalks) + Min(Requested(numFaults), LONGEST) + 4
      ensures mm != null ==>
                forall p | 0 <= p < mm.ptes.Length && mm.ptes[p] != old(mm.ptes[p]) ::
                  && !old(mm.ptes[p]).none && old(mm.ptes[p]).present
                  && mm.ptes[p] == old(mm.ptes[p]).(present := false)
                  && exists k: nat :: k < |mm.vmas| && mm.vmas[k].start <= p < mm.vmas[k].end
                                      && (sharedOnly ==> mm.vmas[k].shared)
      ensures mm != null && sharedOnly ==>
                forall k: nat, p: nat | k < |mm.vmas| && mm.vmas[k].start <= p < mm.vmas[k].end && !mm.vmas[k].shared ::
                  mm.ptes[p] == old(mm.ptes[p])
      ensures mm != null && (forall i: nat | i < numFaults :: active(i) >= 4)
              && old(numWalks) + Min(Requested(numFaults), 61) <= MAX_WALKS ==>
                && pfExtra == old(pfExtra) + Min(Requested(numFaults), |old(mm.PresentPages(sharedOnly))|)
                && (numFaults >= |old(mm.PresentPages(sharedOnly))| ==>
                      forall k: nat, p: nat | k < |mm.vmas| && mm.vmas[k].start <= p < mm.vmas[k].end
                                              && (sharedOnly ==> mm.vmas[k].shared) ::
                        mm.ptes[p].none || !mm.ptes[p].present)
    {
      if mm != null {
        ghost var s := Scan(mm.TargetsOf(sharedOnly), Position());
        ghost var t := WalkPages(mm, sharedOnly, numFaults, active, cycles, s, mm.ptes[..],
                                 mm.PresentPages(sharedOnly));
      }
    }
  }

  /** The scan after a failed iteration. */
  function Refused(sp: Space, t: Scan, active: nat): Scan {
    if active < 4 then t else t.(cursor := GivenUp(sp, t.cursor))
  }

  /** The scan after a whole call: if fewer pages were hidden than there were iterations with enough
      active threads, the last of those failed. */
  ghost function CallEnd(sp: Space, s: Scan, cycles: nat -> nat, active: nat -> nat, numFaults: int): Scan
    requires ScanOk(sp, s)
  {
    var n := Awake(active, Requested(numFaults));
    var t := HideMany(sp, s, cycles, n);
    if |s.targets - t.targets| < n then t.(cursor := GivenUp(sp, t.cursor)) else t
  }

  ghost predicate Ends(sp: Space, s: Scan, cycles: nat -> nat, active: nat -> nat, numFaults: int, t: Scan) {
    ScanOk(sp, s) && t == CallEnd(sp, s, cycles, active, numFaults)
  }

  /** After `i` successful iterations the scan has reached `t`. */
  ghost predicate HasHidden(sp: Space, s: Scan, cycles: nat -> nat, active: nat -> nat, i: nat, t: Scan) {
    && ScanOk(sp, s) && ScanOk(sp, t) && t == HideMany(sp, s, cycles, i) && Awake(active, i) == i
    && |s.targets - t.targets| == i
  }

  lemma Completed(sp: Space, s: Scan, cycles: nat -> nat, active: nat -> nat, i: nat, t: Scan, numFaults: int)
    requires HasHidden(sp, s, cycles, active, i, t) && i == Requested(numFaults)
    ensures Ends(sp, s, cycles, active, numFaults, t)
  {
  }

  lemma Progress(sp: Space, s: Scan, cycles: nat -> nat, active: nat -> nat, i: nat, t: Scan, numFaults: int)
    requires HasHidden(sp, s, cycles, active, i, t) && i < numFaults
    ensures if active(i) >= 4 && CanHide(sp, t)
            then HasHidden(sp, s, cycles, active, i + 1, Hide(sp, t, Jump(cycles, i)))
            else Ends(sp, s, cycles, active, numFaults, Refused(sp, t, active(i)))
  {
    if active(i) < 4 || !CanHide(sp, t) {
      Ended(sp, s, active, cycles, i, numFaults);
    } else {
      HidesOnlyTargets(sp, s, cycles, i);
      HidMore(sp, s, t, Jump(cycles, i), []);
      HideKeepsOk(sp, t, Jump(cycles, i));
    }
  }

  /** The counter moves little in a call, whether it fails or not. */
  lemma CallWalks(sp: Space, s: Scan, cycles: nat -> nat, active: nat -> nat, numFaults: int)
    requires ScanOk(sp, s)
    ensures CallEnd(sp, s, cycles, active, numFaults).cursor.numWalks
            <= s.cursor.numWalks + Min(Requested(numFaults), LONGEST) + 4
  {
    var n := Awake(active, Requested(numFaults));
    WalksBound(sp, s, cycles, n);
    GivenUpOk(sp, HideMany(sp, s, cycles, n).cursor);
  }

  function Requested(numFaults: int): nat {
    if numFaults < 0 then 0 else numFaults
  }

  lemma HidingNone(t: set<nat>, ptes: seq<Pte>)
    ensures Hiding(ptes, t - t) == ptes && |t - t| == 0
  {
  }

  lemma HidMore(sp: Space, s: Scan, t: Scan, jump: nat, ptes: seq<Pte>)
    requires ScanOk(sp, t) && CanHide(sp, t) && t.targets <= s.targets
    ensures var u := Hide(sp, t, jump);
            && Hiding(Hiding(ptes, s.targets - t.targets), t.targets - u.targets) == Hiding(ptes, s.targets - u.targets)
            && |s.targets - u.targets| == |s.targets - t.targets| + 1
  {
    var u := Hide(sp, t, jump);
    HasChoice(sp, t);
    HidingMore(ptes, s.targets - t.targets, t.targets - u.targets);
    assert s.targets - u.targets == (s.targets - t.targets) + (t.targets - u.targets);
    assert s.targets - u.targets == (s.targets - t.targets) + {Choice(sp, t).value};
  }

  /** A whole call with enough active threads hides min(`numFaults`, targets) distinct pages, exactly
      if no search overflows the walk counter; and none does as long as the counter is at least as far
      from its maximum as there are pages to hide, or 61 away. */
  lemma CallHides(sp: Space, s: Scan, cycles: nat -> nat, active: nat -> nat, numFaults: int)
    requires ScanOk(sp, s) && forall i: nat | i < Requested(numFaults) :: active(i) >= 4
    ensures var asked := Min(Requested(numFaults), |s.targets|);
            var hidden := s.targets - CallEnd(sp, s, cycles, active, numFaults).targets;
            && (|hidden| == asked <==> !GetsStuck(sp, s, cycles, asked))
            && (s.cursor.numWalks + Min(asked, LONGEST) <= MAX_WALKS ==> |hidden| == asked)
  {
    var n := Requested(numFaults);
    CallHidesMany(sp, s, cycles, active, numFaults);
    HidesExactly(sp, s, cycles, n);
    if s.cursor.numWalks + Min(Min(n, |s.targets|), LONGEST) <= MAX_WALKS {
      FarFromOverflow(sp, s, cycles, n);
    }
  }

  /** A page that a call changes was present, is only hidden, and lies in an area that the flag admits. */
  lemma ChangedPage(sp: Space, ptes: seq<Pte>, hidden: set<nat>, p: nat)
    requires hidden <= Targets(sp, ptes) && p < |ptes|
    ensures Hiding(ptes, hidden)[p] == ptes[p]
            || (!ptes[p].none && ptes[p].present && Hiding(ptes, hidden)[p] == ptes[p].(present := false)
                && exists k: nat :: k < |sp.vmas| && sp.vmas[k].start <= p < sp.vmas[k].end
                                    && (sp.sharedOnly ==> sp.vmas[k].shared))
  {
    TargetsMeaning(sp, ptes, p);
  }

  /** While only shared areas are eligible, the pages of private ones are left alone. */
  lemma PrivatePage(sp: Space, ptes: seq<Pte>, hidden: set<nat>, k: nat, p: nat)
    requires SpaceOk(sp) && hidden <= Targets(sp, ptes) && |ptes| == sp.limit
    requires k < |sp.vmas| && sp.vmas[k].start <= p < sp.vmas[k].end && sp.sharedOnly && !sp.vmas[k].shared
    ensures Hiding(ptes, hidden)[p] == ptes[p]
  {
    TargetsMeaning(sp, ptes, p);
  }

  /** With enough active threads, enough faults to provoke and no overflow, no page of the areas that the flag admits
      is left present. */
  lemma NoneLeft(sp: Space, ptes: seq<Pte>, s: Scan, cycles: nat -> nat, active: nat -> nat, numFaults: int, k: nat,
                 p: nat)
    requires ScanOk(sp, s) && s.targets == Targets(sp, ptes) && |ptes| == sp.limit
    requires Unhindered(s, active, numFaults) && numFaults >= |s.targets|
    requires k < |sp.vmas| && sp.vmas[k].start <= p < sp.vmas[k].end && (sp.sharedOnly ==> sp.vmas[k].shared)
    ensures var after := Hiding(ptes, s.targets - CallEnd(sp, s, cycles, active, numFaults).targets);
            after[p].none || !after[p].present
  {
    AllHidden(sp, s, cycles, active, numFaults);
    TargetsMeaning(sp, ptes, p);
  }

  lemma AllAsked(sp: Space, s: Scan, cycles: nat -> nat, active: nat -> nat, numFaults: int)
    requires ScanOk(sp, s) && Unhindered(s, active, numFaults)
    ensures |s.targets - CallEnd(sp, s, cycles, active, numFaults).targets| == Min(Requested(numFaults), |s.targets|)
  {
    CallHides(sp, s, cycles, active, numFaults);
  }

  lemma AllHidden(sp: Space, s: Scan, cycles: nat -> nat, active: nat -> nat, numFaults: int)
    requires ScanOk(sp, s) && Unhindered(s, active, numFaults) && numFaults >= |s.targets|
    ensures CallEnd(sp, s, cycles, active, numFaults).targets == {}
  {
    AllAsked(sp, s, cycles, active, numFaults);
    CallHidesMany(sp, s, cycles, active, numFaults);
    HidesOnlyTargets(sp, s, cycles, Requested(numFaults));
  }

  /** Every iteration finds enough active threads, and the counter has room for the passes of the call. */
  ghost predicate Unhindered(s: Scan, active: nat -> nat, numFaults: int) {
    && (forall i: nat | i < numFaults :: active(i) >= 4)
    && s.cursor.numWalks + Min(Requested(numFaults), 61) <= MAX_WALKS
  }

  lemma CallHidesMany(sp: Space, s: Scan, cycles: nat -> nat, active: nat -> nat, numFaults: int)
    requires ScanOk(sp, s) && forall i: nat | i < Requested(numFaults) :: active(i) >= 4
    ensures var left := HideMany(sp, s, cycles, Requested(numFaults)).targets;
            && CallEnd(sp, s, cycles, active, numFaults).targets == left
            && |s.targets - left| == |s.targets| - |left|
  {
    AlwaysAwake(active, Requested(numFaults));
    HidesOnlyTargets(sp, s, cycles, Requested(numFaults));
    Removed(s.targets, HideMany(sp, s, cycles, Requested(numFaults)).targets);
  }

  lemma Removed(a: set<nat>, b: set<nat>)
    requires b <= a
    ensures |a - b| == |a| - |b|
  {
    assert a == (a - b) + b;
  }

  /** Once an iteration fails the call hides nothing more. */
  lemma Ended(sp: Space, s: Scan, active: nat -> nat, cycles: nat -> nat, i: nat, n: nat)
    requires ScanOk(sp, s) && i < n && Awake(active, i) == i
    requires active(i) < 4 || !CanHide(sp, HideMany(sp, s, cycles, i))
    ensures HideMany(sp, s, cycles, Awake(active, n)) == HideMany(sp, s, cycles, i)
    ensures if active(i) < 4 then Awake(active, n) == i else Awake(active, n) > i
  {
    if active(i) < 4 {
      AwakeStops(active, i, n);
    } else {
      EndedStuck(sp, s, active, cycles, i, n);
    }
  }

  lemma EndedStuck(sp: Space, s: Scan, active: nat -> nat, cycles: nat -> nat, i: nat, n: nat)
    requires ScanOk(sp, s) && i < n && Awake(active, i) == i && active(i) >= 4
    requires !CanHide(sp, HideMany(sp, s, cycles, i))
    ensures Awake(active, n) > i && HideMany(sp, s, cycles, Awake(active, n)) == HideMany(sp, s, cycles, i)
  {
    AwakeGrows(active, i + 1, n);
    StaysStuck(sp, s, cycles, i, Awake(active, n));
  }

  lemma {:induction false} AwakeGrows(active: nat -> nat, i: nat, n: nat)
    requires i <= n
    ensures Awake(active, i) <= Awake(active, n)
  {
    if i < n {
      AwakeGrows(active, i, n - 1);
    }
  }

  lemma NoneInArea(sp: Space, ptes: seq<Pte>, k: nat, addr: nat, end: nat)
    requires SpaceOk(sp) && |ptes| == sp.limit && Eligible(sp, k) && Inside(sp, k, addr)
             && addr <= end <= sp.vmas[k].end
    requires forall p | addr <= p < end :: !Present(ptes[p])
    ensures NoneBetween(Targets(sp, ptes), addr, end)
  {
  }

  /** No eligible area from `from` up to `last`, or up to the end of the list. */
  ghost predicate NoneEligible(sp: Space, from: nat, last: Option<nat>) {
    forall k: nat | from <= k && (last.Some? ==> k <= last.value) :: !Eligible(sp, k)
  }
}
