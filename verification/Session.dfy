/** Detection sessions: how the handlers for process accounting, forks and page faults drive
    the pid table and the sharing detector. Each handler is one atomic step. */
module Sessions {
  import opened Arithmetic
  import opened Affinity
  import opened Matrices
  import opened Windows
  import opened Detectors
  import opened Pids

  const PAGE_SHIFT: nat := 12
  const PAGE_SIZE: nat := 4096

  /** The module's parameters: log2 of the thread limit, the page granularity, the two hashes. */
  datatype Config = Config(bits: nat, shift: nat, pidHash: PidHash, pageHash: Hash)

  ghost predicate ConfigOk(c: Config) {
    c.bits <= 14 && c.shift <= PAGE_SHIFT && forall p :: c.pidHash(p) < PID_HASH_SIZE
  }

  datatype Event =
    | Process(pid: int, named: bool, exiting: bool)
    | Thread(pid: int, named: bool)
    | Fault(pid: int, frame: nat, offset: nat)

  /** `all` is every access counted since the matrix was last zeroed and `pids` who made it;
      `run` is the part of it since the page table was last cleared, and `base` what the
      matrix already held then. */
  datatype State = State(
    table: Table,
    all: Run,
    pids: seq<int>,
    run: Run,
    base: Weights,
    hasMatrix: bool,
    pageFaults: nat,
    sharedOnly: bool)

  function Initial(): State {
    State(Untouched, [], [], [], NoWeights(), false, 0, true)
  }

  function Page(c: Config, frame: nat, offset: nat): nat {
    ShiftRight(Address(frame, offset), c.shift)
  }

  function Address(frame: nat, offset: nat): nat {
    frame * PAGE_SIZE + offset % PAGE_SIZE
  }

  function Reset(c: Config, s: State): State {
    s.(run := [], base := Counts(s.base, s.run, c.pageHash), pageFaults := 0, sharedOnly := true)
  }

  function Started(s: State): State {
    s.(table := CLEARED, all := [], pids := [], base := NoWeights(), hasMatrix := true)
  }

  function AddedTo(c: Config, s: State, pid: int): State {
    s.(table := Added(s.table, c.pidHash, Pow2(c.bits), pid))
  }

  function Exit(c: Config, s: State, pid: int): State {
    var t := s.(table := Deleted(s.table, c.pidHash, pid));
    if ActiveThreads(t.table) == 0 then Reset(c, t) else t
  }

  function ProcessStep(c: Config, s: State, pid: int, named: bool, exiting: bool): State {
    var tid := Tid(s.table, c.pidHash, pid);
    if tid > -1 && exiting then Exit(c, s, pid)
    else if named && tid == -1 && !exiting then
      AddedTo(c, if ActiveThreads(s.table) == 0 then Started(s) else s, pid)
    else s
  }

  function ThreadStep(c: Config, s: State, pid: int, named: bool): State {
    if named && pid > 0 then AddedTo(c, s, pid).(sharedOnly := false) else s
  }

  function FaultStep(c: Config, s: State, pid: int, frame: nat, offset: nat): State {
    var tid := Tid(s.table, c.pidHash, pid);
    if tid < 0 then s
    else
      if frame == 0 then Faulted(s)
      else Counting(Faulted(s), pid, Access(tid, Page(c, frame, offset)))
  }

  function Faulted(s: State): State {
    s.(pageFaults := s.pageFaults + 1)
  }

  function Counting(s: State, pid: int, r: Access): State {
    s.(all := s.all + [r], pids := s.pids + [pid], run := s.run + [r])
  }

  function Step(c: Config, s: State, ev: Event): State {
    match ev
    case Process(pid, named, exiting) => ProcessStep(c, s, pid, named, exiting)
    case Thread(pid, named) => ThreadStep(c, s, pid, named)
    case Fault(pid, frame, offset) => FaultStep(c, s, pid, frame, offset)
  }

  function StateAfter(c: Config, evs: seq<Event>): State {
    if evs == [] then Initial() else Step(c, StateAfter(c, evs[..|evs| - 1]), evs[|evs| - 1])
  }

  /** Process and fault events come from existing tasks; a failed fork is a thread event with a negative pid. */
  predicate Real(ev: Event) {
    ev.Thread? || ev.pid > 0
  }

  ghost predicate AllReal(evs: seq<Event>) {
    forall i | 0 <= i < |evs| :: Real(evs[i])
  }

  lemma OneMore(c: Config, evs: seq<Event>, ev: Event)
    requires AllReal(evs) && Real(ev)
    ensures AllReal(evs + [ev]) && StateAfter(c, evs + [ev]) == Step(c, StateAfter(c, evs), ev)
  {
    assert (evs + [ev])[..|evs|] == evs;
  }

  // ------------------------------------------------------------------- safety

  /** What a matrix cell stands for. */
  function Communication(c: Config, s: State, a: nat, b: nat): nat {
    CountOf(s.base, s.run, c.pageHash, a, b)
  }

  /** An access by a thread id that was issued to the process that made it. */
  ghost predicate Attributed(t: Table, r: Access, pid: int) {
    r.page != 0 && r.tid < NumThreads(t) && t.issued[r.tid] == pid
  }

  ghost predicate AllAttributed(t: Table, all: Run, pids: seq<int>) {
    |pids| == |all| && forall i | 0 <= i < |all| :: Attributed(t, all[i], pids[i])
  }

  /** The matrix never shows more than unbounded histories of the whole session would have counted. */
  ghost predicate Undercounts(c: Config, s: State) {
    forall a: nat, b: nat :: Communication(c, s, a, b) <= IdealCount(s.all, a, b)
  }

  ghost predicate Zero(w: Weights) {
    forall a: nat, b: nat :: w(a, b) == 0
  }

  ghost predicate EndsWith(all: Run, run: Run) {
    |run| <= |all| && run == all[|all| - |run|..]
  }

  /** Whatever is tracked has a matrix, and what was counted is right. */
  ghost predicate Sound(c: Config, s: State) {
    && Consistent(s.table, c.pidHash, Pow2(c.bits))
    && (s.table.Table? ==> s.hasMatrix)
    && AllAttributed(s.table, s.all, s.pids) && EndsWith(s.all, s.run)
    && Undercounts(c, s) && (s.run == s.all ==> Zero(s.base))
  }

  ghost predicate Safe(c: Config, s: State) {
    Sound(c, s) && (ActiveThreads(s.table) == 0 ==> s.run == [])
  }

  lemma PageNotZero(c: Config, frame: nat, offset: nat)
    requires c.shift <= PAGE_SHIFT && frame > 0
    ensures Page(c, frame, offset) != 0
  {
    Pow2Monotone(c.shift, PAGE_SHIFT);
    assert Pow2(PAGE_SHIFT) == PAGE_SIZE;
    ShiftKeepsHighBits(Address(frame, offset), c.shift, 1);
  }

  lemma PagePower()
    ensures Pow2(PAGE_SHIFT) == PAGE_SIZE == 0x1000
  {
  }

  /** Which part of its frame an offset lies in. */
  function Part(c: Config, offset: nat): int {
    offset % 0x1000 / Pow2(c.shift)
  }

  /** A page is a part of a frame: the frame number, followed by the high bits of the offset. */
  lemma PageOfFrame(c: Config, frame: nat, offset: nat)
    requires c.shift <= PAGE_SHIFT
    ensures Page(c, frame, offset) == (frame * 0x1000 + offset % 0x1000) / Pow2(c.shift)
    ensures Page(c, frame, offset) == Pow2(PAGE_SHIFT - c.shift) * frame + Part(c, offset)
    ensures 0 <= Part(c, offset) < Pow2(PAGE_SHIFT - c.shift)
  {
    ShiftIsQuotient(Address(frame, offset), c.shift);
    Pow2Adds(PAGE_SHIFT - c.shift, c.shift);
    PagePower();
    QuotientOfParts(frame, offset % 0x1000, 0x1000, Pow2(c.shift), Pow2(PAGE_SHIFT - c.shift));
  }

  /** Two accesses are to one page exactly if they are to one part of one frame. */
  lemma OnePage(c: Config, f: nat, x: nat, g: nat, y: nat)
    requires c.shift <= PAGE_SHIFT
    ensures Page(c, f, x) == Page(c, g, y) <==> f == g && Part(c, x) == Part(c, y)
  {
    PageOfFrame(c, f, x);
    PageOfFrame(c, g, y);
    SameParts(Pow2(PAGE_SHIFT - c.shift), f, Part(c, x), g, Part(c, y), Page(c, f, x), Page(c, g, y));
  }

  lemma SameParts(parts: nat, f: nat, i: nat, g: nat, j: nat, p: nat, q: nat)
    requires i < parts && j < parts && p == parts * f + i && q == parts * g + j
    ensures p == q <==> f == g && i == j
  {
    if p == q {
      DigitsUnique(f, i, g, j, parts);
    }
  }

  /** With the default granularity a page is a frame. */
  lemma PageIsFrame(c: Config, frame: nat, offset: nat)
    requires c.shift == PAGE_SHIFT
    ensures Page(c, frame, offset) == frame
  {
    PageOfFrame(c, frame, offset);
    assert Pow2(0) == 1;
  }

  lemma AddKeepsSafe(c: Config, s: State, pid: int)
    requires Safe(c, s) && pid > 0
    ensures Safe(c, AddedTo(c, s, pid))
  {
    AddedConsistent(s.table, c.pidHash, Pow2(c.bits), pid);
    var u := Added(s.table, c.pidHash, Pow2(c.bits), pid);
    forall i | 0 <= i < |s.all|
      ensures Attributed(u, s.all[i], s.pids[i])
    {
      assert Attributed(s.table, s.all[i], s.pids[i]);
    }
    assert ActiveThreads(u) >= ActiveThreads(s.table) by {
      if u != s.table {
        AddTracks(s.table, c.pidHash, Pow2(c.bits), pid, pid);
      }
    }
    assert forall a: nat, b: nat :: Communication(c, AddedTo(c, s, pid), a, b) == Communication(c, s, a, b);
  }

  lemma StartIsSafe(c: Config, s: State)
    requires Safe(c, s) && ActiveThreads(s.table) == 0
    ensures Safe(c, Started(s))
  {
    assert forall a: nat, b: nat :: Communication(c, Started(s), a, b) == 0;
  }

  lemma DeleteKeepsSound(c: Config, s: State, pid: int)
    requires Sound(c, s)
    ensures Sound(c, s.(table := Deleted(s.table, c.pidHash, pid)))
  {
    DeletedConsistent(s.table, c.pidHash, Pow2(c.bits), pid);
    var u := Deleted(s.table, c.pidHash, pid);
    forall i | 0 <= i < |s.all|
      ensures Attributed(u, s.all[i], s.pids[i])
    {
      assert Attributed(s.table, s.all[i], s.pids[i]);
    }
    SameCounts(c, s, s.(table := u));
  }

  lemma SameCounts(c: Config, s: State, t: State)
    requires Undercounts(c, s) && t.all == s.all
    requires forall a: nat, b: nat :: Communication(c, t, a, b) == Communication(c, s, a, b)
    ensures Undercounts(c, t)
  {
    forall a: nat, b: nat
      ensures Communication(c, t, a, b) <= IdealCount(t.all, a, b)
    {
      assert Communication(c, s, a, b) <= IdealCount(s.all, a, b);
    }
  }

  lemma ResetIsSafe(c: Config, s: State)
    requires Sound(c, s)
    ensures Safe(c, Reset(c, s))
  {
    assert s.all[|s.all|..] == [];
    SameCounts(c, s, Reset(c, s));
  }

  lemma ExitKeepsSafe(c: Config, s: State, pid: int)
    requires Safe(c, s)
    ensures Safe(c, Exit(c, s, pid))
  {
    DeleteKeepsSound(c, s, pid);
    var t := s.(table := Deleted(s.table, c.pidHash, pid));
    if ActiveThreads(t.table) == 0 {
      ResetIsSafe(c, t);
    }
  }

  /** The history of a page in the last part of a run is the end of its whole history. */
  lemma {:induction false} HistoryOfSuffix(all: Run, k: nat, page: nat) returns (i: nat)
    requires k <= |all|
    ensures i <= |History(all, page)| && History(all[k..], page) == History(all, page)[i..]
  {
    if k == |all| {
      i := |History(all, page)|;
    } else {
      var n := |all| - 1;
      assert all[k..][..|all[k..]| - 1] == all[..n][k..];
      i := HistoryOfSuffix(all[..n], k, page);
    }
  }

  lemma SeenInSession(all: Run, run: Run, hash: Hash, page: nat)
    requires Windows.Real(run) && page != 0 && EndsWith(all, run)
    ensures Seen(run, hash, page) <= Window(History(all, page))
  {
    var i := HistoryOfSuffix(all, |all| - |run|, page);
    SeenIsPrefix(run, hash, page);
    WindowSuffix(History(all, page), i);
  }

  lemma MeetsMore(tid: nat, v: seq<nat>, w: seq<nat>, a: nat, b: nat)
    requires v <= w && Meets(tid, v, a, b)
    ensures Meets(tid, w, a, b)
  {
    PrefixMember(v, w, if tid == a && b in v then b else a);
  }

  lemma CountingUndercounts(c: Config, s: State, pid: int, r: Access, a: nat, b: nat)
    requires Windows.Real(s.run) && r.page != 0 && EndsWith(s.all, s.run)
    requires Communication(c, s, a, b) <= IdealCount(s.all, a, b)
    ensures Communication(c, Counting(s, pid, r), a, b) <= IdealCount(s.all + [r], a, b)
  {
    assert (s.all + [r])[..|s.all|] == s.all && (s.run + [r])[..|s.run|] == s.run;
    SeenInSession(s.all, s.run, c.pageHash, r.page);
    var v, w := Seen(s.run, c.pageHash, r.page), Window(History(s.all, r.page));
    if Meets(r.tid, v, a, b) {
      MeetsMore(r.tid, v, w, a, b);
    }
  }

  lemma FaultKeepsSafe(c: Config, s: State, pid: int, frame: nat, offset: nat)
    requires ConfigOk(c) && Safe(c, s)
    ensures Safe(c, FaultStep(c, s, pid, frame, offset))
  {
    var tid := Tid(s.table, c.pidHash, pid);
    var t := FaultStep(c, s, pid, frame, offset);
    if tid >= 0 && frame > 0 {
      PageNotZero(c, frame, offset);
      var r := Access(tid, Page(c, frame, offset));
      LiveBijection(s.table, c.pidHash, Pow2(c.bits), pid, pid);
      TrackedIsActive(s.table, c.pidHash, pid);
      assert Attributed(s.table, r, pid);
      assert Windows.Real(s.run) by {
        forall i | 0 <= i < |s.run|
          ensures s.run[i].page != 0
        {
          assert Attributed(s.table, s.all[|s.all| - |s.run| + i], s.pids[|s.all| - |s.run| + i]);
        }
      }
      forall a: nat, b: nat
        ensures Communication(c, t, a, b) <= IdealCount(t.all, a, b)
      {
        CountingUndercounts(c, s, pid, r, a, b);
      }
      if t.run == t.all {
        assert s.run == t.run[..|s.run|];
      }
    } else {
      assert forall a: nat, b: nat :: Communication(c, t, a, b) == Communication(c, s, a, b);
    }
  }

  lemma TrackedIsActive(t: Table, hash: PidHash, pid: int)
    requires Tid(t, hash, pid) > -1
    ensures ActiveThreads(t) > 0
  {
    assert hash(pid) in t.slots.Keys;
  }

  lemma StepKeepsSafe(c: Config, s: State, ev: Event)
    requires ConfigOk(c) && Safe(c, s) && Real(ev)
    ensures Safe(c, Step(c, s, ev))
  {
    match ev {
      case Process(pid, named, exiting) =>
        var tid := Tid(s.table, c.pidHash, pid);
        if tid > -1 && exiting {
          ExitKeepsSafe(c, s, pid);
        } else if named && tid == -1 && !exiting {
          if ActiveThreads(s.table) == 0 {
            StartIsSafe(c, s);
            AddKeepsSafe(c, Started(s), pid);
          } else {
            AddKeepsSafe(c, s, pid);
          }
        }
      case Thread(pid, named) =>
        if named && pid > 0 {
          AddKeepsSafe(c, s, pid);
          var u := AddedTo(c, s, pid);
          assert forall a: nat, b: nat :: Communication(c, u.(sharedOnly := false), a, b) == Communication(c, u, a, b);
        }
      case Fault(pid, frame, offset) => FaultKeepsSafe(c, s, pid, frame, offset);
    }
  }

  /** Every interleaving of handler steps is safe. */
  lemma {:induction false} AlwaysSafe(c: Config, evs: seq<Event>)
    requires ConfigOk(c) && AllReal(evs)
    ensures Safe(c, StateAfter(c, evs))
  {
    if evs == [] {
      assert forall a: nat, b: nat :: Communication(c, Initial(), a, b) == 0;
    } else {
      AlwaysSafe(c, evs[..|evs| - 1]);
      StepKeepsSafe(c, StateAfter(c, evs[..|evs| - 1]), evs[|evs| - 1]);
    }
  }

  lemma SafeRun(c: Config, s: State)
    requires Safe(c, s)
    ensures Windows.Real(s.run) && forall i | 0 <= i < |s.run| :: s.run[i].tid < NumThreads(s.table) <= Pow2(c.bits)
  {
    forall i | 0 <= i < |s.run|
      ensures s.run[i].page != 0 && s.run[i].tid < NumThreads(s.table)
    {
      var k := |s.all| - |s.run| + i;
      assert Attributed(s.table, s.all[k], s.pids[k]);
    }
    assert NumThreads(s.table) <= Pow2(c.bits);
  }

  /** There is a matrix in which a tracked process's thread and all sharers have a row. */
  ghost predicate CanRecord(c: Config, s: State, pid: int) {
    && (Tid(s.table, c.pidHash, pid) != -1 ==> s.hasMatrix && 0 <= Tid(s.table, c.pidHash, pid) < Pow2(c.bits))
    && forall i | 0 <= i < |s.run| :: s.run[i].tid < Pow2(c.bits)
  }

  /** The handlers find room in the matrix for every access. */
  lemma Ready(c: Config, evs: seq<Event>, pid: int)
    requires ConfigOk(c) && AllReal(evs)
    ensures CanRecord(c, StateAfter(c, evs), pid)
  {
    AlwaysSafe(c, evs);
    var s := StateAfter(c, evs);
    SafeRun(c, s);
    if Tid(s.table, c.pidHash, pid) != -1 {
      LiveBijection(s.table, c.pidHash, Pow2(c.bits), pid, pid);
    }
  }

  /** While nobody is active nothing has been counted since the page table was cleared. */
  lemma QuietIsEmpty(c: Config, evs: seq<Event>)
    requires ConfigOk(c) && AllReal(evs)
    ensures var s := StateAfter(c, evs); ActiveThreads(s.table) == 0 ==> s.run == []
  {
    AlwaysSafe(c, evs);
  }

  /** Every thread in a slot of the page table is one of the numbered threads. */
  lemma SharersAreThreads(c: Config, s: State, page: nat)
    requires Safe(c, s)
    ensures forall x | x in Seen(s.run, c.pageHash, page) :: x < NumThreads(s.table) <= Pow2(c.bits)
  {
    SafeRun(c, s);
    assert NumThreads(s.table) <= Pow2(c.bits);
    SeenTids(s.run, c.pageHash, page, NumThreads(s.table));
  }

  /** In a session that began with a process start and saw no reset, cells are exact until a page is evicted. */
  lemma SessionExact(c: Config, s: State, a: nat, b: nat)
    requires Safe(c, s) && s.run == s.all && Evictions(s.run, c.pageHash) == 0
    ensures Communication(c, s, a, b) == IdealCount(s.all, a, b)
  {
    SafeRun(c, s);
    TableExact(s.run, c.pageHash, a, b);
  }

  /** Active threads imply a matrix with a row for each of them. */
  lemma ActiveHasMatrix(c: Config, evs: seq<Event>)
    requires ConfigOk(c) && AllReal(evs)
    ensures var s := StateAfter(c, evs);
            && (ActiveThreads(s.table) > 0 ==> s.hasMatrix)
            && ActiveThreads(s.table) <= Pow2(c.bits)
  {
    AlwaysSafe(c, evs);
    ActiveAtMostIssued(StateAfter(c, evs).table, c.pidHash, Pow2(c.bits));
  }

  /** `w` holds, up to the width of a cell, what was counted for `n` threads. */
  ghost predicate ShowsCounts(c: Config, s: State, w: Weights, n: nat) {
    forall a: nat, b: nat | a < n && b < n && a != b :: w(a, b) == Wrap(Communication(c, s, a, b))
  }

  // ------------------------------------------------------- what the steps mean

  /** The numbers are not used up, and no other pid is in the slot of this one. */
  predicate CanNumber(c: Config, t: Table, pid: int) {
    t.Table? && |t.issued| < Pow2(c.bits) && c.pidHash(pid) !in t.slots
  }

  /** `u` is `t` with `pid` under the next number. */
  ghost predicate Numbered(c: Config, t: Table, u: Table, pid: int) {
    && NumThreads(u) == NumThreads(t) + 1 && ActiveThreads(u) == ActiveThreads(t) + 1
    && forall q: int :: Tid(u, c.pidHash, q) == if q == pid then NumThreads(t) else Tid(t, c.pidHash, q)
  }

  lemma AddNumbers(c: Config, t: Table, pid: int)
    ensures var u := Added(t, c.pidHash, Pow2(c.bits), pid);
            if CanNumber(c, t, pid) then Numbered(c, t, u, pid) else u == t
  {
    AddFails(t, c.pidHash, Pow2(c.bits), pid);
    if CanNumber(c, t, pid) {
      forall q: int
        ensures Tid(Added(t, c.pidHash, Pow2(c.bits), pid), c.pidHash, q)
                == if q == pid then NumThreads(t) else Tid(t, c.pidHash, q)
      {
        AddTracks(t, c.pidHash, Pow2(c.bits), pid, q);
      }
    }
  }

  /** A successful fork in a named task makes private areas eligible, and numbers the new thread if it can be. */
  lemma ForkMeaning(c: Config, s: State, pid: int, named: bool)
    ensures var t := Step(c, s, Thread(pid, named));
            && t == s.(table := t.table, sharedOnly := s.sharedOnly && !(named && pid > 0))
            && if named && pid > 0 && CanNumber(c, s.table, pid) then Numbered(c, s.table, t.table, pid)
               else t.table == s.table
  {
    AddNumbers(c, s.table, pid);
  }

  /** A named task that is not tracked and not exiting joins the session. If nobody is active it starts a new
      one: then it alone is tracked, as thread 0, there is a matrix, and nothing has been counted into it. */
  lemma JoinMeaning(c: Config, s: State, pid: int)
    requires Tid(s.table, c.pidHash, pid) == -1 && (ActiveThreads(s.table) == 0 ==> s.run == [])
    ensures var t := Step(c, s, Process(pid, true, false));
            && t.run == s.run && t.pageFaults == s.pageFaults && t.sharedOnly == s.sharedOnly
            && if ActiveThreads(s.table) == 0 then
                 && NumThreads(t.table) == ActiveThreads(t.table) == 1 && t.hasMatrix && t.all == []
                 && (forall q: int :: Tid(t.table, c.pidHash, q) == if q == pid then 0 else -1)
                 && forall a: nat, b: nat :: Communication(c, t, a, b) == 0
               else if CanNumber(c, s.table, pid) then t == s.(table := t.table) && Numbered(c, s.table, t.table, pid)
               else t == s
  {
    var before := if ActiveThreads(s.table) == 0 then Started(s) else s;
    AddNumbers(c, before.table, pid);
    assert Pow2(c.bits) >= 1;
  }

  /** A tracked task that exits is no longer tracked, and its number stays used. If it was the last one, the page
      table is cleared, the faults are zeroed and only shared areas are eligible; the matrix keeps its counts. */
  lemma ExitMeaning(c: Config, s: State, pid: int, named: bool)
    requires Tid(s.table, c.pidHash, pid) != -1
    ensures var t := Step(c, s, Process(pid, named, true));
            && NumThreads(t.table) == NumThreads(s.table) && ActiveThreads(t.table) == ActiveThreads(s.table) - 1
            && (forall q: int :: Tid(t.table, c.pidHash, q) == if q == pid then -1 else Tid(s.table, c.pidHash, q))
            && t.all == s.all && t.pids == s.pids && t.hasMatrix == s.hasMatrix
            && (forall a: nat, b: nat :: Communication(c, t, a, b) == Communication(c, s, a, b))
            && if ActiveThreads(s.table) == 1 then t.run == [] && t.pageFaults == 0 && t.sharedOnly
               else t.run == s.run && t.pageFaults == s.pageFaults && t.sharedOnly == s.sharedOnly
  {
    forall q: int
      ensures Tid(Deleted(s.table, c.pidHash, pid), c.pidHash, q) == if q == pid then -1 else Tid(s.table, c.pidHash, q)
    {
      DeleteUntracks(s.table, c.pidHash, pid, q);
    }
    DeleteUntracks(s.table, c.pidHash, pid, pid);
  }

  /** Everything else that the accounting sees is ignored. */
  lemma OthersIgnored(c: Config, s: State, pid: int, named: bool, exiting: bool)
    requires if Tid(s.table, c.pidHash, pid) == -1 then exiting || !named else !exiting
    ensures Step(c, s, Process(pid, named, exiting)) == s
  {
  }

  /** The three cases together, as the counters and the numbers show them. */
  lemma AccountMeaning(c: Config, s: State, pid: int, named: bool, exiting: bool)
    requires ActiveThreads(s.table) == 0 ==> s.run == []
    ensures var t, tid := Step(c, s, Process(pid, named, exiting)), Tid(s.table, c.pidHash, pid);
            if tid != -1 && exiting then
              && NumThreads(t.table) == NumThreads(s.table) && ActiveThreads(t.table) == ActiveThreads(s.table) - 1
              && (forall q: int :: Tid(t.table, c.pidHash, q) == if q == pid then -1 else Tid(s.table, c.pidHash, q))
              && if ActiveThreads(t.table) == 0 then t.run == [] && t.pageFaults == 0 && t.sharedOnly
                 else t.run == s.run && t.pageFaults == s.pageFaults && t.sharedOnly == s.sharedOnly
            else
              && t.run == s.run && t.pageFaults == s.pageFaults && t.sharedOnly == s.sharedOnly
              && if tid == -1 && named && !exiting && ActiveThreads(s.table) == 0 then
                   && NumThreads(t.table) == ActiveThreads(t.table) == 1 && t.hasMatrix
                   && (forall q: int :: Tid(t.table, c.pidHash, q) == if q == pid then 0 else -1)
                   && forall a: nat, b: nat :: Communication(c, t, a, b) == 0
                 else if tid == -1 && named && !exiting && CanNumber(c, s.table, pid) then
                   Numbered(c, s.table, t.table, pid)
                 else t.table == s.table
  {
    if Tid(s.table, c.pidHash, pid) != -1 && exiting {
      ExitMeaning(c, s, pid, named);
    } else if Tid(s.table, c.pidHash, pid) == -1 && named && !exiting {
      JoinMeaning(c, s, pid);
    } else {
      OthersIgnored(c, s, pid, named, exiting);
    }
  }

  lemma LatestIsSeen(run: Run, hash: Hash, r: Access)
    ensures r.tid in Seen(run + [r], hash, r.page)
  {
    assert (run + [r])[..|run|] == run;
    WindowDistinct(Segment(run + [r], hash, hash(r.page)));
  }

  /** What the detector is for: when two different tracked tasks fault on one page, one right after the other, the
      communication of their threads grows. */
  lemma SharingIsSeen(c: Config, s: State, p: int, q: int, frame: nat, x: nat, y: nat)
    requires Safe(c, s) && p != q && Tid(s.table, c.pidHash, p) != -1 && Tid(s.table, c.pidHash, q) != -1
    requires frame != 0 && Page(c, frame, x) == Page(c, frame, y)
    ensures var a, b := Tid(s.table, c.pidHash, p), Tid(s.table, c.pidHash, q);
            var t := Step(c, Step(c, s, Fault(p, frame, x)), Fault(q, frame, y));
            0 <= a && 0 <= b && a != b && Communication(c, t, a, b) > Communication(c, s, a, b)
  {
    LiveBijection(s.table, c.pidHash, Pow2(c.bits), p, q);
    LiveBijection(s.table, c.pidHash, Pow2(c.bits), q, p);
    var a: nat, b: nat := Tid(s.table, c.pidHash, p), Tid(s.table, c.pidHash, q);
    FaultMeaning(c, s, p, frame, x, a, b);
    FaultMeaning(c, Step(c, s, Fault(p, frame, x)), q, frame, y, a, b);
    LatestIsSeen(s.run, c.pageHash, Access(a, Page(c, frame, x)));
  }

  /** A fault of a task that is not tracked changes nothing; one without a frame is only counted. Any other is an
      access of the task's thread to the page, and for two different threads the cell stands for one meeting more
      exactly when one of them is that thread and the other is in the window of the page. */
  lemma FaultMeaning(c: Config, s: State, pid: int, frame: nat, offset: nat, a: nat, b: nat)
    ensures var t, tid := Step(c, s, Fault(pid, frame, offset)), Tid(s.table, c.pidHash, pid);
            if tid == -1 then t == s
            else if frame == 0 then t == s.(pageFaults := s.pageFaults + 1)
            else
              var page := Page(c, frame, offset);
              var r, w := Access(tid, page), Seen(s.run, c.pageHash, page);
              && t == s.(pageFaults := s.pageFaults + 1, all := s.all + [r], pids := s.pids + [pid], run := s.run + [r])
              && Communication(c, t, a, b) == Communication(c, s, a, b)
                   + (if (tid == a && b in w) || (tid == b && a in w) then 1 else 0)
  {
    var tid := Tid(s.table, c.pidHash, pid);
    if tid != -1 && frame != 0 {
      var r := Access(tid, Page(c, frame, offset));
      assert (s.run + [r])[..|s.run|] == s.run;
    }
  }

  // ----------------------------------------------------------------- handlers

  lemma TidsFit(c: Config)
    requires ConfigOk(c)
    ensures Pow2(c.bits) <= PID_HASH_SIZE
  {
    Pow2Monotone(c.bits, 14);
    assert Pow2(14) == PID_HASH_SIZE;
  }

  class Session {
    const config: Config
    const pids: PidTable
    const detector: Detector
    var pageFaults: nat
    var vmaSharedFlag: int
    ghost var events: seq<Event>
    ghost var state: State
    ghost var repr: set<object>

    ghost predicate Wired() {
      && ConfigOk(config)
      && pids.hash == config.pidHash && pids.maxThreads == Pow2(config.bits)
      && detector.bits == config.bits && detector.shift == config.shift && detector.hash == config.pageHash
    }

    ghost predicate MatrixAgrees()
      reads this`state, detector, detector.matrix, if detector.matrix == null then {} else {detector.matrix.cells}
    {
      && (state.hasMatrix <==> detector.matrix != null)
      && (state.hasMatrix ==> detector.Counted())
    }

    /** Memory and counters show `state`. */
    ghost predicate Shows()
      reads this`state, this`pageFaults, this`vmaSharedFlag, pids, pids.forward, pids.reverse, detector, detector.mem,
            detector.matrix, if detector.matrix == null then {} else {detector.matrix.cells}
    {
      && Wired() && pids.Valid() && detector.Valid() && MatrixAgrees()
      && pids.table == state.table && detector.run == state.run && detector.base == state.base
      && pageFaults == state.pageFaults && vmaSharedFlag == (if state.sharedOnly then 1 else 0)
    }

    /** `repr` is the memory of the session. */
    ghost predicate Owned()
      reads this, detector
    {
      && {this, pids, pids.forward, pids.reverse, detector, detector.mem} <= repr
      && (detector.matrix != null ==> {detector.matrix, detector.matrix.cells} <= repr)
    }

    ghost predicate Valid()
      reads this, repr
    {
      && pids in repr && pids.forward in repr && pids.reverse in repr && detector in repr && detector.mem in repr
      && Owned() && Shows() && AllReal(events) && state == StateAfter(config, events)
    }

    constructor (config: Config, hashSize: nat)
      requires ConfigOk(config) && forall p: nat :: config.pageHash(p) < hashSize
      ensures Valid() && this.config == config && events == [] && fresh(repr)
      ensures pids.activeThreads == 0 && forall q: int | q > 0 :: pids.GetTid(q) == -1
      ensures detector.matrix == null && detector.run == [] && pageFaults == 0 && vmaSharedFlag == 1
    {
      this.config := config;
      TidsFit(config);
      pids := new PidTable(Pow2(config.bits), config.pidHash);
      detector := new Detector(config.bits, config.shift, hashSize, config.pageHash);
      pageFaults, vmaSharedFlag, state, events := 0, 1, Initial(), [];
      new;
      repr := {this, pids, pids.forward, pids.reverse, detector, detector.mem};
    }

    /** The handlers' last step: the event joins the ones that led here. */
    ghost method Log(ev: Event)
      requires Shows() && Owned() && AllReal(events) && (ev.Thread? || ev.pid > 0)
      requires state == Step(config, StateAfter(config, events), ev)
      modifies this`events
      ensures Valid() && events == old(events) + [ev]
    {
      OneMore(config, events, ev);
      events := events + [ev];
    }

    /** Takes a matrix that was allocated into the session's memory. */
    ghost method Own()
      requires Shows() && {this, pids, pids.forward, pids.reverse, detector, detector.mem} <= repr
      modifies this`repr
      ensures Shows() && Owned()
      ensures repr == old(repr) + (if detector.matrix == null then {} else {detector.matrix, detector.matrix.cells})
    {
      repr := repr + (if detector.matrix == null then {} else {detector.matrix, detector.matrix.cells});
    }

    method ResetStats()
      requires Shows()
      modifies this`state, this`pageFaults, this`vmaSharedFlag,
               detector.mem, detector`conflicts, detector`run, detector`base
      ensures Shows() && state == Reset(config, old(state))
      ensures pageFaults == 0 && vmaSharedFlag == 1 && detector.conflicts == 0 && detector.run == []
      ensures forall k | 0 <= k < detector.mem.Length :: detector.mem[k] == Slot(0, 0, 0)
    {
      detector.MemInit();
      pageFaults := 0;
      vmaSharedFlag := 1;
      state := Reset(config, state);
    }

    method Untrack(pid: int)
      requires Shows() && pid > 0
      modifies this`state, pids, pids.forward
      ensures Shows() && state == old(state).(table := Deleted(old(state).table, config.pidHash, pid))
    {
      pids.DeletePid(pid);
      state := state.(table := Deleted(state.table, config.pidHash, pid));
    }

    /** A process exits; the last one ends the session. */
    method Leave(pid: int)
      requires Shows() && pid > 0
      modifies this`state, this`pageFaults, this`vmaSharedFlag, pids, pids.forward,
               detector.mem, detector`conflicts, detector`run, detector`base
      ensures Shows() && state == Exit(config, old(state), pid)
    {
      Untrack(pid);
      if pids.activeThreads == 0 {
        ResetStats();
      }
    }

    /** A new session begins with an empty pid table and a zeroed matrix. */
    method Start()
      requires Shows() && state.run == []
      modifies this`state, pids, pids.forward, pids.reverse, detector`matrix, detector`base,
               detector.matrix, if detector.matrix == null then {} else {detector.matrix.cells}
      ensures Shows() && state == Started(old(state))
      ensures old(detector.matrix) == null ==> fresh(detector.matrix) && fresh(detector.matrix.cells)
      ensures old(detector.matrix) != null ==> detector.matrix == old(detector.matrix)
    {
      UntrackAll();
      detector.CommInit();
      state := Started(state);
    }

    method UntrackAll()
      requires Shows()
      modifies this`state, pids, pids.forward, pids.reverse
      ensures Shows() && state == old(state).(table := CLEARED)
    {
      pids.Clear();
      state := state.(table := CLEARED);
    }

    method Join(pid: int)
      requires Shows() && pid > 0
      modifies this`state, pids, pids.forward, pids.reverse
      ensures Shows() && state == AddedTo(config, old(state), pid)
    {
      var tid := pids.AddPid(pid);
      state := AddedTo(config, state, pid);
    }

    method Account(pid: int, named: bool, exiting: bool)
      requires Shows() && pid > 0 && (ActiveThreads(state.table) == 0 ==> state.run == [])
      modifies this`state, this`pageFaults, this`vmaSharedFlag, pids, pids.forward, pids.reverse,
               detector, detector.mem, detector.matrix, if detector.matrix == null then {} else {detector.matrix.cells}
      ensures Shows() && state == ProcessStep(config, old(state), pid, named, exiting)
      ensures detector.matrix == old(detector.matrix)
              || (old(detector.matrix) == null && fresh(detector.matrix) && fresh(detector.matrix.cells))
    {
      var tid := pids.GetTid(pid);
      if tid > -1 && exiting {
        Leave(pid);
        return;
      }
      if named && tid == -1 && !exiting {
        if pids.activeThreads == 0 {
          Start();
        }
        Join(pid);
      }
    }

    method AccountOwned(pid: int, named: bool, exiting: bool)
      requires Shows() && Owned() && pid > 0 && (ActiveThreads(state.table) == 0 ==> state.run == [])
      modifies this`state, this`pageFaults, this`vmaSharedFlag, this`repr, pids, pids.forward, pids.reverse,
               detector, detector.mem, detector.matrix, if detector.matrix == null then {} else {detector.matrix.cells}
      ensures Shows() && Owned() && state == ProcessStep(config, old(state), pid, named, exiting)
      ensures fresh(repr - old(repr)) && (old(detector.matrix) != null ==> detector.matrix == old(detector.matrix))
    {
      Account(pid, named, exiting);
      assert repr == old(repr);
      Own();
    }

    method RecordProcess(pid: int, named: bool, exiting: bool)
      requires Valid() && pid > 0
      modifies repr
      ensures Valid() && events == old(events) + [Process(pid, named, exiting)]
      ensures fresh(repr - old(repr)) && (old(detector.matrix) != null ==> detector.matrix == old(detector.matrix))
      ensures state == ProcessStep(config, old(state), pid, named, exiting)
    {
      QuietIsEmpty(config, events);
      AccountOwned(pid, named, exiting);
      assert events == old(events);
      Log(Process(pid, named, exiting));
    }

    /** A process was accounted: it may leave its session, start one or join one. */
    method ProcessHandler(pid: int, named: bool, exiting: bool)
      requires Valid() && pid > 0
      modifies repr
      ensures Valid() && events == old(events) + [Process(pid, named, exiting)]
      ensures fresh(repr - old(repr)) && (old(detector.matrix) != null ==> detector.matrix == old(detector.matrix))
      ensures var tid := old(pids.GetTid(pid));
              if tid != -1 && exiting then
                && pids.numThreads == old(pids.numThreads) && pids.activeThreads == old(pids.activeThreads) - 1
                && (forall q: int | q > 0 :: pids.GetTid(q) == if q == pid then -1 else old(pids.GetTid(q)))
                && if pids.activeThreads == 0 then detector.run == [] && pageFaults == 0 && vmaSharedFlag == 1
                   else detector.run == old(detector.run) && pageFaults == old(pageFaults)
                        && vmaSharedFlag == old(vmaSharedFlag)
              else
                && pageFaults == old(pageFaults) && vmaSharedFlag == old(vmaSharedFlag)
                && detector.run == old(detector.run)
                && if tid == -1 && named && !exiting && old(pids.activeThreads) == 0 then
                     && pids.numThreads == pids.activeThreads == 1
                     && (forall q: int | q > 0 :: pids.GetTid(q) == if q == pid then 0 else -1)
                     && detector.matrix != null
                     && forall a: nat, b: nat | a < Pow2(config.bits) && b < Pow2(config.bits) && a != b ::
                          detector.matrix.Values()(a, b) == 0
                   else
                     var added := tid == -1 && named && !exiting && old(pids.numThreads) < pids.maxThreads
                                  && old(pids.forward[pids.hash(pid)].pid) == -1;
                     && pids.numThreads == old(pids.numThreads) + (if added then 1 else 0)
                     && pids.activeThreads == old(pids.activeThreads) + (if added then 1 else 0)
                     && forall q: int | q > 0 ::
                          pids.GetTid(q) == if added && q == pid then old(pids.numThreads) else old(pids.GetTid(q))
    {
      pids.FreeSlot(pids.hash(pid));
      QuietIsEmpty(config, events);
      AccountMeaning(config, state, pid, named, exiting);
      RecordProcess(pid, named, exiting);
    }

    method RecordFork(pid: int, named: bool)
      requires Shows()
      modifies this`state, this`vmaSharedFlag, pids, pids.forward, pids.reverse
      ensures Shows() && state == ThreadStep(config, old(state), pid, named)
    {
      if named && pid > 0 {
        Join(pid);
        vmaSharedFlag := 0;
        state := state.(sharedOnly := false);
      }
    }

    /** A fork returned `pid` in a process of the given kind. */
    method ThreadHandler(pid: int, named: bool)
      requires Valid()
      modifies repr
      ensures Valid() && events == old(events) + [Thread(pid, named)]
      ensures repr == old(repr) && detector.matrix == old(detector.matrix)
      ensures var added := named && pid > 0 && old(pids.numThreads) < pids.maxThreads
                           && old(pids.forward[pids.hash(pid)].pid) == -1;
              && pids.numThreads == old(pids.numThreads) + (if added then 1 else 0)
              && pids.activeThreads == old(pids.activeThreads) + (if added then 1 else 0)
              && forall q: int | q > 0 ::
                   pids.GetTid(q) == if added && q == pid then old(pids.numThreads) else old(pids.GetTid(q))
      ensures vmaSharedFlag == (if named && pid > 0 then 0 else old(vmaSharedFlag)) && pageFaults == old(pageFaults)
      ensures DetectorKept()
    {
      pids.FreeSlot(pids.hash(pid));
      ForkMeaning(config, state, pid, named);
      RecordFork(pid, named);
      Log(Thread(pid, named));
    }

    /** The detector sees an access. Of the cells of different threads, those are incremented that belong to this
        thread and one in the window of the page. */
    method Detect(tid: nat, frame: nat, offset: nat)
      requires Wired() && detector.Valid() && detector.Counted() && tid < Pow2(config.bits) && frame != 0
      requires forall i | 0 <= i < |detector.run| :: detector.run[i].tid < Pow2(config.bits)
      modifies detector, detector.mem, if detector.matrix == null then {} else {detector.matrix.cells}
      ensures detector.Valid() && detector.Counted()
      ensures detector.base == old(detector.base) && detector.matrix == old(detector.matrix)
      ensures detector.run == old(detector.run) + [Access(tid, Page(config, frame, offset))]
      ensures var seen := Seen(old(detector.run), config.pageHash, Page(config, frame, offset));
              forall a: nat, b: nat | a < Pow2(config.bits) && b < Pow2(config.bits) && a != b ::
                detector.matrix.Values()(a, b) ==
                  if (tid == a && b in seen) || (tid == b && a in seen)
                  then Bump(old(detector.matrix.Values())(a, b)) else old(detector.matrix.Values())(a, b)
    {
      PageNotZero(config, frame, offset);
      ghost var run, before := detector.run, detector.matrix.Values();
      ghost var page, was := detector.CheckComm(tid, Address(frame, offset));
      CellsStep(run, config.pageHash, Access(tid, Page(config, frame, offset)), detector.base, before,
                detector.matrix.Values(), Pow2(config.bits));
    }

    /** Counts an access by a tracked process. */
    method Count(pid: int, tid: nat, frame: nat, offset: nat)
      requires Shows() && state.hasMatrix && tid < Pow2(config.bits) && frame != 0
      requires forall i | 0 <= i < |state.run| :: state.run[i].tid < Pow2(config.bits)
      modifies this`state, detector, detector.mem, if detector.matrix == null then {} else {detector.matrix.cells}
      ensures Shows() && state == Counting(old(state), pid, Access(tid, Page(config, frame, offset)))
      ensures detector.matrix == old(detector.matrix)
      ensures var seen := Seen(old(detector.run), config.pageHash, Page(config, frame, offset));
              forall a: nat, b: nat | a < Pow2(config.bits) && b < Pow2(config.bits) && a != b ::
                detector.matrix.Values()(a, b) ==
                  if (tid == a && b in seen) || (tid == b && a in seen)
                  then Bump(old(detector.matrix.Values())(a, b)) else old(detector.matrix.Values())(a, b)
    {
      Detect(tid, frame, offset);
      state := Counting(state, pid, Access(tid, Page(config, frame, offset)));
    }

    method CountFault()
      requires Shows()
      modifies this`state, this`pageFaults
      ensures Shows() && state == Faulted(old(state))
    {
      pageFaults := pageFaults + 1;
      state := Faulted(state);
    }

    method RecordFault(pid: int, frame: nat, offset: nat)
      requires Shows() && pid > 0 && CanRecord(config, state, pid)
      modifies this`state, this`pageFaults, detector, detector.mem,
               if detector.matrix == null then {} else {detector.matrix.cells}
      ensures Shows() && state == FaultStep(config, old(state), pid, frame, offset)
              && detector.matrix == old(detector.matrix)
      ensures old(pids.GetTid(pid)) == -1 || frame == 0 ==> DetectorKept()
      ensures pageFaults == old(pageFaults) + (if old(pids.GetTid(pid)) == -1 then 0 else 1)
      ensures old(pids.GetTid(pid)) != -1 && frame != 0 ==>
                && detector.run == old(detector.run) + [Access(old(pids.GetTid(pid)), Page(config, frame, offset))]
                && Met(old(pids.GetTid(pid)), Page(config, frame, offset))
    {
      var tid := pids.GetTid(pid);
      if tid != -1 {
        CountFault();
        if frame != 0 {
          Count(pid, tid, frame, offset);
        }
      }
    }

    twostate predicate DetectorKept()
      reads detector, detector.mem, detector.matrix, if detector.matrix == null then {} else {detector.matrix.cells}
    {
      detector.matrix == old(detector.matrix) && unchanged(detector, detector.mem)
      && (detector.matrix != null ==> unchanged(detector.matrix, detector.matrix.cells))
    }

    /** Of the cells of different threads, those were incremented that belong to `tid` and a thread in the window of
        the page. */
    twostate predicate Met(tid: int, page: nat)
      reads this, detector, detector.matrix, if detector.matrix == null then {} else {detector.matrix.cells}
    {
      && detector.matrix != null && detector.matrix == old(detector.matrix)
      && var seen := Seen(old(detector.run), config.pageHash, page);
         forall a: nat, b: nat | a < Pow2(config.bits) && b < Pow2(config.bits) && a != b ::
           detector.matrix.Values()(a, b) ==
             if (tid == a && b in seen) || (tid == b && a in seen)
             then Bump(old(detector.matrix.Values())(a, b)) else old(detector.matrix.Values())(a, b)
    }

    /** A process faulted on an address that maps to a physical frame, or to none. */
    method PteFaultHandler(pid: int, frame: nat, offset: nat)
      requires Valid() && pid > 0
      modifies repr
      ensures Valid() && events == old(events) + [Fault(pid, frame, offset)]
      ensures repr == old(repr) && detector.matrix == old(detector.matrix)
      ensures pids.GetTid(pid) == old(pids.GetTid(pid)) && vmaSharedFlag == old(vmaSharedFlag)
      ensures pageFaults == old(pageFaults) + (if pids.GetTid(pid) == -1 then 0 else 1)
      ensures pids.GetTid(pid) == -1 || frame == 0 ==> DetectorKept()
      ensures pids.GetTid(pid) != -1 && frame != 0 ==>
                && detector.run == old(detector.run) + [Access(pids.GetTid(pid), Page(config, frame, offset))]
                && Met(pids.GetTid(pid), Page(config, frame, offset))
    {
      Ready(config, events, pid);
      RecordFault(pid, frame, offset);
      Log(Fault(pid, frame, offset));
    }

    /** Prepares the matrix for a round of the mapping thread, if enough threads are active. */
    method PrepareMap() returns (nt: nat)
      requires Valid()
      modifies repr
      ensures Valid() && nt == old(pids.activeThreads) <= Pow2(config.bits)
      ensures repr == old(repr) && events == old(events) && state == old(state)
              && detector.matrix == old(detector.matrix)
      ensures nt >= 4 ==> MatrixFor(nt)
    {
      nt := pids.activeThreads;
      ActiveHasMatrix(config, events);
      if nt >= 4 {
        SetThreads(nt);
        MatrixShows(nt);
      }
    }

    method SetThreads(n: nat)
      requires Shows() && state.hasMatrix
      modifies detector.matrix
      ensures Shows() && detector.matrix.nthreads == n
    {
      detector.matrix.nthreads := n;
    }

    /** The matrix is ready for the mapping of `n` threads, and shows what was counted for them. */
    ghost predicate MatrixFor(n: nat)
      reads this, detector, detector.matrix, if detector.matrix == null then {} else {detector.matrix.cells}
    {
      && detector.matrix != null && detector.matrix.Valid() && detector.matrix.bits == config.bits
      && detector.matrix.nthreads == n <= Pow2(config.bits) && detector.matrix.Defined(n)
      && ShowsCounts(config, state, detector.matrix.Values(), n)
    }

    lemma MatrixShows(n: nat)
      requires Shows() && state.hasMatrix && detector.matrix.nthreads == n <= Pow2(config.bits)
      ensures MatrixFor(n)
    {
    }

    /** What the matrix says about two different threads. */
    lemma MatrixMeaning(a: nat, b: nat)
      requires Valid() && detector.matrix != null && a < Pow2(config.bits) && b < Pow2(config.bits) && a != b
      ensures detector.matrix.Values()(a, b) == Wrap(Communication(config, state, a, b))
      ensures Communication(config, state, a, b) <= IdealCount(state.all, a, b)
    {
      AlwaysSafe(config, events);
    }
  }
}
