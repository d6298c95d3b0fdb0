/** The whole module: handlers and rounds of the mapping thread in any order. What the detector has
    counted so far decides where the active threads are placed. */
module Pipeline {
  import opened Arithmetic
  import opened Affinity
  import opened Forest
  import opened GreedyMapping
  import opened TreeShape
  import opened Placements
  import opened Detectors
  import opened Pids
  import opened Sessions

  /** Places as many threads as are active if those are at least four. The matrix then exists, shows what the
      session has counted, and the placement is the greedy one for it. */
  method MapRound(s: Session, t: MapThread, map': array<nat>) returns (nt: nat, ghost w: Weights, ghost f: Levels)
    requires s.Valid() && t.Valid() && s.config.bits == t.bits && s.pids.activeThreads <= MAX_THREADS <= map'.Length
    requires s.repr !! t.repr && map' !in s.repr && map' !in t.repr
    modifies s.repr, t.repr, map'
    ensures s.Valid() && t.Valid() && s.repr == old(s.repr)
    ensures s.events == old(s.events) && nt == old(s.pids.activeThreads)
    ensures nt < 4 ==> map'[..] == old(map'[..])
    ensures nt >= 4 ==> ShowsCounts(s.config, s.state, w, nt) && Placement(map'[..], nt, w, t.ars, t.lab, f)
  {
    nt := s.PrepareMap();
    w, f := NoWeights(), [];
    if nt >= 4 {
      w := s.detector.matrix.Values();
      f := t.PlaceThreads(s.detector.matrix, map');
    }
  }

  // ---------------------------------------------------------------- whole runs

  datatype Step = Handle(ev: Event) | Map

  /** The events among the first `k` steps. */
  function EventsOf(steps: seq<Step>, k: nat): seq<Event>
    requires k <= |steps|
  {
    if k == 0 then []
    else EventsOf(steps, k - 1) + (if steps[k - 1].Handle? then [steps[k - 1].ev] else [])
  }

  predicate RealStep(step: Step) {
    step.Handle? ==> Real(step.ev)
  }

  /** A mapping step finds at most as many active threads as the mapping's tables have room for. */
  predicate RoomFor(c: Config, steps: seq<Step>, i: nat)
    requires i < |steps|
  {
    steps[i] == Map ==> ActiveThreads(StateAfter(c, EventsOf(steps, i)).table) <= MAX_THREADS
  }

  ghost predicate RunOk(c: Config, steps: seq<Step>) {
    forall i: nat | i < |steps| :: RealStep(steps[i]) && RoomFor(c, steps, i)
  }

  /** A mapping step with at least four active threads places as many, by what had been counted by then. */
  ghost predicate StepOk(c: Config, ars: seq<nat>, lab: Labels, steps: seq<Step>, i: nat, places: Option<seq<nat>>)
    requires i < |steps|
  {
    var s := StateAfter(c, EventsOf(steps, i));
    if steps[i] == Map && ActiveThreads(s.table) >= 4 then places.Some? && RoundOk(c, ars, lab, s, places.value)
    else places.None?
  }

  /** The active threads are placed greedily for some matrix that shows what was counted for them. All such
      matrices lead to the same placement. */
  ghost predicate RoundOk(c: Config, ars: seq<nat>, lab: Labels, s: State, places: seq<nat>) {
    exists w: Weights, f: Levels :: PlacedBy(c, ars, lab, s, places, w, f)
  }

  ghost predicate PlacedBy(c: Config, ars: seq<nat>, lab: Labels, s: State, places: seq<nat>, w: Weights, f: Levels) {
    ShowsCounts(c, s, w, ActiveThreads(s.table)) && Placement(places, ActiveThreads(s.table), w, ars, lab, f)
  }

  /** What was counted determines the placement. */
  lemma RoundUnique(c: Config, ars: seq<nat>, lab: Labels, s: State, p: seq<nat>, q: seq<nat>)
    requires RoundOk(c, ars, lab, s, p) && RoundOk(c, ars, lab, s, q)
    ensures ActiveThreads(s.table) <= |p| && ActiveThreads(s.table) <= |q|
    ensures p[..ActiveThreads(s.table)] == q[..ActiveThreads(s.table)]
  {
    var w: Weights, f: Levels :| PlacedBy(c, ars, lab, s, p, w, f);
    var v: Weights, e: Levels :| PlacedBy(c, ars, lab, s, q, v, e);
    PlacementUnique(p, q, ActiveThreads(s.table), w, v, ars, lab, f, e);
  }

  ghost predicate StepsOk(c: Config, ars: seq<nat>, lab: Labels, steps: seq<Step>, rs: seq<Option<seq<nat>>>) {
    |rs| <= |steps| && forall i | 0 <= i < |rs| :: StepOk(c, ars, lab, steps, i, rs[i])
  }

  /** Session and mapping thread side by side, each in its own memory. */
  ghost predicate Together(s: Session, t: MapThread, map': array<nat>)
    reads s, s.repr, t.repr
  {
    && s.Valid() && t.Valid() && s.config.bits == t.bits && MAX_THREADS <= map'.Length
    && s.repr !! t.repr && map' !in s.repr && map' !in t.repr
  }

  method HandleEvent(s: Session, t: MapThread, map': array<nat>, ev: Event)
    requires Together(s, t, map') && Real(ev)
    modifies s.repr
    ensures Together(s, t, map') && s.events == old(s.events) + [ev] && fresh(s.repr - old(s.repr))
  {
    match ev {
      case Process(pid, named, exiting) => s.ProcessHandler(pid, named, exiting);
      case Thread(pid, named) => s.ThreadHandler(pid, named);
      case Fault(pid, frame, offset) => s.PteFaultHandler(pid, frame, offset);
    }
  }

  /** A mapping step. */
  method MapStep(s: Session, t: MapThread, map': array<nat>) returns (r: Option<seq<nat>>)
    requires Together(s, t, map')
    requires ActiveThreads(StateAfter(s.config, s.events).table) <= MAX_THREADS
    modifies s.repr, t.repr, map'
    ensures Together(s, t, map') && s.repr == old(s.repr) && s.events == old(s.events)
    ensures var st := StateAfter(s.config, s.events);
            if ActiveThreads(st.table) >= 4 then r.Some? && RoundOk(s.config, t.ars, t.lab, st, r.value) else r.None?
  {
    var nt;
    ghost var w, f;
    nt, w, f := MapRound(s, t, map');
    r := if nt >= 4 then Some(map'[..]) else None;
    assert nt >= 4 ==> PlacedBy(s.config, t.ars, t.lab, s.state, map'[..], w, f);
  }

  method TakeStep(s: Session, t: MapThread, map': array<nat>, steps: seq<Step>, i: nat) returns (r: Option<seq<nat>>)
    requires Together(s, t, map') && i < |steps| && s.events == EventsOf(steps, i)
    requires RealStep(steps[i]) && RoomFor(s.config, steps, i)
    modifies s.repr, t.repr, map'
    ensures Together(s, t, map') && fresh(s.repr - old(s.repr)) && s.events == EventsOf(steps, i + 1)
    ensures StepOk(s.config, t.ars, t.lab, steps, i, r)
  {
    match steps[i] {
      case Handle(ev) =>
        HandleEvent(s, t, map', ev);
        r := None;
      case Map =>
        r := MapStep(s, t, map');
    }
  }

  method StartModule(config: Config, hashSize: nat, ars: seq<nat>, lab: Labels)
    returns (s: Session, t: MapThread, map': array<nat>)
    requires ConfigOk(config) && (forall p: nat :: config.pageHash(p) < hashSize) && Machine(ars, lab)
    ensures Together(s, t, map') && s.events == [] && fresh(s.repr) && fresh(t.repr) && fresh(map')
    ensures s.config == config && t.ars == ars && t.lab == lab
  {
    map' := new nat[MAX_THREADS];
    s := new Session(config, hashSize);
    t := new MapThread(ars, lab, config.bits);
  }

  lemma StepsSnoc(c: Config, ars: seq<nat>, lab: Labels, steps: seq<Step>, rs: seq<Option<seq<nat>>>,
                  r: Option<seq<nat>>)
    requires StepsOk(c, ars, lab, steps, rs) && |rs| < |steps| && StepOk(c, ars, lab, steps, |rs|, r)
    ensures StepsOk(c, ars, lab, steps, rs + [r])
  {
  }

  /** The first `k` steps of a run. */
  method TakeSteps(s: Session, t: MapThread, map': array<nat>, steps: seq<Step>, k: nat)
    returns (rs: seq<Option<seq<nat>>>)
    requires Together(s, t, map') && k <= |steps| && s.events == []
    requires RunOk(s.config, steps)
    modifies s.repr, t.repr, map'
    ensures Together(s, t, map') && fresh(s.repr - old(s.repr)) && s.events == EventsOf(steps, k)
    ensures |rs| == k && StepsOk(s.config, t.ars, t.lab, steps, rs)
  {
    if k == 0 {
      return [];
    }
    rs := TakeSteps(s, t, map', steps, k - 1);
    rs := TakeNext(s, t, map', steps, k - 1, rs);
  }

  method TakeNext(s: Session, t: MapThread, map': array<nat>, steps: seq<Step>, k: nat,
                  before: seq<Option<seq<nat>>>)
    returns (rs: seq<Option<seq<nat>>>)
    requires Together(s, t, map') && |before| == k < |steps| && s.events == EventsOf(steps, k)
    requires StepsOk(s.config, t.ars, t.lab, steps, before)
    requires RunOk(s.config, steps)
    modifies s.repr, t.repr, map'
    ensures Together(s, t, map') && fresh(s.repr - old(s.repr)) && s.events == EventsOf(steps, k + 1)
    ensures |rs| == k + 1 && StepsOk(s.config, t.ars, t.lab, steps, rs)
  {
    var r := TakeStep(s, t, map', steps, k);
    StepsSnoc(s.config, t.ars, t.lab, steps, before, r);
    rs := before + [r];
  }

  /** A whole run of the module from its start: any handler steps and mapping rounds, in any order, as long as no
      round finds more threads active than the mapping has room for. Every step can be taken, and every round
      places as many threads as are active, greedily for what was counted. */
  method RunModule(config: Config, hashSize: nat, ars: seq<nat>, lab: Labels, steps: seq<Step>)
    returns (rs: seq<Option<seq<nat>>>)
    requires ConfigOk(config) && (forall p: nat :: config.pageHash(p) < hashSize)
    requires Machine(ars, lab) && RunOk(config, steps)
    ensures |rs| == |steps| && StepsOk(config, ars, lab, steps, rs)
  {
    var s, t, map' := StartModule(config, hashSize, ars, lab);
    rs := TakeSteps(s, t, map', steps, |steps|);
  }

  // -------------------------------------------------------- when there is always room

  /** Whatever happens, a round has room for the active threads. */
  ghost predicate AlwaysRoom(c: Config) {
    forall steps: seq<Step>, i: nat | i < |steps| && AllRealSteps(steps) :: RoomFor(c, steps, i)
  }

  ghost predicate AllRealSteps(steps: seq<Step>) {
    forall i | 0 <= i < |steps| :: RealStep(steps[i])
  }

  /** Positive pids that all hash to different slots. */
  ghost predicate Spread(hash: PidHash, pids: seq<int>) {
    && (forall i | 0 <= i < |pids| :: pids[i] > 0)
    && forall i, j | 0 <= i < j < |pids| :: hash(pids[i]) != hash(pids[j])
  }

  ghost predicate CanSpread(hash: PidHash, n: nat) {
    exists pids: seq<int> :: |pids| == n && Spread(hash, pids)
  }

  /** Always at most 128 threads can be active exactly if the limit is at most 128, or the hash does not
      have 129 different values for positive pids. */
  lemma AlwaysRoomExactly(c: Config)
    requires ConfigOk(c)
    ensures AlwaysRoom(c) <==> c.bits <= 7 || !CanSpread(c.pidHash, MAX_THREADS + 1)
  {
    if c.bits <= 7 || !CanSpread(c.pidHash, MAX_THREADS + 1) {
      forall steps: seq<Step>, i: nat | i < |steps| && AllRealSteps(steps)
        ensures RoomFor(c, steps, i)
      {
        EventsReal(steps, i);
        RoomAfter(c, EventsOf(steps, i));
      }
    } else {
      var pids: seq<int> :| |pids| == MAX_THREADS + 1 && Spread(c.pidHash, pids);
      NoRoom(c, pids);
    }
  }

  lemma {:induction false} EventsReal(steps: seq<Step>, k: nat)
    requires k <= |steps| && AllRealSteps(steps)
    ensures AllReal(EventsOf(steps, k))
  {
    if k > 0 {
      EventsReal(steps, k - 1);
      assert RealStep(steps[k - 1]);
    }
  }

  lemma RoomAfter(c: Config, evs: seq<Event>)
    requires ConfigOk(c) && AllReal(evs) && (c.bits <= 7 || !CanSpread(c.pidHash, MAX_THREADS + 1))
    ensures ActiveThreads(StateAfter(c, evs).table) <= MAX_THREADS
  {
    if c.bits <= 7 {
      AtMost128(c, evs);
    } else if ActiveThreads(StateAfter(c, evs).table) > MAX_THREADS {
      var t := StateAfter(c, evs).table;
      AlwaysSafe(c, evs);
      var pids := LivePids(t, c.pidHash, Pow2(c.bits), t.slots.Keys, MAX_THREADS + 1);
      assert false;
    }
  }

  /** A limit of at most 128 threads always leaves room. */
  lemma AtMost128(c: Config, evs: seq<Event>)
    requires ConfigOk(c) && AllReal(evs) && c.bits <= 7
    ensures ActiveThreads(StateAfter(c, evs).table) <= MAX_THREADS
  {
    ActiveHasMatrix(c, evs);
    Pow2Monotone(c.bits, 7);
    assert Pow2(7) == MAX_THREADS;
  }

  /** The pids of `n` of the given occupied slots. */
  lemma {:induction false} LivePids(t: Table, hash: PidHash, maxThreads: nat, keys: set<nat>, n: nat)
    returns (pids: seq<int>)
    requires Consistent(t, hash, maxThreads) && t.Table? && keys <= t.slots.Keys && |keys| >= n
    ensures |pids| == n && Spread(hash, pids) && forall i | 0 <= i < n :: hash(pids[i]) in keys
    decreases n
  {
    if n == 0 {
      return [];
    }
    var h :| h in keys;
    assert SlotOk(t, hash, h);
    var rest := LivePids(t, hash, maxThreads, keys - {h}, n - 1);
    pids := rest + [t.slots[h].pid];
  }

  /** One process start for every pid. */
  function Starts(pids: seq<int>, k: nat): seq<Event>
    requires k <= |pids|
  {
    if k == 0 then [] else Starts(pids, k - 1) + [Process(pids[k - 1], true, false)]
  }

  lemma {:induction false} StartsActivate(c: Config, pids: seq<int>, k: nat)
    requires Spread(c.pidHash, pids) && k <= |pids| <= Pow2(c.bits)
    ensures |Starts(pids, k)| == k
    ensures var t := StateAfter(c, Starts(pids, k)).table;
            && ActiveThreads(t) == NumThreads(t) == k && (k > 0 ==> t.Table?)
            && forall i | k <= i < |pids| :: t.Table? ==> c.pidHash(pids[i]) !in t.slots
  {
    if k > 0 {
      StartsActivate(c, pids, k - 1);
      assert Starts(pids, k)[..k - 1] == Starts(pids, k - 1);
      StartActivates(c, StateAfter(c, Starts(pids, k - 1)), pids, k - 1);
    }
  }

  lemma StartActivates(c: Config, s: State, pids: seq<int>, k: nat)
    requires Spread(c.pidHash, pids) && k < |pids| <= Pow2(c.bits)
    requires ActiveThreads(s.table) == NumThreads(s.table) == k && (k > 0 ==> s.table.Table?)
    requires forall i | k <= i < |pids| :: s.table.Table? ==> c.pidHash(pids[i]) !in s.table.slots
    ensures var t := ProcessStep(c, s, pids[k], true, false).table;
            && ActiveThreads(t) == NumThreads(t) == k + 1 && t.Table?
            && forall i | k + 1 <= i < |pids| :: c.pidHash(pids[i]) !in t.slots
  {
    var before := if k == 0 then CLEARED else s.table;
    AddTracks(before, c.pidHash, Pow2(c.bits), pids[k], pids[k]);
  }

  function AsSteps(evs: seq<Event>): (steps: seq<Step>)
    ensures |steps| == |evs| && forall i | 0 <= i < |evs| :: steps[i] == Handle(evs[i])
  {
    if evs == [] then [] else AsSteps(evs[..|evs| - 1]) + [Handle(evs[|evs| - 1])]
  }

  lemma {:induction false} EventsOfSteps(evs: seq<Event>, tail: seq<Step>, k: nat)
    requires k <= |evs|
    ensures EventsOf(AsSteps(evs) + tail, k) == evs[..k]
  {
    if k > 0 {
      EventsOfSteps(evs, tail, k - 1);
      assert evs[..k] == evs[..k - 1] + [evs[k - 1]];
    }
  }

  lemma {:induction false} StartsReal(pids: seq<int>, k: nat)
    requires k <= |pids| && forall i | 0 <= i < |pids| :: pids[i] > 0
    ensures AllReal(Starts(pids, k))
  {
    if k > 0 {
      StartsReal(pids, k - 1);
    }
  }

  /** One process too many for the mapping. */
  lemma NoRoom(c: Config, pids: seq<int>)
    requires ConfigOk(c) && c.bits > 7 && |pids| == MAX_THREADS + 1 && Spread(c.pidHash, pids)
    ensures !AlwaysRoom(c)
  {
    var evs := Starts(pids, |pids|);
    var steps := AsSteps(evs) + [Map];
    Pow2Monotone(8, c.bits);
    assert Pow2(8) == 256;
    StartsActivate(c, pids, |pids|);
    StartsReal(pids, |pids|);
    EventsOfSteps(evs, [Map], |evs|);
    assert evs[..|evs|] == evs;
    assert AllRealSteps(steps);
    assert !RoomFor(c, steps, |evs|);
  }
}
