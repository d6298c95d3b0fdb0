/** The pid table: a direct-mapped table from pids to thread ids, its reverse, and the
    counters of threads ever numbered and threads alive. */
module Pids {

  const PID_HASH_SIZE: nat := 16384

  type PidHash = int -> nat

  // ------------------------------------------------------- the table as a value

  /** A tracked process or thread. */
  datatype Entry = Entry(pid: int, tid: nat)

  /** Before the first clear the table is the zeroed memory of a fresh module; afterwards
      `slots` holds the live entries and `issued` the pids in the order of their thread ids. */
  datatype Table = Untouched | Table(slots: map<nat, Entry>, issued: seq<int>)

  const CLEARED := Table.Table(map[], [])

  function Tid(t: Table, hash: PidHash, pid: int): int {
    if t.Table? && hash(pid) in t.slots && t.slots[hash(pid)].pid == pid then t.slots[hash(pid)].tid else -1
  }

  predicate Full(t: Table, maxThreads: nat) {
    match t
    case Untouched => maxThreads == 0
    case Table(_, issued) => |issued| >= maxThreads
  }

  function Added(t: Table, hash: PidHash, maxThreads: nat, pid: int): Table {
    match t
    case Untouched => t
    case Table(slots, issued) =>
      if Full(t, maxThreads) || hash(pid) in slots then t
      else Table.Table(slots[hash(pid) := Entry(pid, |issued|)], issued + [pid])
  }

  function Deleted(t: Table, hash: PidHash, pid: int): Table {
    match t
    case Untouched => t
    case Table(slots, issued) => if Tid(t, hash, pid) == -1 then t else Table.Table(slots - {hash(pid)}, issued)
  }

  function NumThreads(t: Table): nat {
    if t.Table? then |t.issued| else 0
  }

  function ActiveThreads(t: Table): nat {
    if t.Table? then |t.slots| else 0
  }

  /** Every slot holds a pid that hashes there, under a thread id issued for it. */
  ghost predicate Consistent(t: Table, hash: PidHash, maxThreads: nat) {
    t.Table? ==>
      && |t.issued| <= maxThreads
      && (forall i | 0 <= i < |t.issued| :: t.issued[i] > 0)
      && forall h | h in t.slots :: SlotOk(t, hash, h)
  }

  ghost predicate SlotOk(t: Table, hash: PidHash, h: nat)
    requires t.Table? && h in t.slots
  {
    var e := t.slots[h];
    hash(e.pid) == h && e.tid < |t.issued| && t.issued[e.tid] == e.pid
  }

  datatype PidEvent = Add(pid: int) | Delete(pid: int) | Clear

  function Apply(t: Table, hash: PidHash, maxThreads: nat, ev: PidEvent): Table {
    match ev
    case Add(pid) => Added(t, hash, maxThreads, pid)
    case Delete(pid) => Deleted(t, hash, pid)
    case Clear => CLEARED
  }

  function ApplyAll(t: Table, hash: PidHash, maxThreads: nat, evs: seq<PidEvent>): Table {
    if evs == [] then t else Apply(ApplyAll(t, hash, maxThreads, evs[..|evs| - 1]), hash, maxThreads, evs[|evs| - 1])
  }

  ghost predicate PositivePids(evs: seq<PidEvent>) {
    forall i | 0 <= i < |evs| && evs[i].Add? :: evs[i].pid > 0
  }

  lemma AddedConsistent(t: Table, hash: PidHash, maxThreads: nat, pid: int)
    requires Consistent(t, hash, maxThreads) && pid > 0
    ensures Consistent(Added(t, hash, maxThreads, pid), hash, maxThreads)
  {
    var u := Added(t, hash, maxThreads, pid);
    if t.Table? && u != t {
      forall h | h in u.slots
        ensures SlotOk(u, hash, h)
      {
        if h != hash(pid) {
          assert SlotOk(t, hash, h);
        }
      }
    }
  }

  lemma DeletedConsistent(t: Table, hash: PidHash, maxThreads: nat, pid: int)
    requires Consistent(t, hash, maxThreads)
    ensures Consistent(Deleted(t, hash, pid), hash, maxThreads)
  {
    var u := Deleted(t, hash, pid);
    if t.Table? {
      forall h | h in u.slots
        ensures SlotOk(u, hash, h)
      {
        assert SlotOk(t, hash, h);
      }
    }
  }

  /** Any sequence of additions, deletions and clears keeps the table consistent. */
  lemma {:induction false} AlwaysConsistent(t: Table, hash: PidHash, maxThreads: nat, evs: seq<PidEvent>)
    requires Consistent(t, hash, maxThreads) && PositivePids(evs)
    ensures Consistent(ApplyAll(t, hash, maxThreads, evs), hash, maxThreads)
  {
    if evs != [] {
      var k := |evs| - 1;
      AlwaysConsistent(t, hash, maxThreads, evs[..k]);
      var u := ApplyAll(t, hash, maxThreads, evs[..k]);
      match evs[k] {
        case Add(pid) => AddedConsistent(u, hash, maxThreads, pid);
        case Delete(pid) => DeletedConsistent(u, hash, maxThreads, pid);
        case Clear =>
      }
    }
  }

  /** Live pids and live thread ids determine each other. */
  lemma LiveBijection(t: Table, hash: PidHash, maxThreads: nat, p: int, q: int)
    requires Consistent(t, hash, maxThreads) && t.Table? && Tid(t, hash, p) != -1
    ensures 0 <= Tid(t, hash, p) < |t.issued| && t.issued[Tid(t, hash, p)] == p
    ensures Tid(t, hash, q) == Tid(t, hash, p) ==> q == p
  {
    assert SlotOk(t, hash, hash(p));
    if Tid(t, hash, q) == Tid(t, hash, p) {
      assert SlotOk(t, hash, hash(q));
    }
  }

  /** Without a clear, thread ids once issued keep their pid and later ones get new numbers. */
  lemma {:induction false} NeverReissued(t: Table, hash: PidHash, maxThreads: nat, evs: seq<PidEvent>)
    requires t.Table? && forall i | 0 <= i < |evs| :: evs[i] != Clear
    ensures ApplyAll(t, hash, maxThreads, evs).Table? && t.issued <= ApplyAll(t, hash, maxThreads, evs).issued
  {
    if evs != [] {
      NeverReissued(t, hash, maxThreads, evs[..|evs| - 1]);
    }
  }

  /** There are never more live threads than numbers issued. */
  lemma ActiveAtMostIssued(t: Table, hash: PidHash, maxThreads: nat)
    requires Consistent(t, hash, maxThreads)
    ensures ActiveThreads(t) <= NumThreads(t) <= maxThreads
  {
    if t.Table? {
      forall g, h | g in t.slots && h in t.slots && t.slots[g].tid == t.slots[h].tid
        ensures g == h
      {
        assert SlotOk(t, hash, g) && SlotOk(t, hash, h);
      }
      forall h | h in t.slots
        ensures t.slots[h].tid < |t.issued|
      {
        assert SlotOk(t, hash, h);
      }
      DistinctTids(t.slots, |t.issued|);
    }
  }

  lemma {:induction false} DistinctTids(slots: map<nat, Entry>, n: nat)
    requires forall h | h in slots :: slots[h].tid < n
    requires forall g, h | g in slots && h in slots && slots[g].tid == slots[h].tid :: g == h
    ensures |slots| <= n
    decreases n
  {
    if n > 0 {
      if h :| h in slots && slots[h].tid == n - 1 {
        assert slots.Keys == (slots - {h}).Keys + {h};
        DistinctTids(slots - {h}, n - 1);
      } else {
        DistinctTids(slots, n - 1);
      }
    } else {
      assert slots.Keys == {};
    }
  }

  /** What a successful addition promises: the next thread id, and nothing else changes. */
  lemma AddTracks(t: Table, hash: PidHash, maxThreads: nat, pid: int, q: int)
    requires t.Table? && |t.issued| < maxThreads && hash(pid) !in t.slots
    ensures var u := Added(t, hash, maxThreads, pid);
            && Tid(u, hash, q) == (if q == pid then |t.issued| else Tid(t, hash, q))
            && ActiveThreads(u) == ActiveThreads(t) + 1 && NumThreads(u) == NumThreads(t) + 1
  {
  }

  lemma AddKeepsOthers(t: Table, hash: PidHash, maxThreads: nat, pid: int)
    ensures forall q: int | q != pid :: Tid(Added(t, hash, maxThreads, pid), hash, q) == Tid(t, hash, q)
  {
  }

  /** An addition changes nothing exactly when the numbers are used up, the slot is taken, or the table was
      never cleared. */
  lemma AddFails(t: Table, hash: PidHash, maxThreads: nat, pid: int)
    ensures Added(t, hash, maxThreads, pid) == t
            <==> t.Untouched? || |t.issued| >= maxThreads || hash(pid) in t.slots
  {
    if t.Table? && |t.issued| < maxThreads && hash(pid) !in t.slots {
      AddTracks(t, hash, maxThreads, pid, pid);
    }
  }

  /** Deleting a tracked pid untracks it, and nothing else changes. */
  lemma DeleteUntracks(t: Table, hash: PidHash, pid: int, q: int)
    requires Tid(t, hash, pid) != -1
    ensures var u := Deleted(t, hash, pid);
            && Tid(u, hash, q) == (if q == pid then -1 else Tid(t, hash, q))
            && ActiveThreads(u) == ActiveThreads(t) - 1 && NumThreads(u) == NumThreads(t)
  {
    assert t.slots.Keys == (t.slots - {hash(pid)}).Keys + {hash(pid)};
  }

  // ------------------------------------------------------- the table in memory

  /** A record of the two arrays; -1 marks an empty one. */
  datatype PidS = PidS(pid: int, tid: int)

  /** What `spcd_pid` holds at `h`. */
  function Forward(t: Table, h: nat): PidS {
    match t
    case Untouched => PidS(0, 0)
    case Table(slots, _) => if h in slots then PidS(slots[h].pid, slots[h].tid) else PidS(-1, -1)
  }

  /** What `spcd_pid_reverse` holds at `tid`. */
  function Reverse(t: Table, tid: nat): PidS {
    match t
    case Untouched => PidS(0, 0)
    case Table(_, issued) => if tid < |issued| then PidS(issued[tid], tid) else PidS(-1, -1)
  }

  class PidTable {
    const hash: PidHash
    const maxThreads: nat
    const forward: array<PidS>
    const reverse: array<PidS>
    var numThreads: nat
    var activeThreads: nat
    ghost var table: Table

    ghost predicate Sized() {
      && forward != reverse && forward.Length == PID_HASH_SIZE && reverse.Length == PID_HASH_SIZE
      && maxThreads <= PID_HASH_SIZE
      && forall p :: hash(p) < PID_HASH_SIZE
    }

    /** The arrays and counters show `table`. */
    ghost predicate Shows(t: Table)
      reads this, forward, reverse
    {
      && numThreads == NumThreads(t) && activeThreads == ActiveThreads(t)
      && (forall h | 0 <= h < forward.Length :: forward[h] == Forward(t, h))
      && forall i | 0 <= i < reverse.Length :: reverse[i] == Reverse(t, i)
    }

    ghost predicate Valid()
      reads this, forward, reverse
    {
      Sized() && Consistent(table, hash, maxThreads) && Shows(table)
    }

    /** The arrays start zeroed. */
    constructor (maxThreads: nat, hash: PidHash)
      requires maxThreads <= PID_HASH_SIZE && forall p :: hash(p) < PID_HASH_SIZE
      ensures Valid() && table == Untouched && this.maxThreads == maxThreads && this.hash == hash
      ensures fresh(forward) && fresh(reverse)
    {
      this.maxThreads, this.hash := maxThreads, hash;
      forward := new PidS[PID_HASH_SIZE](_ => PidS(0, 0));
      reverse := new PidS[PID_HASH_SIZE](_ => PidS(0, 0));
      numThreads, activeThreads, table := 0, 0, Untouched;
    }

    method Clear()
      requires Sized()
      modifies this`numThreads, this`activeThreads, this`table, forward, reverse
      ensures Valid() && table == CLEARED
    {
      for i := 0 to PID_HASH_SIZE
        invariant forall k | 0 <= k < i :: forward[k] == PidS(-1, -1) && reverse[k] == PidS(-1, -1)
      {
        forward[i] := PidS(-1, -1);
        reverse[i] := PidS(-1, -1);
      }
      numThreads, activeThreads, table := 0, 0, CLEARED;
    }

    /** A slot is free exactly when the cleared table has no entry in it. */
    lemma FreeSlot(h: nat)
      requires Valid() && h < PID_HASH_SIZE
      ensures forward[h].pid == -1 <==> table.Table? && h !in table.slots
    {
      if table.Table? && h in table.slots {
        SlotPositive(table, hash, maxThreads, h);
      }
    }

    /** Numbers a pid; fails when the numbers are used up or the slot is taken. */
    method AddPid(pid: int) returns (tid: int)
      requires Valid() && pid > 0
      modifies this`numThreads, this`activeThreads, this`table, forward, reverse
      ensures Valid() && table == Added(old(table), hash, maxThreads, pid)
      ensures if old(numThreads) < maxThreads && old(forward[hash(pid)].pid) == -1
              then tid == old(numThreads) == GetTid(pid) && numThreads == old(numThreads) + 1
                   && activeThreads == old(activeThreads) + 1
              else tid == -1 && table == old(table)
      ensures forall q: int | q > 0 && q != pid :: GetTid(q) == old(GetTid(q))
    {
      FreeSlot(hash(pid));
      AddedConsistent(table, hash, maxThreads, pid);
      AddKeepsOthers(table, hash, maxThreads, pid);
      if numThreads >= maxThreads {
        return -1;
      }
      var h := hash(pid);
      if forward[h].pid == -1 {
        numThreads := numThreads + 1;
        forward[h] := PidS(pid, numThreads - 1);
        activeThreads := activeThreads + 1;
        reverse[forward[h].tid] := forward[h];
        table := Added(table, hash, maxThreads, pid);
        return forward[h].tid;
      } else {
        return -1;
      }
    }

    method DeletePid(pid: int)
      requires Valid() && pid > 0
      modifies this`activeThreads, this`table, forward
      ensures Valid() && table == Deleted(old(table), hash, pid)
      ensures GetTid(pid) == -1 && numThreads == old(numThreads)
      ensures activeThreads == old(activeThreads) - (if old(GetTid(pid)) == -1 then 0 else 1)
      ensures forall q: int | q > 0 && q != pid :: GetTid(q) == old(GetTid(q))
    {
      DeletedConsistent(table, hash, maxThreads, pid);
      var h := hash(pid);
      var tid := forward[h].tid;
      if tid != -1 && forward[h].pid == pid {
        assert Tid(table, hash, pid) == tid;
        DeleteUntracks(table, hash, pid, pid);
        forward[h] := PidS(-1, -1);
        table := Deleted(table, hash, pid);
        activeThreads := activeThreads - 1;
      }
    }

    function GetPid(tid: nat): (pid: int)
      requires Valid() && tid < PID_HASH_SIZE
      reads this, forward, reverse
      ensures table.Table? ==> pid == if tid < |table.issued| then table.issued[tid] else -1
    {
      reverse[tid].pid
    }

    function GetTid(pid: int): (tid: int)
      requires Valid() && pid > 0
      reads this, forward, reverse
      ensures tid == Tid(table, hash, pid)
      ensures tid != -1 ==> 0 <= tid < numThreads && GetPid(tid) == pid
    {
      LiveAgrees(pid);
      var h := hash(pid);
      if forward[h].pid == pid then forward[h].tid else -1
    }

    lemma LiveAgrees(pid: int)
      requires Valid() && pid > 0
      ensures var tid := Tid(table, hash, pid);
              tid != -1 ==> 0 <= tid < numThreads <= PID_HASH_SIZE && GetPid(tid) == pid
    {
      if Tid(table, hash, pid) != -1 {
        LiveBijection(table, hash, maxThreads, pid, pid);
      }
    }
  }

  /** A live slot holds a positive pid. */
  lemma SlotPositive(t: Table, hash: PidHash, maxThreads: nat, h: nat)
    requires Consistent(t, hash, maxThreads) && t.Table? && h in t.slots
    ensures t.slots[h].pid > 0
  {
    assert SlotOk(t, hash, h);
  }
}
