/** The greedy mapping algorithm: thread groups are formed bottom-up by communication,
    then laid out top-down on the hardware tree. */
module GreedyMapping {
  import opened Arithmetic
  import opened Forest
  import opened Affinity
  import opened GreedyRule
  import opened Matrices
  import opened Graphs
  import opened TreeShape
  import opened Walks
  import opened Topologies

  const MAX_THREADS: nat := 128

  datatype GroupType = Thread | Group

  /** A pointer to `groups[level][index]`. */
  datatype GroupRef = GroupRef(level: nat, index: nat)

  datatype ThreadGroup = ThreadGroup(typ: GroupType, id: nat, nelements: nat, elements: seq<GroupRef>)

  function Refs(level: nat, es: seq<nat>): (rs: seq<GroupRef>)
    ensures |rs| == |es| && forall i | 0 <= i < |es| :: rs[i] == GroupRef(level, es[i])
  {
    if es == [] then [] else Refs(level, es[..|es| - 1]) + [GroupRef(level, es[|es| - 1])]
  }

  /** The arities of the levels with at least two children, from the root down. */
  function SharedOf(ars: seq<nat>): seq<nat> {
    if ars == [] then []
    else if ars[0] >= 2 then [ars[0]] + SharedOf(ars[1..])
    else SharedOf(ars[1..])
  }

  predicate IsShared(v: Vertex) {
    (v.typ == Root && |v.linked| >= 2) || |v.linked| > 2
  }

  class Mapper {
    var levelsN: nat
    var arities: seq<nat>
    var execEl: seq<nat>
    var groups: array2<ThreadGroup>
    const chosen: array<bool>
    const winners: array<nat>
    const matrix0: CommMatrix
    const matrix1: CommMatrix
    const topology: Topology

    /** Initialised for a machine whose shared levels have the arities `shared`. */
    ghost predicate Ready(shared: seq<nat>, bits: nat)
      reads this, matrix0, matrix1
    {
      && Shaped() && levelsN == |shared| + 1 <= |execEl|
      && (forall l | 1 <= l < levelsN :: execEl[l] == Capacity(shared, l))
      && matrix0.Valid() && matrix1.Valid() && matrix0.bits == matrix1.bits == bits
      && matrix0 != matrix1 && matrix0.cells != matrix1.cells
    }

    constructor Init(t: Topology, bits: nat, ghost ars: seq<nat>, ghost lab: Labels)
      requires t.Holds(ars, lab) && t.puNumber == Product(ars)
      requires ars != [] && forall i | 0 <= i < |ars| :: ars[i] >= 1
      ensures Ready(SharedOf(ars), bits) && topology == t
      ensures fresh(groups) && fresh(chosen) && fresh(winners)
      ensures fresh(matrix0) && fresh(matrix1) && fresh(matrix0.cells) && fresh(matrix1.cells)
    {
      topology := t;
      chosen := new bool[MAX_THREADS];
      winners := new nat[MAX_THREADS];
      matrix0 := new CommMatrix(bits);
      matrix1 := new CommMatrix(bits);
      groups := new ThreadGroup[0, 0];
      new;
      ghost var shared := SharedOf(ars);
      DetectLevels(ars, lab);
      SharedProduct(ars);
      ComputeCapacities(shared);
      Truncate(shared);
      groups := new ThreadGroup[levelsN, MAX_THREADS];
    }

    /** The two walks that count the shared levels and collect their arities. */
    method DetectLevels(ghost ars: seq<nat>, ghost lab: Labels)
      requires topology.Holds(ars, lab) && ars != [] && forall i | 0 <= i < |ars| :: ars[i] >= 1
      modifies this`levelsN, this`arities
      ensures levelsN == |SharedOf(ars)| + 2 == |arities| && arities[0] == arities[1] == 1
      ensures forall l | 2 <= l < levelsN :: arities[l] == Arity(SharedOf(ars), l)
    {
      ghost var shared := SharedOf(ars);
      levelsN := CountSharedLevels(topology, ars, lab);
      var start := seq(levelsN, i => if i < 2 then 1 else 0);
      arities := CollectArities(topology, start, ars, lab);
      forall l: nat | l < levelsN
        ensures arities[l] == if l < 2 then 1 else Arity(shared, l)
      {
        FilledAt(start, levelsN - 1, shared, l);
      }
    }

    /** Number of hardware units of every level, from the processing units up. */
    method ComputeCapacities(ghost shared: seq<nat>)
      requires levelsN == |shared| + 2 == |arities| && arities[1] == 1
      requires forall l | 2 <= l < levelsN :: arities[l] == Arity(shared, l) && arities[l] >= 1
      requires topology.puNumber == Product(shared)
      modifies this`execEl
      ensures |execEl| == levelsN && forall l | 1 <= l < levelsN :: execEl[l] == Capacity(shared, l)
    {
      execEl := seq(levelsN, _ => 0);
      execEl := execEl[0 := topology.puNumber];
      for i := 1 to levelsN
        invariant |execEl| == levelsN && execEl[0] == topology.puNumber
        invariant forall l | 1 <= l < i :: execEl[l] == Capacity(shared, l)
      {
        if i == 1 {
          assert shared[..|shared|] == shared;
        } else {
          CapacityStep(shared, i);
          DivModOf(Capacity(shared, i), Arity(shared, i), 0);
        }
        execEl := execEl[i := execEl[i - 1] / arities[i]];
      }
    }

    /** Drops the levels above the first one that has a single unit. */
    method Truncate(ghost shared: seq<nat>)
      requires levelsN == |shared| + 2 == |execEl| && forall i | 0 <= i < |shared| :: shared[i] >= 2
      requires forall l | 1 <= l < levelsN :: execEl[l] == Capacity(shared, l)
      modifies this`levelsN
      ensures levelsN == |shared| + 1
    {
      for i := levelsN downto 1
        invariant levelsN == if i <= |shared| + 1 then |shared| + 1 else |shared| + 2
      {
        CapacityOne(shared, i);
        if execEl[i] == 1 {
          levelsN := i;
        }
      }
    }

    ghost predicate Shaped()
      reads this
    {
      && chosen.Length == winners.Length == MAX_THREADS
      && groups.Length0 == levelsN >= 1 && groups.Length1 == MAX_THREADS
    }

    /** Finds the free element that communicates most with the first `i` winners. */
    method FindWinner(m: CommMatrix, total: nat, i: nat, ghost taken: set<nat>) returns (winner: nat)
      requires Shaped() && m.Valid() && total <= MAX_THREADS && total <= Pow2(m.bits) && m.Defined(total)
      requires i <= total && forall k | 0 <= k < i :: winners[k] < total && winners[k] in taken
      requires forall j: nat | j < total :: chosen[j] <==> j in taken
      requires exists j: nat :: j < total && j !in taken
      ensures IsPick(m.Values(), total, taken, winners[..i], winner)
      ensures winner < total && winner !in taken
      ensures forall j: nat | j < total && j !in taken ::
                && Row(m.Values(), j, winners[..i]) <= Row(m.Values(), winner, winners[..i])
                && (j < winner ==> Row(m.Values(), j, winners[..i]) < Row(m.Values(), winner, winners[..i]))
    {
      ghost var w0, prior := m.Values(), winners[..i];
      var wmax: int := -1;
      winner := 0;
      for j := 0 to total
        invariant wmax == -1 ==> forall e: nat | e < j :: e in taken
        invariant wmax != -1 ==> winner < j && winner !in taken && wmax == Row(w0, winner, prior)
        invariant wmax != -1 ==> forall e: nat | e < j && e !in taken ::
                    Row(w0, e, prior) <= wmax && (e < winner ==> Row(w0, e, prior) < wmax)
        invariant -1 <= wmax
      {
        if !chosen[j] {
          var w: int := 0;
          for k := 0 to i
            invariant w == Row(w0, j, prior[..k])
            invariant 0 <= w <= k * 0xFFFF_FFFF
          {
            assert prior[..k + 1][..k] == prior[..k] && prior[..k + 1][k] == winners[k];
            w := w + m.Get(j, winners[k]);
          }
          assert prior[..i] == prior;
          if w > wmax {
            wmax := w;
            winner := j;
          }
        }
      }
    }

    /** The elements below `total` marked as chosen are those listed in `order`. */
    ghost predicate Marks(order: seq<nat>, total: nat)
      requires total <= chosen.Length
      reads chosen
    {
      forall j: nat | j < total :: chosen[j] <==> j in Elems(order)
    }

    twostate predicate OtherGroupsKept(level: nat, gi: nat)
      reads this, groups
    {
      groups == old(groups) && groups.Length0 == levelsN == old(levelsN) && groups.Length1 == MAX_THREADS
      && forall l, k | 0 <= l < levelsN && 0 <= k < MAX_THREADS && (l != level || k != gi) ::
           groups[l, k] == old(groups[l, k])
    }

    /** Marks the next greedy choice after `group` and appends it to group `gi` of `level`. */
    method AddElement(m: CommMatrix, total: nat, i: nat, level: nat, gi: nat, ghost done: seq<nat>,
                      ghost group: seq<nat>)
      returns (winner: nat)
      requires Shaped() && m.Valid() && total <= MAX_THREADS && total <= Pow2(m.bits) && m.Defined(total)
      requires 1 <= level < levelsN && gi < MAX_THREADS && i == |group| && |done + group| < total
      requires Growing(m.Values(), total, done, group) && winners[..i] == group
      modifies chosen, winners, groups
      ensures Growing(m.Values(), total, done, group + [winner]) && winners[..i + 1] == group + [winner]
      ensures groups[level, gi] ==
                var g := old(groups[level, gi]); g.(elements := g.elements + [GroupRef(level - 1, winner)])
      ensures OtherGroupsKept(level, gi)
    {
      FreeElementExists(done, group, total);
      assert forall k | 0 <= k < i :: winners[k] == winners[..i][k];
      winner := FindWinner(m, total, i, Elems(done + group));
      Chosen(m.Values(), total, done, group, winner);
      chosen[winner] := true;
      winners[i] := winner;
      groups[level, gi] := groups[level, gi].(elements := groups[level, gi].elements + [GroupRef(level - 1, winner)]);
    }

    /** `group` is a greedy group after `done`, and exactly those elements are marked as chosen. */
    ghost predicate Growing(w: Weights, total: nat, done: seq<nat>, group: seq<nat>)
      requires total <= chosen.Length
      reads chosen
    {
      Lists(done + group, total) && Marks(done + group, total) && IsGreedyGroup(w, total, Elems(done), group)
    }

    /** Fills group `gi` of `level` with `size` elements, one greedy choice after the other. */
    method GenerateGroup(m: CommMatrix, total: nat, size: nat, level: nat, gi: nat, ghost done: seq<nat>)
      returns (ghost group: seq<nat>)
      requires Shaped() && m.Valid() && total <= MAX_THREADS && total <= Pow2(m.bits) && m.Defined(total)
      requires 1 <= level < levelsN && gi < MAX_THREADS && groups[level, gi].elements == []
      requires Lists(done, total) && |done| + size <= total && Marks(done, total)
      modifies chosen, winners, groups
      ensures |group| == size && Growing(m.Values(), total, done, group)
      ensures groups[level, gi] == old(groups[level, gi]).(elements := Refs(level - 1, group))
      ensures OtherGroupsKept(level, gi)
    {
      group := [];
      assert done + group == done;
      for i := 0 to size
        invariant |group| == i && winners[..i] == group && Growing(m.Values(), total, done, group)
        invariant groups[level, gi] == old(groups[level, gi]).(elements := Refs(level - 1, group))
        invariant OtherGroupsKept(level, gi)
      {
        var winner := AddElement(m, total, i, level, gi, done, group);
        RefsSnoc(level - 1, group, winner);
        group := group + [winner];
      }
    }

    /** Groups of `level` stand in the table as `gs` lists them. */
    ghost predicate Stored(level: nat, gs: Grouping)
      requires Shaped() && 1 <= level < levelsN && |gs| <= MAX_THREADS
      reads this, groups
    {
      forall g | 0 <= g < |gs| :: groups[level, g] == ThreadGroup(Group, g, |gs[g]|, Refs(level - 1, gs[g]))
    }

    /** The first `|gs|` groups of `level` are complete: greedy, in the table, and marked as chosen. */
    ghost predicate Formed(w: Weights, n: nat, level: nat, gs: Grouping)
      requires Shaped() && 1 <= level < levelsN && n <= MAX_THREADS
      reads this, groups, chosen
    {
      && |gs| <= MAX_THREADS && Stored(level, gs)
      && Lists(Flatten(gs), n) && Marks(Flatten(gs), n) && IsGreedy(w, n, gs)
    }

    twostate predicate OtherLevelsKept(level: nat)
      reads this, groups
    {
      groups == old(groups) && groups.Length0 == levelsN == old(levelsN) && groups.Length1 == MAX_THREADS
      && forall l, k | 0 <= l < levelsN && 0 <= k < MAX_THREADS && l != level :: groups[l, k] == old(groups[l, k])
    }

    /** Forms the next group, with `size` elements. */
    method FormGroup(m: CommMatrix, n: nat, size: nat, level: nat, ghost gs: Grouping, groupI: nat)
      returns (ghost group: seq<nat>)
      requires Shaped() && m.Valid() && n <= MAX_THREADS && n <= Pow2(m.bits) && m.Defined(n)
      requires 1 <= level < levelsN && groupI == |gs| < MAX_THREADS && |Flatten(gs)| + size <= n
      requires Formed(m.Values(), n, level, gs)
      modifies chosen, winners, groups
      ensures |group| == size && Formed(m.Values(), n, level, gs + [group])
      ensures |Flatten(gs + [group])| == |Flatten(gs)| + size
      ensures OtherLevelsKept(level)
    {
      groups[level, groupI] := ThreadGroup(Group, groupI, size, []);
      group := GenerateGroup(m, n, size, level, groupI, Flatten(gs));
      GreedySnoc(m.Values(), n, gs, group);
    }

    method FormSized(m: CommMatrix, n: nat, size: nat, level: nat, ghost gs: Grouping, groupI: nat,
                     ghost elPerGroup: nat, ghost extra: nat) returns (ghost more: Grouping)
      requires Shaped() && m.Valid() && n <= MAX_THREADS && n <= Pow2(m.bits) && m.Defined(n)
      requires 1 <= level < levelsN && groupI == |gs| < MAX_THREADS && |Flatten(gs)| + size <= n
      requires Formed(m.Values(), n, level, gs) && Sized(gs, elPerGroup, extra)
      requires size == elPerGroup + (if groupI < extra then 1 else 0)
      modifies chosen, winners, groups
      ensures |more| == |gs| + 1 && Formed(m.Values(), n, level, more) && Sized(more, elPerGroup, extra)
      ensures |Flatten(more)| == |Flatten(gs)| + size
      ensures OtherLevelsKept(level)
    {
      ghost var group := FormGroup(m, n, size, level, gs, groupI);
      SizedSnoc(gs, group, elPerGroup, extra);
      more := gs + [group];
    }

    /** Forms `ngroups` groups of `elPerGroup` elements, the first `extra` of them with one more. */
    method FormGroups(m: CommMatrix, nelements: nat, level: nat, ngroups: nat, elPerGroup: nat, extra: nat)
      returns (ghost gs: Grouping)
      requires Shaped() && m.Valid() && nelements <= MAX_THREADS && nelements <= Pow2(m.bits) && m.Defined(nelements)
      requires 1 <= level < levelsN && ngroups <= MAX_THREADS
      requires elPerGroup >= 1 && extra < ngroups && Times(ngroups, elPerGroup) + extra == nelements
      modifies chosen, winners, groups
      ensures |gs| == ngroups && Sized(gs, elPerGroup, extra)
      ensures Formed(m.Values(), nelements, level, gs) && |Flatten(gs)| == nelements
      ensures OtherLevelsKept(level)
    {
      var leftover, groupI := extra, 0;
      ClearChosen(nelements);
      gs := [];
      var done := 0;
      while done < nelements
        invariant |gs| == groupI && done == |Flatten(gs)|
        invariant Tally(groupI, done, leftover, ngroups, elPerGroup, extra)
        invariant Sized(gs, elPerGroup, extra)
        invariant Formed(m.Values(), nelements, level, gs)
        invariant OtherLevelsKept(level)
        decreases nelements - done
      {
        TallyStep(groupI, done, leftover, ngroups, elPerGroup, extra);
        var inGroup := elPerGroup;
        if leftover > 0 {
          inGroup := inGroup + 1;
          leftover := leftover - 1;
        }
        gs := FormSized(m, nelements, inGroup, level, gs, groupI, elPerGroup, extra);
        groupI := groupI + 1;
        done := done + inGroup;
      }
      TallyEnd(groupI, done, leftover, ngroups, elPerGroup, extra);
    }

    method ClearChosen(nelements: nat)
      requires nelements <= chosen.Length
      modifies chosen
      ensures Marks([], nelements)
    {
      for i := 0 to nelements
        invariant forall k | 0 <= k < i :: !chosen[k]
      {
        chosen[i] := false;
      }
    }

    /** Splits all elements into as many groups as the level has units. */
    method GenerateGroups(m: CommMatrix, nelements: nat, level: nat) returns (ngroups: nat, ghost gs: Grouping)
      requires Shaped() && m.Valid() && 1 <= nelements <= MAX_THREADS && nelements <= Pow2(m.bits)
               && m.Defined(nelements)
      requires 1 <= level < levelsN && level < |execEl| && execEl[level] >= 1
      modifies chosen, winners, groups
      ensures ngroups == Min(nelements, execEl[level])
      ensures |gs| == ngroups && forall g | 0 <= g < ngroups ::
                |gs[g]| == nelements / ngroups + (if g < nelements % ngroups then 1 else 0)
      ensures Balanced(gs, nelements, ngroups) && Partition(gs, nelements) && IsGreedy(m.Values(), nelements, gs)
      ensures Stored(level, gs)
      ensures forall l, k | 0 <= l < levelsN && 0 <= k < MAX_THREADS && l != level :: groups[l, k] == old(groups[l, k])
    {
      var avlGroups := execEl[level];
      ngroups := if nelements > avlGroups then avlGroups else nelements;
      var elPerGroup, leftover := nelements / ngroups, nelements % ngroups;
      Shares(nelements, ngroups);
      gs := FormGroups(m, nelements, level, ngroups, elPerGroup, leftover);
      FlatPartition(gs, nelements);
    }

    /** Elements of a level carry their position as id. */
    ghost predicate Numbered(below: nat, n: nat)
      requires Shaped() && below < levelsN && n <= MAX_THREADS
      reads this, groups
    {
      forall e | 0 <= e < n :: groups[below, e].id == e
    }

    /** Communication between groups `i` and `j` of `level`, read from the matrix of the level below. */
    method PairWeight(source: CommMatrix, level: nat, i: nat, j: nat, n: nat, ghost gs: Grouping) returns (w: nat)
      requires Shaped() && 1 <= level < levelsN && n <= MAX_THREADS && |gs| <= MAX_THREADS && i < |gs| && j < |gs|
               && i != j
      requires Stored(level, gs) && Numbered(level - 1, n) && Partition(gs, n)
      requires source.Valid() && source.Defined(n) && n <= Pow2(source.bits)
      ensures w == Total(source.Values(), gs[i], gs[j])
    {
      ghost var w0, s, t := source.Values(), gs[i], gs[j];
      w := 0;
      for k := 0 to groups[level, i].nelements
        invariant w == Total(w0, s[..k], t)
      {
        assert s[..k + 1][..k] == s[..k];
        for z := 0 to groups[level, j].nelements
          invariant w == Total(w0, s[..k], t) + Row(w0, s[k], t[..z])
        {
          assert t[..z + 1][..z] == t[..z];
          assert Holds(gs, i, k, s[k]) && Holds(gs, j, z, t[z]);
          var a, b := groups[level, i].elements[k], groups[level, j].elements[z];
          w := w + source.Get(groups[a.level, a.index].id, groups[b.level, b.index].id);
        }
        assert t[..|t|] == t;
      }
      assert s[..|s|] == s;
    }

    /** Computes and stores one cell of the matrix of `level`. */
    method WritePair(source: CommMatrix, level: nat, i: nat, j: nat, m: CommMatrix, n: nat, ghost gs: Grouping)
      requires Shaped() && 1 <= level < levelsN && n <= MAX_THREADS && |gs| <= MAX_THREADS && i < j < |gs|
      requires Stored(level, gs) && Numbered(level - 1, n) && Partition(gs, n)
      requires source.Valid() && source.Defined(n) && n <= Pow2(source.bits)
      requires m.Valid() && |gs| <= Pow2(m.bits) && m != source && m.cells != source.cells
      modifies m`written, m.cells
      ensures m.Valid() && CellDone(m, source.Values(), gs, i, j)
      ensures forall a: nat, b: nat {:trigger CellDone(m, source.Values(), gs, a, b)} |
                a < b < |gs| && old(CellDone(m, source.Values(), gs, a, b)) :: CellDone(m, source.Values(), gs, a, b)
    {
      var w := PairWeight(source, level, i, j, n, gs);
      m.Set(i, j, Wrap(w));
      assert m.Values()(i, j) == Wrap(w);
      forall a: nat, b: nat | a < b < |gs| && old(CellDone(m, source.Values(), gs, a, b))
        ensures CellDone(m, source.Values(), gs, a, b)
      {
        if a != i || b != j {
          assert a in {a, b} && b in {a, b};
        }
      }
    }

    /** Fills the matrix of `level`; it never reads the matrix it writes. */
    method RecreateMatrix(source: CommMatrix, level: nat, ngroups: nat, m: CommMatrix, n: nat, ghost gs: Grouping)
      requires Shaped() && 1 <= level < levelsN && n <= MAX_THREADS && 1 <= ngroups == |gs| <= MAX_THREADS
      requires Stored(level, gs) && Numbered(level - 1, n) && Partition(gs, n)
      requires source.Valid() && source.Defined(n) && n <= Pow2(source.bits)
      requires m.Valid() && ngroups <= Pow2(m.bits) && m != source && m.cells != source.cells
      modifies m, m.cells
      ensures m.Valid() && m.nthreads == ngroups && m.Defined(ngroups)
      ensures Coarsens(source.Values(), gs, m.Values())
    {
      m.nthreads := ngroups;
      for i := 0 to ngroups - 1
        invariant m.Valid() && m.nthreads == ngroups
        invariant forall a: nat, b: nat | a < i && a < b < ngroups :: CellDone(m, source.Values(), gs, a, b)
      {
        for j := i + 1 to ngroups
          invariant m.Valid() && m.nthreads == ngroups
          invariant forall a: nat, b: nat | a < b < ngroups && (a < i || (a == i && b < j)) ::
                      CellDone(m, source.Values(), gs, a, b)
        {
          WritePair(source, level, i, j, m, n, gs);
        }
      }
      AllCellsDone(source, m, gs);
    }

    // ------------------------------------------------------------- the layout

    /** The table holds the forest below the root group. */
    ghost predicate Built(f: Levels)
      requires Shaped()
      reads this, groups
    {
      && |f| == levelsN + 1 && (forall l | 0 <= l < levelsN :: |f[l]| <= MAX_THREADS)
      && (forall t | 0 <= t < |f[0]| :: groups[0, t].typ == Thread && groups[0, t].id == t)
      && (forall l | 1 <= l < levelsN :: Stored(l, f[l]))
      && (forall l, g | 1 <= l < |f| && 0 <= g < |f[l]| :: f[l][g] != [])
    }

    /** Maps the threads of a level 1 group to the processing unit `v`. */
    method MapToPu(v: Vertex, g: ThreadGroup, map': array<nat>, ghost f: Levels, ghost shared: seq<nat>, ghost gi: nat,
                   ghost lab: Labels, ghost base: nat)
      requires Shaped() && Fits(f, shared) && Built(f) && gi < |f[1]| && IsGroup(g, f, 1, gi)
      requires |f[0]| <= map'.Length && map' != winners && v.id == PuId(lab, base)
      modifies map'
      ensures map'[..] == Layout(old(map'[..]), f, shared, 1, gi, lab, base)
    {
      assert g.nelements > 0;
      assert groups[g.elements[0].level, g.elements[0].index].typ == Thread by {
        assert Holds(f[1], gi, 0, f[1][gi][0]);
      }
      ghost var es, before := f[1][gi], map'[..];
      for i := 0 to g.nelements
        invariant map'[..] == LayoutThreads(before, es[..i], v.id)
      {
        assert Holds(f[1], gi, i, es[i]);
        assert es[..i + 1][..i] == es[..i];
        var r := g.elements[i];
        map'[groups[r.level, r.index].id] := v.id;
      }
      assert es[..|es|] == es;
      ThreadsLaidOut(before, f, shared, gi, lab, base);
    }

    /** Where element `i` of a group is found in the table. */
    lemma ElementRef(g: ThreadGroup, f: Levels, shared: seq<nat>, l: nat, gi: nat, i: nat)
      requires Shaped() && Fits(f, shared) && Built(f) && 2 <= l < |f| && gi < |f[l]| && i < |f[l][gi]|
               && IsGroup(g, f, l, gi)
      ensures f[l][gi][i] < |f[l - 1]| <= MAX_THREADS
      ensures g.elements[i] == GroupRef(l - 1, f[l][gi][i])
      ensures IsGroup(groups[l - 1, f[l][gi][i]], f, l - 1, f[l][gi][i])
    {
      assert Holds(f[l], gi, i, f[l][gi][i]);
      assert Stored(l - 1, f[l - 1]);
    }

    /** Group `gi` of level `l` has been brought to the subtree at `s`. */
    ghost predicate Carried(g: ThreadGroup, s: Spot, ars: seq<nat>, lab: Labels, typ: ElType, up: seq<Link>,
                            f: Levels, shared: seq<nat>, l: nat, gi: nat)
      reads this, groups, topology, topology.graph, topology.graph.vertices, topology.graph.edges
    {
      && Shaped() && Fits(f, shared) && Built(f)
      && Subtree(topology.graph.vertices[..], topology.graph.edges[..], s, ars, lab, typ, up)
      && Entered(s, ars, typ, up) && (forall i | 0 <= i < |ars| :: ars[i] >= 1)
      && l == |SharedOf(ars)| + 1 < |f| && SharedOf(ars) == shared[|shared| + 1 - l..]
      && gi < |f[l]| && IsGroup(g, f, l, gi)
    }

    /** Group `gi` of level `l` has been brought to the shared vertex at `s`. */
    ghost predicate Brought(vertex: Vertex, g: ThreadGroup, s: Spot, ars: seq<nat>, lab: Labels, typ: ElType,
                            up: seq<Link>, f: Levels, shared: seq<nat>, l: nat, gi: nat)
      reads this, groups, topology, topology.graph, topology.graph.vertices, topology.graph.edges
    {
      && Shaped() && Fits(f, shared) && Built(f)
      && Subtree(topology.graph.vertices[..], topology.graph.edges[..], s, ars, lab, typ, up)
      && vertex == topology.graph.vertices[..][s.pos]
      && Entered(s, ars, typ, up) && ChildLevel(ars, shared, l) && l < |f|
      && gi < |f[l]| && IsGroup(g, f, l, gi)
    }

    /** The loop over the elements of a group whose vertex is shared: element `i` goes to child `i`. */
    method MapShared(v: nat, from: Option<nat>, vertex: Vertex, g: ThreadGroup, map': array<nat>, level: nat,
                     ghost s: Spot, ghost ars: seq<nat>, ghost lab: Labels, ghost typ: ElType, ghost up: seq<Link>,
                     ghost f: Levels, ghost shared: seq<nat>, ghost l: nat, ghost gi: nat)
      requires Brought(vertex, g, s, ars, lab, typ, up, f, shared, l, gi) && v == s.pos
      requires |f[0]| <= map'.Length && map' != winners && from == (if up == [] then None else Some(up[0].v))
      modifies map'
      ensures map'[..] == Layout(old(map'[..]), f, shared, l, gi, lab, s.leaf)
      decreases |ars|, 1
    {
      ghost var es, before := f[l][gi], map'[..];
      RoomForGroup(topology.graph.vertices[..], topology.graph.edges[..], s, ars, lab, typ, up, shared, l);
      assert g.nelements <= ChildCount(vertex);
      for i := 0 to g.nelements
        invariant Brought(vertex, g, s, ars, lab, typ, up, f, shared, l, gi)
        invariant map'[..] == LayoutKids(before, f, shared, l, gi, lab, s, ars, i)
      {
        MapElement(v, from, vertex, g, map', level, i, s, ars, lab, typ, up, f, shared, l, gi);
      }
      KidsLaidOut(before, f, shared, l, gi, lab, s, ars);
    }

    /** Element `i` of the group is brought to child `i` of the vertex. */
    lemma Descends(vertex: Vertex, g: ThreadGroup, s: Spot, ars: seq<nat>, lab: Labels, typ: ElType, up: seq<Link>,
                   f: Levels, shared: seq<nat>, l: nat, gi: nat, i: nat)
      requires Brought(vertex, g, s, ars, lab, typ, up, f, shared, l, gi) && i < |f[l][gi]|
      ensures i < |vertex.linked| && i < |g.elements|
      ensures vertex.linked[i].v == Child(s, ars, i).pos && (up != [] ==> vertex.linked[i].v != up[0].v)
      ensures f[l][gi][i] < MAX_THREADS && g.elements[i] == GroupRef(l - 1, f[l][gi][i])
      ensures Carried(groups[l - 1, f[l][gi][i]], Child(s, ars, i), ars[1..], LabelsBelow(lab), NodeType(ars[1..]),
                      [Link(ChildEdge(s, ars, i), s.pos)], f, shared, l - 1, f[l][gi][i])
    {
      DownLink(topology.graph.vertices[..], topology.graph.edges[..], s, ars, lab, typ, up, i, f[l][gi], shared, l);
      ElementRef(g, f, shared, l, gi, i);
    }

    /** One round of that loop: follows link `i`, which is never the upward link. */
    method MapElement(v: nat, from: Option<nat>, vertex: Vertex, g: ThreadGroup, map': array<nat>, level: nat, i: nat,
                      ghost s: Spot, ghost ars: seq<nat>, ghost lab: Labels, ghost typ: ElType, ghost up: seq<Link>,
                      ghost f: Levels, ghost shared: seq<nat>, ghost l: nat, ghost gi: nat)
      requires Brought(vertex, g, s, ars, lab, typ, up, f, shared, l, gi) && v == s.pos && i < |f[l][gi]|
      requires |f[0]| <= map'.Length && map' != winners && from == (if up == [] then None else Some(up[0].v))
      modifies map'
      ensures map'[..] == Layout(old(map'[..]), f, shared, l - 1, f[l][gi][i], LabelsBelow(lab), Child(s, ars, i).leaf)
      decreases |ars|, 0
    {
      Descends(vertex, g, s, ars, lab, typ, up, f, shared, l, gi, i);
      var link := vertex.linked[i];
      if Some(link.v) != from {
        var r := g.elements[i];
        MapGroups(link.v, Some(v), groups[r.level, r.index], map', level + 1,
                  Child(s, ars, i), ars[1..], LabelsBelow(lab), NodeType(ars[1..]), [Link(ChildEdge(s, ars, i), s.pos)],
                  f, shared, l - 1, f[l][gi][i]);
      } else {
        assert false;
      }
    }

    /** Lays group `gi` of level `l` out on the subtree at `v`. */
    method MapGroups(v: nat, from: Option<nat>, g: ThreadGroup, map': array<nat>, level: nat,
                     ghost s: Spot, ghost ars: seq<nat>, ghost lab: Labels, ghost typ: ElType, ghost up: seq<Link>,
                     ghost f: Levels, ghost shared: seq<nat>, ghost l: nat, ghost gi: nat)
      requires Carried(g, s, ars, lab, typ, up, f, shared, l, gi) && v == s.pos
      requires |f[0]| <= map'.Length && map' != winners && from == (if up == [] then None else Some(up[0].v))
      modifies map'
      ensures map'[..] == Layout(old(map'[..]), f, shared, l, gi, lab, s.leaf)
      decreases |ars|, 2
    {
      var vertex := topology.graph.vertices[v];
      assert vertex == topology.graph.vertices[..][v];
      if vertex.typ == Pu {
        MapToPu(vertex, g, map', f, shared, gi, lab, s.leaf);
      } else if IsShared(vertex) {
        SharedTop(s, ars, typ, up, lab, shared, l);
        MapShared(v, from, vertex, g, map', level, s, ars, lab, typ, up, f, shared, l, gi);
      } else {
        SkipLevel(s, ars, typ, up, lab);
        LinkAt(s, ars, up, 0);
        assert ChildOk(topology.graph.vertices[..], topology.graph.edges[..], s, ars, lab, 0);
        var next;
        if vertex.typ == Root {
          assert |vertex.linked| == 1;
          next := vertex.linked[0].v;
        } else {
          // the upward link comes last, so the first link is never the one just followed
          assert |vertex.linked| == 2;
          next := vertex.linked[0].v;
          if Some(next) == from {
            assert false;
          }
        }
        LayoutBelow(map'[..], f, shared, l, gi, lab, s.leaf);
        MapGroups(next, Some(v), g, map', level + 1,
                  Child(s, ars, 0), ars[1..], LabelsBelow(lab), NodeType(ars[1..]), [Link(ChildEdge(s, ars, 0), s.pos)],
                  f, shared, l, gi);
      }
    }

    // ------------------------------------------------------- one mapping round

    /** The table holds the levels built so far. */
    ghost predicate Partial(f: Levels)
      requires Shaped()
      reads this, groups
    {
      && 1 <= |f| <= levelsN && (forall l | 0 <= l < |f| :: |f[l]| <= MAX_THREADS)
      && (forall t | 0 <= t < |f[0]| :: groups[0, t].typ == Thread && groups[0, t].id == t)
      && (forall l | 1 <= l < |f| :: Stored(l, f[l]))
    }

    /** `m` holds the communication between the elements of the topmost level of `f`. */
    ghost predicate Source(m: CommMatrix, w: Weights, f: Levels, bits: nat)
      reads m, m.cells
    {
      && f != [] && m.Valid() && m.bits == bits
      && var n := |f[|f| - 1]|; n <= Pow2(bits) && m.Defined(n) && Agrees(m.Values(), LevelWeights(w, f, |f| - 1), n)
    }

    method InitThreads(n: nat)
      requires Shaped() && n <= MAX_THREADS
      modifies groups
      ensures forall t | 0 <= t < n :: groups[0, t].typ == Thread && groups[0, t].id == t
    {
      for i := 0 to n
        invariant forall t | 0 <= t < i :: groups[0, t].typ == Thread && groups[0, t].id == t
      {
        groups[0, i] := groups[0, i].(typ := Thread, id := i, nelements := 0);
      }
    }

    /** Groups the elements of level `i - 1` by the matrix `m`. */
    method GroupLevel(m: CommMatrix, nelements: nat, i: nat, ghost w: Weights, ghost f: Levels,
                      ghost shared: seq<nat>, ghost bits: nat)
      returns (ngroups: nat, ghost gs: Grouping)
      requires Ready(shared, bits) && Partial(f) && 1 <= i == |f| < levelsN && nelements == |f[i - 1]| >= 1
      requires GreedyLevels(w, f, shared) && (forall k | 0 <= k < |shared| :: shared[k] >= 1) && Source(m, w, f, bits)
      modifies groups, chosen, winners
      ensures Partial(f + [gs]) && GreedyLevels(w, f + [gs], shared) && 1 <= ngroups == |gs| <= nelements
              && Partition(gs, nelements)
      ensures Numbered(i - 1, nelements)
    {
      CapacityPositive(shared, i);
      ngroups, gs := GenerateGroups(m, nelements, i);
      AddLevel(w, f, shared, gs, m.Values());
      assert Numbered(i - 1, nelements) by {
        assert i > 1 ==> Stored(i - 1, f[i - 1]);
      }
    }

    /** One round of the bottom-up loop: groups the elements of level `i - 1` by the matrix `m`
        and, unless this was the last level, fills the buffer `next` for the level above. */
    method BuildLevel(m: CommMatrix, nelements: nat, i: nat, next: CommMatrix,
                      ghost w: Weights, ghost f: Levels, ghost shared: seq<nat>, ghost bits: nat)
      returns (ngroups: nat, ghost gs: Grouping)
      requires Ready(shared, bits) && Partial(f) && 1 <= i == |f| < levelsN && nelements == |f[i - 1]| >= 1
      requires GreedyLevels(w, f, shared) && (forall k | 0 <= k < |shared| :: shared[k] >= 1) && Source(m, w, f, bits)
      requires next != m && next.cells != m.cells && next in {matrix0, matrix1}
      modifies groups, chosen, winners, next, next.cells
      ensures Ready(shared, bits) && Partial(f + [gs]) && GreedyLevels(w, f + [gs], shared) && ngroups == |gs| >= 1
      ensures i < levelsN - 1 ==> Source(next, w, f + [gs], bits)
    {
      ngroups, gs := GroupLevel(m, nelements, i, w, f, shared, bits);
      if i < levelsN - 1 {
        FillNext(m, nelements, i, ngroups, next, w, f, gs, bits);
      }
    }

    /** Fills the buffer for the level above the new groups. */
    method FillNext(m: CommMatrix, nelements: nat, i: nat, ngroups: nat, next: CommMatrix,
                    ghost w: Weights, ghost f: Levels, ghost gs: Grouping, ghost bits: nat)
      requires Shaped() && Partial(f + [gs]) && 1 <= i == |f| < levelsN && nelements == |f[i - 1]|
               && Source(m, w, f, bits)
      requires 1 <= ngroups == |gs| <= nelements <= MAX_THREADS && Partition(gs, nelements)
               && Numbered(i - 1, nelements)
      requires next.Valid() && next.bits == bits && next != m && next.cells != m.cells
      modifies next, next.cells
      ensures next.Valid() && Source(next, w, f + [gs], bits)
    {
      assert Stored(i, gs) by {
        assert (f + [gs])[i] == gs;
      }
      RecreateMatrix(m, i, ngroups, next, nelements, gs);
      Raised(w, f, gs, m.Values(), next.Values());
    }

    /** The bottom-up part: all levels below the root group. */
    method BuildForest(mInit: CommMatrix, ghost shared: seq<nat>, ghost bits: nat)
      returns (nelements: nat, ghost f: Levels)
      requires Ready(shared, bits) && forall k | 0 <= k < |shared| :: shared[k] >= 1
      requires mInit.Valid() && mInit.bits == bits && mInit.Defined(mInit.nthreads)
      requires 1 <= mInit.nthreads <= MAX_THREADS && mInit.nthreads <= Pow2(bits)
      requires mInit !in {matrix0, matrix1} && mInit.cells !in {matrix0.cells, matrix1.cells}
      modifies groups, chosen, winners, matrix0, matrix0.cells, matrix1, matrix1.cells
      ensures Ready(shared, bits) && Partial(f) && |f| == levelsN && f[0] == ThreadLevel(mInit.nthreads)
      ensures GreedyLevels(mInit.Values(), f, shared) && nelements == |f[levelsN - 1]|
    {
      ghost var w := mInit.Values();
      InitThreads(mInit.nthreads);
      f := [ThreadLevel(mInit.nthreads)];
      nelements := mInit.nthreads;
      var m, matrixI := mInit, 0;
      assert Source(m, w, f, bits);
      for i := 1 to levelsN
        invariant Ready(shared, bits) && Partial(f) && |f| == i && f[0] == ThreadLevel(mInit.nthreads)
        invariant GreedyLevels(w, f, shared) && nelements == |f[i - 1]| >= 1 && mInit.Values() == w
        invariant 0 <= matrixI <= 1 && m == if i == 1 then mInit else if matrixI == 0 then matrix1 else matrix0
        invariant i < levelsN ==> Source(m, w, f, bits)
      {
        var next := if matrixI == 0 then matrix0 else matrix1;
        ghost var gs;
        nelements, gs := BuildLevel(m, nelements, i, next, w, f, shared, bits);
        m := next;
        matrixI := 1 - matrixI;
        f := f + [gs];
      }
    }

    /** The group of all groups of the topmost level. */
    method RootGroup(nelements: nat) returns (g: ThreadGroup)
      requires levelsN >= 1
      ensures g == ThreadGroup(Group, 0, nelements, Refs(levelsN - 1, Range(nelements)))
    {
      var elements := [];
      for i := 0 to nelements
        invariant elements == Refs(levelsN - 1, Range(nelements)[..i])
      {
        assert Range(nelements)[..i + 1] == Range(nelements)[..i] + [i];
        RefsSnoc(levelsN - 1, Range(nelements)[..i], i);
        elements := elements + [GroupRef(levelsN - 1, i)];
      }
      assert Range(nelements)[..nelements] == Range(nelements);
      g := ThreadGroup(Group, 0, nelements, elements);
    }

    /** With the root group the table holds a whole forest. */
    lemma ForestBuilt(below: Levels, w: Weights, ars: seq<nat>)
      requires Shaped() && levelsN == |SharedOf(ars)| + 1 && Partial(below) && |below| == levelsN
      requires forall k | 0 <= k < |ars| :: ars[k] >= 1
      requires GreedyLevels(w, below, SharedOf(ars))
      ensures var f := below + [[Range(|below[levelsN - 1]|)]]; Fits(f, SharedOf(ars)) && Built(f)
    {
      SharedProduct(ars);
      RootCompletes(w, below, SharedOf(ars));
      RootBuilt(w, below, SharedOf(ars));
    }

    /** The top-down part: lays the root group out on the whole tree. */
    method MapForest(nelements: nat, map': array<nat>, ghost below: Levels, ghost w: Weights, ghost ars: seq<nat>,
                     ghost lab: Labels)
      requires Shaped() && levelsN == |SharedOf(ars)| + 1 && Partial(below) && |below| == levelsN
      requires topology.Holds(ars, lab) && ars != [] && forall k | 0 <= k < |ars| :: ars[k] >= 1
      requires GreedyLevels(w, below, SharedOf(ars)) && nelements == |below[levelsN - 1]|
      requires |below[0]| <= map'.Length && map' != winners
      modifies map'
      ensures Fits(below + [[Range(nelements)]], SharedOf(ars))
      ensures map'[..] == Layout(old(map'[..]), below + [[Range(nelements)]], SharedOf(ars), levelsN, 0, lab, 0)
    {
      ghost var f, shared := below + [[Range(nelements)]], SharedOf(ars);
      ForestBuilt(below, w, ars);
      var rootGroup := RootGroup(nelements);
      assert shared[0..] == shared;
      MapGroups(topology.root, None, rootGroup, map', 0, Spot(0, 0, 0), ars, lab, Root, [], f, shared, levelsN, 0);
    }

    /** Computes the processing unit of every thread from the communication matrix. */
    method GreedyMap(mInit: CommMatrix, map': array<nat>, ghost ars: seq<nat>, ghost lab: Labels, ghost bits: nat)
      returns (ghost below: Levels)
      requires Ready(SharedOf(ars), bits) && topology.Holds(ars, lab)
      requires ars != [] && forall k | 0 <= k < |ars| :: ars[k] >= 1
      requires mInit.Valid() && mInit.bits == bits && mInit.Defined(mInit.nthreads)
      requires 1 <= mInit.nthreads <= MAX_THREADS && mInit.nthreads <= Pow2(bits)
      requires mInit !in {matrix0, matrix1} && mInit.cells !in {matrix0.cells, matrix1.cells}
      requires mInit.nthreads <= map'.Length && map' != winners
      modifies groups, chosen, winners, matrix0, matrix0.cells, matrix1, matrix1.cells, map'
      ensures Ready(SharedOf(ars), bits)
      ensures GreedyLevels(mInit.Values(), below, SharedOf(ars))
      ensures |below| == |SharedOf(ars)| + 1 && below[0] == ThreadLevel(mInit.nthreads)
      ensures var f := below + [[Range(|below[|below| - 1]|)]];
              && Fits(f, SharedOf(ars))
              && map'[..] == Layout(old(map'[..]), f, SharedOf(ars), |below|, 0, lab, 0)
    {
      SharedProduct(ars);
      var nelements;
      nelements, below := BuildForest(mInit, SharedOf(ars), bits);
      MapForest(nelements, map', below, mInit.Values(), ars, lab);
    }
  }

  // ------------------------------------------------------- layouts as values

  /** The processing unit that a layout of group `gi` of level `l`, starting at leaf `base`,
      gives to thread `t`; threads of other groups keep `was`. */
  ghost function Assigned(was: nat, f: Levels, shared: seq<nat>, l: nat, gi: nat, lab: Labels, base: nat, t: nat): nat
    requires Fits(f, shared) && 1 <= l < |f|
  {
    if t < |f[0]| && Up(f, shared, l, t) == gi then PuId(lab, base + Offset(f, shared, l, t)) else was
  }

  ghost function Layout(m: seq<nat>, f: Levels, shared: seq<nat>, l: nat, gi: nat, lab: Labels,
                        base: nat): (r: seq<nat>)
    requires Fits(f, shared) && 1 <= l < |f|
    ensures |r| == |m|
  {
    seq(|m|, t requires 0 <= t < |m| => Assigned(m[t], f, shared, l, gi, lab, base, t))
  }

  /** The layouts of the first `k` elements of a group on the first `k` children of its vertex. */
  ghost function LayoutKids(m: seq<nat>, f: Levels, shared: seq<nat>, l: nat, gi: nat, lab: Labels, s: Spot,
                            ars: seq<nat>, k: nat): (r: seq<nat>)
    requires Fits(f, shared) && 2 <= l < |f| && gi < |f[l]| && k <= |f[l][gi]| && ars != []
    ensures |r| == |m|
  {
    if k == 0 then m
    else Layout(LayoutKids(m, f, shared, l, gi, lab, s, ars, k - 1), f, shared, l - 1, f[l][gi][k - 1],
                LabelsBelow(lab), Child(s, ars, k - 1).leaf)
  }

  ghost function LayoutThreads(m: seq<nat>, es: seq<nat>, id: nat): (r: seq<nat>)
    ensures |r| == |m|
  {
    if es == [] then m
    else
      var r := LayoutThreads(m, es[..|es| - 1], id);
      var e := es[|es| - 1];
      if e < |r| then r[e := id] else r
  }

  lemma {:induction false} LayoutThreadsAt(m: seq<nat>, es: seq<nat>, id: nat, t: nat)
    requires t < |m|
    ensures LayoutThreads(m, es, id)[t] == if t in es then id else m[t]
  {
    if es != [] {
      LayoutThreadsAt(m, es[..|es| - 1], id, t);
      assert es == es[..|es| - 1] + [es[|es| - 1]];
    }
  }

  lemma ThreadsLaidOut(m: seq<nat>, f: Levels, shared: seq<nat>, gi: nat, lab: Labels, base: nat)
    requires Fits(f, shared) && gi < |f[1]| && |f[0]| <= |m|
    ensures LayoutThreads(m, f[1][gi], PuId(lab, base)) == Layout(m, f, shared, 1, gi, lab, base)
  {
    var es := f[1][gi];
    forall t: nat | t < |m|
      ensures LayoutThreads(m, es, PuId(lab, base))[t] == Layout(m, f, shared, 1, gi, lab, base)[t]
    {
      LayoutThreadsAt(m, es, PuId(lab, base), t);
      if t < |f[0]| {
        MemberIffUp(f, shared, 1, gi, t);
      } else if t in es {
        var i :| 0 <= i < |es| && es[i] == t;
        assert Holds(f[1], gi, i, t);
      }
    }
  }

  lemma {:induction false} LayoutKidsAt(m: seq<nat>, f: Levels, shared: seq<nat>, l: nat, gi: nat, lab: Labels,
                                        s: Spot, ars: seq<nat>, k: nat, t: nat)
    requires Fits(f, shared) && 2 <= l < |f| && gi < |f[l]| && k <= |f[l][gi]| && t < |m|
    requires ChildLevel(ars, shared, l)
    ensures LayoutKids(m, f, shared, l, gi, lab, s, ars, k)[t] ==
              if t < |f[0]| && Up(f, shared, l - 1, t) in f[l][gi][..k]
                then PuId(lab, s.leaf + Offset(f, shared, l, t)) else m[t]
  {
    if k > 0 {
      LayoutKidsAt(m, f, shared, l, gi, lab, s, ars, k - 1, t);
      TakeMore(f[l][gi], k - 1);
      OneKidAt(LayoutKids(m, f, shared, l, gi, lab, s, ars, k - 1)[t], f, shared, l, gi, lab, s, ars, k - 1, t);
    }
  }

  /** What laying out one more child assigns. */
  lemma OneKidAt(was: nat, f: Levels, shared: seq<nat>, l: nat, gi: nat, lab: Labels, s: Spot, ars: seq<nat>, i: nat,
                 t: nat)
    requires Fits(f, shared) && 2 <= l < |f| && gi < |f[l]| && i < |f[l][gi]| && ChildLevel(ars, shared, l)
    ensures Assigned(was, f, shared, l - 1, f[l][gi][i], LabelsBelow(lab), Child(s, ars, i).leaf, t) ==
              if t < |f[0]| && Up(f, shared, l - 1, t) == f[l][gi][i]
                then PuId(lab, s.leaf + Offset(f, shared, l, t)) else was
  {
    if t < |f[0]| && Up(f, shared, l - 1, t) == f[l][gi][i] {
      ChildLeaf(f, shared, s, ars, l, gi, i, t);
    }
  }

  lemma KidsLaidOut(m: seq<nat>, f: Levels, shared: seq<nat>, l: nat, gi: nat, lab: Labels, s: Spot, ars: seq<nat>)
    requires Fits(f, shared) && 2 <= l < |f| && gi < |f[l]| && ChildLevel(ars, shared, l)
    ensures LayoutKids(m, f, shared, l, gi, lab, s, ars, |f[l][gi]|) == Layout(m, f, shared, l, gi, lab, s.leaf)
  {
    var es := f[l][gi];
    assert es[..|es|] == es;
    forall t: nat | t < |m|
      ensures LayoutKids(m, f, shared, l, gi, lab, s, ars, |es|)[t] == Layout(m, f, shared, l, gi, lab, s.leaf)[t]
    {
      LayoutKidsAt(m, f, shared, l, gi, lab, s, ars, |es|, t);
      if t < |f[0]| {
        MemberIffUp(f, shared, l, gi, t);
      }
    }
  }

  lemma LayoutBelow(m: seq<nat>, f: Levels, shared: seq<nat>, l: nat, gi: nat, lab: Labels, base: nat)
    requires Fits(f, shared) && 1 <= l < |f|
    ensures Layout(m, f, shared, l, gi, LabelsBelow(lab), base) == Layout(m, f, shared, l, gi, lab, base)
  {
  }

  lemma RootBuilt(w: Weights, below: Levels, shared: seq<nat>)
    requires GreedyLevels(w, below, shared)
    ensures forall l, g | 1 <= l < |below| && 0 <= g < |below[l]| :: below[l][g] != []
    ensures |below[|below| - 1]| >= 1
  {
    forall l, g | 1 <= l < |below| && 0 <= g < |below[l]|
      ensures below[l][g] != []
    {
      GroupsNonEmpty(w, below, shared, l, g);
    }
    if |below| > 1 {
      assert LevelOk(w, below, shared, |below| - 1);
    }
  }

  lemma CapacityPositive(shared: seq<nat>, l: nat)
    requires 1 <= l <= |shared| + 1 && forall k | 0 <= k < |shared| :: shared[k] >= 1
    ensures Capacity(shared, l) >= 1
  {
    ProductPositive(shared[..|shared| + 1 - l]);
  }

  /** The coarsened matrix holds the communication between the groups of the new level. */
  lemma Raised(w: Weights, f: Levels, gs: Grouping, v: Weights, u: Weights)
    requires f != [] && Partition(gs, |f[|f| - 1]|) && Coarsens(v, gs, u)
    requires Agrees(v, LevelWeights(w, f, |f| - 1), |f[|f| - 1]|)
    ensures Agrees(u, LevelWeights(w, f + [gs], |f|), |gs|)
  {
    var k, n := |f|, |f[|f| - 1]|;
    LevelWeightsExtend(w, f, gs, k - 1, n);
    forall a: nat, b: nat | a < n && b < n && a != b
      ensures v(a, b) == LevelWeights(w, f + [gs], k - 1)(a, b)
    {
      assert v(a, b) == LevelWeights(w, f, k - 1)(a, b);
    }
    Aggregation(w, f + [gs], k - 1, v, u);
  }

  /** `g` is group `gi` of level `l` of the forest. */
  ghost predicate IsGroup(g: ThreadGroup, f: Levels, l: nat, gi: nat)
    requires 1 <= l < |f| && gi < |f[l]|
  {
    g.typ == Group && g.nelements == |f[l][gi]| && g.elements == Refs(l - 1, f[l][gi])
  }

  /** The subtree is entered at the root, or from the vertex its upward link names. */
  predicate Entered(s: Spot, ars: seq<nat>, typ: ElType, up: seq<Link>) {
    if typ == Root then ars != [] && up == []
    else typ == NodeType(ars) && |up| == 1 && up[0].v < s.pos
  }

  lemma TakeMore(es: seq<nat>, i: nat)
    requires i < |es|
    ensures forall e: nat :: e in es[..i + 1] <==> e in es[..i] || e == es[i]
  {
    assert es[..i + 1] == es[..i] + [es[i]];
  }

  /** A shared vertex carries the arity of its level, and its children carry the levels below. */
  lemma SharedTop(s: Spot, ars: seq<nat>, typ: ElType, up: seq<Link>, lab: Labels, shared: seq<nat>, l: nat)
    requires Entered(s, ars, typ, up) && forall i | 0 <= i < |ars| :: ars[i] >= 1
    requires l == |SharedOf(ars)| + 1 <= |shared| + 1 && SharedOf(ars) == shared[|shared| + 1 - l..]
    requires IsShared(Vertex(typ, if ars == [] then PuId(lab, s.leaf) else 0, s.pos, Links(s, ars, up)))
    ensures ChildLevel(ars, shared, l)
  {
    var sh := SharedOf(ars);
    assert sh == [ars[0]] + SharedOf(ars[1..]);
    assert sh[1..] == SharedOf(ars[1..]);
  }

  lemma RoomForGroup(vs: seq<Vertex>, es: seq<Edge>, s: Spot, ars: seq<nat>, lab: Labels, typ: ElType, up: seq<Link>,
                     shared: seq<nat>, l: nat)
    requires Subtree(vs, es, s, ars, lab, typ, up) && Entered(s, ars, typ, up) && ChildLevel(ars, shared, l)
    ensures ChildCount(vs[s.pos]) == Arity(shared, l)
  {
  }

  /** Link `i` of a shared vertex leads down to child `i`, where element `i` of a group belongs. */
  lemma DownLink(vs: seq<Vertex>, es: seq<Edge>, s: Spot, ars: seq<nat>, lab: Labels, typ: ElType, up: seq<Link>,
                 i: nat, group: seq<nat>, shared: seq<nat>, l: nat)
    requires Subtree(vs, es, s, ars, lab, typ, up) && Entered(s, ars, typ, up) && ChildLevel(ars, shared, l)
    requires i < |group| <= Arity(shared, l)
    ensures i < |vs[s.pos].linked|
    ensures var link := vs[s.pos].linked[i];
            link.v == Child(s, ars, i).pos && (up != [] ==> link.v != up[0].v)
    ensures var above := [Link(ChildEdge(s, ars, i), s.pos)];
            && Subtree(vs, es, Child(s, ars, i), ars[1..], LabelsBelow(lab), NodeType(ars[1..]), above)
            && Entered(Child(s, ars, i), ars[1..], NodeType(ars[1..]), above)
  {
    LinkAt(s, ars, up, i);
    assert ChildOk(vs, es, s, ars, lab, i);
  }

  lemma SkipLevel(s: Spot, ars: seq<nat>, typ: ElType, up: seq<Link>, lab: Labels)
    requires Entered(s, ars, typ, up) && (forall i | 0 <= i < |ars| :: ars[i] >= 1) && typ != Pu
    requires !IsShared(Vertex(typ, if ars == [] then PuId(lab, s.leaf) else 0, s.pos, Links(s, ars, up)))
    ensures ars != [] && ars[0] == 1 && SharedOf(ars[1..]) == SharedOf(ars)
    ensures Child(s, ars, 0).leaf == s.leaf
  {
  }

  /** The vertex of `ars` is the shared one that groups of level `l` are laid out on. */
  ghost predicate ChildLevel(ars: seq<nat>, shared: seq<nat>, l: nat) {
    && ars != [] && (forall i | 0 <= i < |ars| :: ars[i] >= 1)
    && 2 <= l <= |shared| + 1 && ars[0] == Arity(shared, l)
    && |SharedOf(ars[1..])| == l - 2 && SharedOf(ars[1..]) == shared[|shared| + 2 - l..]
  }

  /** Child `i` of a shared vertex starts `i` times the units of the level below further right. */
  lemma ChildLeaf(f: Levels, shared: seq<nat>, s: Spot, ars: seq<nat>, l: nat, gi: nat, i: nat, t: nat)
    requires Fits(f, shared) && 2 <= l < |f| && gi < |f[l]| && i < |f[l][gi]| && ChildLevel(ars, shared, l)
    requires t < |f[0]| && Up(f, shared, l - 1, t) == f[l][gi][i]
    ensures s.leaf + Offset(f, shared, l, t) == Child(s, ars, i).leaf + Offset(f, shared, l - 1, t)
  {
    LeavesIsProduct(ars[1..]);
    SharedProduct(ars[1..]);
    TimesIsProduct(i, Leaves(ars[1..]));
    var u := Units(shared, l - 1);
    assert u == Leaves(ars[1..]) && u * i == i * u;
    MemberIffUp(f, shared, l, gi, t);
    assert Offset(f, shared, l, t) == Offset(f, shared, l - 1, t) + u * Rank(f, shared, l, t);
  }

  /** Cells are shared by a pair and its reverse, so writing the upper ones defines them all. */
  lemma AllCellsDone(source: CommMatrix, m: CommMatrix, gs: Grouping)
    requires forall a: nat, b: nat | a < b < |gs| :: CellDone(m, source.Values(), gs, a, b)
    ensures m.Defined(|gs|) && Coarsens(source.Values(), gs, m.Values())
  {
    var w := source.Values();
    ReadingSymmetric(source.cells[..], source.bits);
    forall a: nat, b: nat | a < |gs| && b < |gs| && a != b
      ensures Index(m.bits, a, b) in m.written && m.Values()(a, b) == Wrap(Total(w, gs[a], gs[b]))
    {
      assert CellDone(m, w, gs, if a < b then a else b, if a < b then b else a);
      TotalSymmetric(w, gs[a], gs[b]);
    }
  }

  ghost predicate CellDone(m: CommMatrix, w: Weights, gs: Grouping, a: nat, b: nat)
    requires a < |gs| && b < |gs|
    reads m, m.cells
  {
    Index(m.bits, a, b) in m.written && m.Values()(a, b) == Wrap(Total(w, gs[a], gs[b]))
  }

  /** No sum the algorithm forms reaches the width of its 64-bit accumulator. */
  lemma SumsFit(cells: seq<Word>, bits: nat, s: seq<nat>, t: seq<nat>)
    requires |s| <= MAX_THREADS && |t| <= MAX_THREADS
    ensures Total(Reading(cells, bits), s, t) < 0x8000_0000_0000_0000
  {
    TotalBound(cells, bits, s, t);
  }

  lemma {:induction false} RowBound(cells: seq<Word>, bits: nat, a: nat, t: seq<nat>)
    requires |t| <= MAX_THREADS
    ensures Row(Reading(cells, bits), a, t) <= |t| * 0xFFFF_FFFF
  {
    if t != [] {
      RowBound(cells, bits, a, t[..|t| - 1]);
    }
  }

  lemma {:induction false} TotalBound(cells: seq<Word>, bits: nat, s: seq<nat>, t: seq<nat>)
    requires |t| <= MAX_THREADS
    ensures Total(Reading(cells, bits), s, t) <= |s| * (128 * 0xFFFF_FFFF)
  {
    if s != [] {
      TotalBound(cells, bits, s[..|s| - 1], t);
      RowBound(cells, bits, s[|s| - 1], t);
    }
  }

  lemma Shares(n: nat, k: nat)
    requires 1 <= k <= n
    ensures Times(k, n / k) + n % k == n && n / k >= 1
  {
    TimesIsProduct(k, n / k);
  }

  predicate Sized(gs: Grouping, q: nat, rem: nat) {
    forall g | 0 <= g < |gs| :: |gs[g]| == q + (if g < rem then 1 else 0)
  }

  lemma SizedSnoc(gs: Grouping, group: seq<nat>, q: nat, rem: nat)
    requires Sized(gs, q, rem) && |group| == q + (if |gs| < rem then 1 else 0)
    ensures Sized(gs + [group], q, rem)
  {
  }

  /** After `g` of `k` groups, `done` elements are placed and `leftover` groups are still to be larger. */
  predicate Tally(g: nat, done: nat, leftover: nat, k: nat, q: nat, extra: nat) {
    g <= k && done == Times(g, q) + Min(g, extra) && leftover == extra - Min(g, extra)
  }

  lemma TallyStep(g: nat, done: nat, leftover: nat, k: nat, q: nat, extra: nat)
    requires Tally(g, done, leftover, k, q, extra) && extra < k && q >= 1 && done < Times(k, q) + extra
    ensures var more := if leftover > 0 then 1 else 0;
            && g < k && q + more == q + (if g < extra then 1 else 0)
            && done + q + more <= Times(k, q) + extra
            && Tally(g + 1, done + q + more, leftover - more, k, q, extra)
  {
    if g < k {
      TimesMonotone(g + 1, k, q);
    }
  }

  lemma TallyEnd(g: nat, done: nat, leftover: nat, k: nat, q: nat, extra: nat)
    requires Tally(g, done, leftover, k, q, extra) && extra < k && q >= 1 && done >= Times(k, q) + extra
    ensures g == k && done == Times(k, q) + extra
  {
    if g < k {
      TimesMonotone(g + 1, k, q);
    }
  }

  lemma GreedySnoc(w: Weights, n: nat, gs: Grouping, group: seq<nat>)
    requires IsGreedy(w, n, gs) && IsGreedyGroup(w, n, Elems(Flatten(gs)), group)
    ensures IsGreedy(w, n, gs + [group]) && Flatten(gs + [group]) == Flatten(gs) + group
  {
    var more := gs + [group];
    assert more[..|gs|] == gs;
    forall g: nat | g < |more|
      ensures GroupAt(w, n, more, g)
    {
      if g < |gs| {
        assert more[..g] == gs[..g];
        assert GroupAt(w, n, gs, g);
      }
    }
  }

  // ------------------------------------------------------ the initialisation walks

  function CountShared(n: nat, v: Visit): (nat, bool) {
    (if IsShared(v.vertex) then n + 1 else n, v.vertex.typ != Pu)
  }

  /** Stores the arity of a shared level at the cursor and moves the cursor down. */
  function ListShared(d: (seq<nat>, int), v: Visit): ((seq<nat>, int), bool) {
    (if IsShared(v.vertex) && 0 <= d.1 < |d.0| then (d.0[d.1 := ChildCount(v.vertex)], d.1 - 1) else d,
     v.vertex.typ != Pu)
  }

  function Filled(a: seq<nat>, pos: int, sh: seq<nat>): (r: seq<nat>)
    requires |sh| <= pos + 1 <= |a|
    ensures |r| == |a|
    decreases |sh|
  {
    if sh == [] then a else Filled(a[pos := sh[0]], pos - 1, sh[1..])
  }

  lemma {:induction false} FilledAt(a: seq<nat>, pos: int, sh: seq<nat>, l: nat)
    requires |sh| <= pos + 1 <= |a| && l < |a|
    ensures Filled(a, pos, sh)[l] == if pos - |sh| < l <= pos then sh[pos - l] else a[l]
    decreases |sh|
  {
    if sh != [] {
      FilledAt(a[pos := sh[0]], pos - 1, sh[1..], l);
    }
  }

  /** What the two walks see of the first vertex of a subtree. */
  lemma FirstShared(s: Spot, ars: seq<nat>, lab: Labels, typ: ElType, en: Entry)
    requires if typ == Root then en.up == [] && ars != [] else |en.up| == 1
    ensures var v := FirstVisit(s, ars, lab, typ, en).vertex;
            && (IsShared(v) <==> ars != [] && ars[0] >= 2)
            && ChildCount(v) == if ars == [] then 0 else ars[0]
  {
  }

  lemma {:induction false} CountedShared(n: nat, s: Spot, ars: seq<nat>, lab: Labels, typ: ElType, en: Entry)
    requires if typ == Root then en.up == [] && ars != [] else |en.up| == 1
    requires forall i | 0 <= i < |ars| :: ars[i] >= 1
    ensures Run<nat>(CountShared, n, LeftPath(s, ars, lab, typ, en)) == n + |SharedOf(ars)|
    decreases |ars|
  {
    PathStep(s, ars, lab, typ, en);
    FirstShared(s, ars, lab, typ, en);
    if ars != [] {
      CountedShared(if ars[0] >= 2 then n + 1 else n, Child(s, ars, 0), ars[1..], LabelsBelow(lab), NodeType(ars[1..]),
                    ChildEntry(s, ars, lab, en, 0));
    }
  }

  lemma {:induction false} ListedShared(a: seq<nat>, pos: int, s: Spot, ars: seq<nat>, lab: Labels, typ: ElType,
                                        en: Entry)
    requires if typ == Root then en.up == [] && ars != [] else |en.up| == 1
    requires forall i | 0 <= i < |ars| :: ars[i] >= 1
    requires |SharedOf(ars)| <= pos + 1 <= |a|
    ensures Run<(seq<nat>, int)>(ListShared, (a, pos), LeftPath(s, ars, lab, typ, en))
            == (Filled(a, pos, SharedOf(ars)), pos - |SharedOf(ars)|)
    decreases |ars|
  {
    PathStep(s, ars, lab, typ, en);
    FirstShared(s, ars, lab, typ, en);
    if ars != [] {
      var (a', pos') := if ars[0] >= 2 then (a[pos := ars[0]], pos - 1) else (a, pos);
      assert ListShared((a, pos), FirstVisit(s, ars, lab, typ, en)).0 == (a', pos');
      ListedShared(a', pos', Child(s, ars, 0), ars[1..], LabelsBelow(lab), NodeType(ars[1..]),
                   ChildEntry(s, ars, lab, en, 0));
    }
  }

  method CountSharedLevels(t: Topology, ghost ars: seq<nat>, ghost lab: Labels) returns (n: nat)
    requires t.Holds(ars, lab) && ars != [] && forall i | 0 <= i < |ars| :: ars[i] >= 1
    ensures n == |SharedOf(ars)| + 2
  {
    ghost var s, en := Spot(0, 0, 0), Entry([], None, 0);
    StopAtFirstPu<nat>(CountShared, 2, s, ars, lab, Root, en);
    CountedShared(2, s, ars, lab, Root, en);
    var go;
    n, go := Walk(t.graph, CountShared, t.root, None, None, 2, 0, s, ars, lab, Root, en);
  }

  method CollectArities(t: Topology, start: seq<nat>, ghost ars: seq<nat>, ghost lab: Labels)
    returns (arities: seq<nat>)
    requires t.Holds(ars, lab) && ars != [] && forall i | 0 <= i < |ars| :: ars[i] >= 1
    requires |start| == |SharedOf(ars)| + 2
    ensures arities == Filled(start, |start| - 1, SharedOf(ars))
  {
    ghost var s, en := Spot(0, 0, 0), Entry([], None, 0);
    StopAtFirstPu<(seq<nat>, int)>(ListShared, (start, |start| - 1), s, ars, lab, Root, en);
    ListedShared(start, |start| - 1, s, ars, lab, Root, en);
    var collected: (seq<nat>, int), go;
    collected, go := Walk(t.graph, ListShared, t.root, None, None, (start, |start| - 1), 0, s, ars, lab, Root, en);
    arities := collected.0;
  }

  lemma {:induction false} SharedProduct(ars: seq<nat>)
    requires forall i | 0 <= i < |ars| :: ars[i] >= 1
    ensures Product(SharedOf(ars)) == Product(ars)
    ensures forall i | 0 <= i < |SharedOf(ars)| :: SharedOf(ars)[i] >= 2
  {
    if ars != [] {
      SharedProduct(ars[1..]);
      if ars[0] >= 2 {
        assert SharedOf(ars)[1..] == SharedOf(ars[1..]);
      }
    }
  }

  /** Only the top level has a single unit. */
  lemma CapacityOne(shared: seq<nat>, l: nat)
    requires 1 <= l <= |shared| + 1 && forall i | 0 <= i < |shared| :: shared[i] >= 2
    ensures Capacity(shared, l) == 1 <==> l == |shared| + 1
  {
    if l <= |shared| {
      var top := shared[..|shared| + 1 - l];
      ProductPositive(top[1..]);
      MulMonotone(2, top[0], 1, Product(top[1..]));
    }
  }

  /** A repetition-free list of elements below `n`. */
  ghost predicate Lists(s: seq<nat>, n: nat) {
    Distinct(s) && forall i | 0 <= i < |s| :: s[i] < n
  }

  lemma FreeElementExists(done: seq<nat>, group: seq<nat>, n: nat)
    requires Lists(done + group, n) && |done + group| < n
    ensures exists j: nat :: j < n && j !in Elems(done + group)
    ensures forall k | 0 <= k < |group| :: group[k] in Elems(done + group) && group[k] < n
  {
    var order := done + group;
    Pigeonhole(order, n);
    var e: nat :| e < n && e !in order;
    assert e !in Elems(order);
    forall k | 0 <= k < |group|
      ensures group[k] in Elems(order) && group[k] < n
    {
      assert order[|done| + k] == group[k];
    }
  }

  /** What one more greedy choice does to the lists. */
  lemma Chosen(w: Weights, n: nat, done: seq<nat>, group: seq<nat>, e: nat)
    requires Lists(done + group, n) && IsGreedyGroup(w, n, Elems(done), group)
    requires IsPick(w, n, Elems(done + group), group, e)
    ensures Lists(done + (group + [e]), n) && IsGreedyGroup(w, n, Elems(done), group + [e])
    ensures Elems(done + (group + [e])) == Elems(done + group) + {e}
  {
    assert done + (group + [e]) == done + group + [e];
    assert Elems(done + group) == Elems(done) + Elems(group);
    ExtendGreedy(w, n, Elems(done), group, e);
  }

  lemma RefsSnoc(level: nat, es: seq<nat>, e: nat)
    ensures Refs(level, es + [e]) == Refs(level, es) + [GroupRef(level, e)]
  {
  }

  lemma ExtendGreedy(w: Weights, n: nat, taken: set<nat>, group: seq<nat>, e: nat)
    requires IsGreedyGroup(w, n, taken, group) && IsPick(w, n, taken + Elems(group), group, e)
    ensures IsGreedyGroup(w, n, taken, group + [e])
  {
    var more := group + [e];
    forall r: nat | r < |more|
      ensures PickAt(w, n, taken, more, r)
    {
      if r < |group| {
        assert more[..r] == group[..r];
        assert PickAt(w, n, taken, group, r);
      } else {
        assert more[..r] == group;
      }
    }
  }
}
