/** The sharing detector: a direct-mapped table with a two-entry window of accessors per
    page, and the communication matrix it counts into. Ghost state records the accesses
    since the table was cleared, so that the table can be compared with them. */
module Detectors {
  import opened Arithmetic
  import opened Affinity
  import opened Matrices
  import opened Windows

  /** A table entry; the sharers are 16-bit and -1 means none. The time stamp is left out. */
  datatype Slot = Slot(pgAddr: nat, sharer0: int, sharer1: int)

  function NumSharers(elem: Slot): nat {
    if elem.sharer0 == -1 && elem.sharer1 == -1 then 0
    else if elem.sharer0 != -1 && elem.sharer1 != -1 then 2
    else 1
  }

  /** The slot that holds a page with the given window. */
  function Encode(page: nat, w: seq<nat>): Slot {
    Slot(page, if |w| > 0 then w[0] else -1, if |w| > 1 then w[1] else -1)
  }

  /** What slot `k` must hold after a run; a slot that was never hit is all zero. */
  function SlotOf(run: Run, hash: Hash, k: nat): Slot {
    var page := Holder(run, hash, k);
    if page == 0 then Slot(0, 0, 0) else Encode(page, Window(Segment(run, hash, k)))
  }

  /** One more meeting of `i` and `j`. */
  function Plus(w: Weights, i: nat, j: nat): Weights {
    (a: nat, b: nat) => w(a, b) + (if SamePair(a, b, i, j) then 1 else 0)
  }

  /** The matrix value that a run leads to, starting from `base`. */
  function Counts(base: Weights, run: Run, hash: Hash): Weights {
    (a: nat, b: nat) => CountOf(base, run, hash, a, b)
  }

  function CountOf(base: Weights, run: Run, hash: Hash, a: nat, b: nat): nat {
    base(a, b) + TableCount(run, hash, a, b)
  }

  function NoWeights(): Weights {
    (a: nat, b: nat) => 0
  }

  class Detector {
    const bits: nat
    const shift: nat
    const hash: Hash
    const mem: array<Slot>
    var conflicts: nat
    var matrix: CommMatrix?
    ghost var run: Run
    ghost var base: Weights

    ghost predicate Hashed() {
      forall p: nat :: hash(p) < mem.Length
    }

    /** The table agrees with the run. */
    ghost predicate Valid()
      reads this, mem
    {
      && Hashed() && Real(run) && bits <= 14
      && conflicts == Evictions(run, hash)
      && forall k | 0 <= k < mem.Length :: mem[k] == SlotOf(run, hash, k)
    }

    /** Every cell of two different threads holds the `unsigned` image of `w`. */
    ghost predicate Holds(w: Weights)
      reads this, matrix, if matrix == null then {} else {matrix.cells}
    {
      && matrix != null && matrix.Valid() && matrix.bits == bits
      && matrix.Defined(Pow2(bits)) && matrix.DiagonalDefined(Pow2(bits))
      && UpperZero(matrix.cells[..], bits)
      && forall a: nat, b: nat | a < Pow2(bits) && b < Pow2(bits) && a != b :: matrix.Values()(a, b) == Wrap(w(a, b))
    }

    ghost predicate Counted()
      reads this, matrix, if matrix == null then {} else {matrix.cells}
    {
      Holds(Counts(base, run, hash))
    }

    constructor (bits: nat, shift: nat, hashSize: nat, hash: Hash)
      requires bits <= 14 && forall p: nat :: hash(p) < hashSize
      ensures Valid() && matrix == null && run == [] && base == NoWeights() && conflicts == 0
      ensures this.bits == bits && this.shift == shift && this.hash == hash && fresh(mem)
    {
      this.bits, this.shift, this.hash := bits, shift, hash;
      mem := new Slot[hashSize];
      matrix := null;
      run := [];
      new;
      MemInit();
      base := NoWeights();
    }

    function AddrToPage(address: nat): nat {
      ShiftRight(address, shift)
    }

    /** Clears the table and the conflict counter. The matrix keeps what it has counted. */
    method MemInit()
      requires Hashed() && bits <= 14
      modifies mem, this`conflicts, this`run, this`base
      ensures Valid() && run == [] && conflicts == 0 && base == old(Counts(base, run, hash))
      ensures forall k | 0 <= k < mem.Length :: mem[k] == Slot(0, 0, 0)
      ensures old(Counted()) ==> Counted()
    {
      for i := 0 to mem.Length
        invariant forall k | 0 <= k < i :: mem[k] == Slot(0, 0, 0)
        invariant unchanged(this)
      {
        mem[i] := Slot(0, 0, 0);
      }
      conflicts := 0;
      base := Counts(base, run, hash);
      run := [];
    }

    /** Allocates the matrix if there is none, and zeroes it. Only used while the table is empty. */
    method CommInit()
      requires Valid() && run == [] && (matrix != null ==> matrix.Valid() && matrix.bits == bits)
      modifies this`matrix, this`base, matrix, if matrix == null then {} else {matrix.cells}
      ensures Valid() && Counted() && base == NoWeights() && run == []
      ensures forall k | 0 <= k < matrix.cells.Length :: matrix.cells[k] == 0
      ensures old(matrix) == null ==> fresh(matrix) && fresh(matrix.cells) && matrix.nthreads == 0
      ensures old(matrix) != null ==> matrix == old(matrix) && matrix.nthreads == old(matrix.nthreads)
    {
      if matrix == null {
        matrix := new CommMatrix(bits);
        matrix.nthreads := 0;
      }
      matrix.Clear();
      base := NoWeights();
      assert UpperZero(matrix.cells[..], bits);
      forall a: nat, b: nat | a < Pow2(bits) && b < Pow2(bits) && a != b
        ensures matrix.Values()(a, b) == Wrap(Counts(base, run, hash)(a, b))
      {
        IndexInRange(bits, a, b);
        assert matrix.cells[Index(bits, a, b)] == 0;
      }
    }

    /** The slot of the page of an address, taken over if another page holds it. */
    method GetMemInit(address: nat) returns (k: nat)
      requires Hashed()
      modifies mem, this`conflicts
      ensures k == hash(AddrToPage(address)) < mem.Length
      ensures forall i | 0 <= i < mem.Length && i != k :: mem[i] == old(mem[i])
      ensures var page, was := AddrToPage(address), old(mem[k]);
              && mem[k] == (if was.pgAddr == page then was else Slot(page, -1, -1))
              && conflicts == old(conflicts) + (if was.pgAddr != page && was.pgAddr != 0 then 1 else 0)
    {
      var page := AddrToPage(address);
      k := hash(page);
      if mem[k].pgAddr != page {
        if mem[k].pgAddr != 0 {
          conflicts := conflicts + 1;
        }
        mem[k] := Slot(page, -1, -1);
      }
    }

    /** Counts a communication between two different threads. */
    method IncComm(first: nat, second: nat, ghost w: Weights)
      requires Holds(w) && first < Pow2(bits) && second < Pow2(bits) && first != second
      modifies if matrix == null then {} else {matrix.cells}
      ensures Holds(Plus(w, first, second))
    {
      IndexInRange(bits, first, second);
      ghost var before, at := matrix.cells[..], Index(bits, first, second);
      ghost var v := Bump(before[at]);
      matrix.Inc(first, second);
      assert matrix.cells[..] == before[at := v];
      UpperZeroAfter(before, bits, first, second, v);
      forall a: nat, b: nat | a < Pow2(bits) && b < Pow2(bits) && a != b
        ensures matrix.Values()(a, b) == Wrap(Plus(w, first, second)(a, b))
      {
        ReadingAfter(before, bits, first, second, v, a, b);
        WrapBump(w(a, b));
      }
    }

    /** Reads the communication of two threads; it is zero for a thread with itself. Since a fresh start it
        never exceeds what unbounded histories would have counted, unless that overflows a cell, and
        equals it if no page was evicted. */
    method GetComm(first: nat, second: nat) returns (v: Word)
      requires Valid() && Counted() && first < Pow2(bits) && second < Pow2(bits)
      ensures v == if first == second then 0 else Wrap(Counts(base, run, hash)(first, second))
      ensures first != second && base(first, second) == 0 ==>
                && (IdealCount(run, first, second) < 0x1_0000_0000 ==> v <= IdealCount(run, first, second))
                && (conflicts == 0 ==> v == Wrap(IdealCount(run, first, second)))
    {
      v := matrix.Get(first, second);
      if first == second {
        assert RawZero(matrix.cells[..], bits, first, first);
        IndexInRange(bits, first, first);
      } else {
        TableUndercounts(run, hash, first, second);
        if conflicts == 0 {
          TableExact(run, hash, first, second);
        }
      }
    }

    /** Counts an access by `tid` against the window in slot `k` and moves the window on. */
    method UpdateWindow(k: nat, tid: nat, ghost page: nat, ghost win: seq<nat>, ghost w: Weights)
      requires k < mem.Length && mem[k] == Encode(page, win) && Holds(w) && tid < Pow2(bits)
      requires |win| <= 2 && (|win| == 2 ==> win[0] != win[1]) && forall i | 0 <= i < |win| :: win[i] < Pow2(bits)
      modifies mem, if matrix == null then {} else {matrix.cells}
      ensures mem[k] == Encode(page, Touch(win, tid)) && Holds(Met(w, tid, win))
      ensures forall i | 0 <= i < mem.Length && i != k :: mem[i] == old(mem[i])
    {
      var elem := mem[k];
      ghost var w' := w;
      match NumSharers(elem) {
        case 0 =>
          mem[k] := elem.(sharer0 := tid);
        case 1 =>
          if elem.sharer0 != tid {
            IncComm(tid, elem.sharer0, w);
            w' := Plus(w, tid, elem.sharer0);
            mem[k] := elem.(sharer1 := elem.sharer0, sharer0 := tid);
          }
        case _ =>
          if elem.sharer0 != tid && elem.sharer1 != tid {
            IncComm(tid, elem.sharer0, w);
            w' := Plus(w, tid, elem.sharer0);
            IncComm(tid, elem.sharer1, w');
            w' := Plus(w', tid, elem.sharer1);
            mem[k] := elem.(sharer1 := elem.sharer0, sharer0 := tid);
          } else if elem.sharer0 == tid {
            IncComm(tid, elem.sharer1, w);
            w' := Plus(w, tid, elem.sharer1);
          } else if elem.sharer1 == tid {
            IncComm(tid, elem.sharer0, w);
            w' := Plus(w, tid, elem.sharer0);
            mem[k] := elem.(sharer1 := elem.sharer0, sharer0 := tid);
          }
      }
      assert w' == Increments(w, tid, win);
      IncrementsAreMeetings(w, tid, win);
      HoldsSame(w', Met(w, tid, win));
    }

    lemma HoldsSame(v: Weights, w: Weights)
      requires Holds(v) && Same(v, w)
      ensures Holds(w)
    {
    }

    /** Records an access. Its page is the address divided by the granularity. The cell of two different threads is
        incremented exactly if one of them makes the access and the slot of the page holds the page with the other as
        a sharer; afterwards the slot holds the page with this thread as first sharer and the latest other one, if
        there is one, as second. */
    method CheckComm(tid: nat, address: nat) returns (ghost page: nat, ghost was: Slot)
      requires Valid() && Counted() && tid < Pow2(bits) && AddrToPage(address) != 0
      requires forall i | 0 <= i < |run| :: run[i].tid < Pow2(bits)
      modifies mem, this`conflicts, this`run, if matrix == null then {} else {matrix.cells}
      ensures Valid() && Counted() && page == AddrToPage(address) == address / Pow2(shift)
              && run == old(run) + [Access(tid, page)]
      ensures hash(page) < mem.Length && was == old(mem[hash(page)])
      ensures forall a: nat, b: nat | a < Pow2(bits) && b < Pow2(bits) && a != b ::
                matrix.Values()(a, b) ==
                  if was.pgAddr == page && ((tid == a && (b == was.sharer0 || b == was.sharer1))
                                            || (tid == b && (a == was.sharer0 || a == was.sharer1)))
                  then Bump(old(matrix.Values())(a, b)) else old(matrix.Values())(a, b)
      ensures mem[hash(page)] == Slot(page, tid, if was.pgAddr != page then -1
                                                 else if was.sharer0 == tid then was.sharer1 else was.sharer0)
      ensures conflicts == old(conflicts) + (if was.pgAddr != page && was.pgAddr != 0 then 1 else 0)
      ensures forall i | 0 <= i < mem.Length && i != hash(page) :: mem[i] == old(mem[i])
    {
      ShiftIsQuotient(address, shift);
      page := AddrToPage(address);
      was := mem[hash(page)];
      ghost var w, before := Counts(base, run, hash), matrix.Values();
      ghost var win := Record(tid, address, page, w);
      CellsMeet(before, w, was, Access(tid, page), win);
    }

    /** Updates the slot of the page and the cells. */
    method Record(tid: nat, address: nat, ghost page: nat, ghost w: Weights) returns (ghost win: seq<nat>)
      requires Valid() && Counted() && tid < Pow2(bits) && page == AddrToPage(address) && page != 0
      requires w == Counts(base, run, hash) && forall i | 0 <= i < |run| :: run[i].tid < Pow2(bits)
      modifies mem, this`conflicts, this`run, if matrix == null then {} else {matrix.cells}
      ensures Valid() && Counted() && run == old(run) + [Access(tid, page)] && Holds(Met(w, tid, win)) && |win| <= 2
      ensures hash(page) < mem.Length && mem[hash(page)] == Encode(page, Touch(win, tid))
      ensures var was := old(mem[hash(page)]);
              && (if was.pgAddr == page then was else Slot(page, -1, -1)) == Encode(page, win)
              && conflicts == old(conflicts) + (if was.pgAddr != page && was.pgAddr != 0 then 1 else 0)
      ensures forall i | 0 <= i < mem.Length && i != hash(page) :: mem[i] == old(mem[i])
    {
      win := Seen(run, hash, page);
      Claim(run, hash, page);
      SeenTids(run, hash, page, Pow2(bits));
      var k := GetMemInit(address);
      UpdateWindow(k, tid, page, win, w);
      Recorded(Access(tid, page), w, win);
      run := run + [Access(tid, page)];
    }

    /** What the meetings of an access do to the cells. */
    lemma CellsMeet(before: Weights, w: Weights, was: Slot, r: Access, win: seq<nat>)
      requires Holds(Met(w, r.tid, win)) && |win| <= 2
      requires forall a: nat, b: nat | a < Pow2(bits) && b < Pow2(bits) && a != b :: before(a, b) == Wrap(w(a, b))
      requires (if was.pgAddr == r.page then was else Slot(r.page, -1, -1)) == Encode(r.page, win)
      ensures forall a: nat, b: nat | a < Pow2(bits) && b < Pow2(bits) && a != b ::
                matrix.Values()(a, b) == if Sharing(was, r, a, b) then Bump(before(a, b)) else before(a, b)
    {
      forall a: nat, b: nat | a < Pow2(bits) && b < Pow2(bits) && a != b
        ensures matrix.Values()(a, b) == if Sharing(was, r, a, b) then Bump(before(a, b)) else before(a, b)
      {
        SharersMeet(was, r, win, a, b);
        WrapBump(w(a, b));
      }
    }

    /** The table and the counters agree with the run extended by an access. */
    lemma Recorded(r: Access, w: Weights, win: seq<nat>)
      requires Hashed() && r.page != 0 && w == Counts(base, run, hash) && win == Seen(run, hash, r.page)
      requires Evictions(run, hash) + (if Holder(run, hash, hash(r.page)) in {0, r.page} then 0 else 1) == conflicts
      requires mem[hash(r.page)] == Encode(r.page, Touch(win, r.tid)) && Holds(Met(w, r.tid, win))
      requires forall i: nat | i < mem.Length && i != hash(r.page) :: mem[i] == SlotOf(run, hash, i)
      ensures Holds(Counts(base, run + [r], hash)) && conflicts == Evictions(run + [r], hash)
      ensures forall i: nat | i < mem.Length :: mem[i] == SlotOf(run + [r], hash, i)
    {
      forall a: nat, b: nat
        ensures Counts(base, run + [r], hash)(a, b) == Met(w, r.tid, win)(a, b)
        ensures Evictions(run + [r], hash) == conflicts
      {
        CountStep(run, hash, r, base, a, b);
      }
      forall i: nat | i < mem.Length
        ensures mem[i] == SlotOf(run + [r], hash, i)
      {
        SlotStep(run, hash, r, i);
      }
    }
  }

  /** One of `a`, `b` makes the access and the other is a sharer of its page. */
  predicate Sharing(was: Slot, r: Access, a: nat, b: nat) {
    && was.pgAddr == r.page
    && ((r.tid == a && (b == was.sharer0 || b == was.sharer1))
        || (r.tid == b && (a == was.sharer0 || a == was.sharer1)))
  }

  lemma SharersMeet(was: Slot, r: Access, win: seq<nat>, a: nat, b: nat)
    requires |win| <= 2 && (if was.pgAddr == r.page then was else Slot(r.page, -1, -1)) == Encode(r.page, win)
    ensures Sharing(was, r, a, b) <==> Meets(r.tid, win, a, b)
  {
  }

  ghost predicate Same(v: Weights, w: Weights) {
    forall a: nat, b: nat | a != b :: v(a, b) == w(a, b)
  }

  /** The increments of the four branches: one for every member of the window but `tid` itself. */
  function Increments(w: Weights, tid: nat, win: seq<nat>): Weights {
    if |win| == 0 || (|win| == 1 && win[0] == tid) then w
    else if |win| == 1 || win[1] == tid then Plus(w, tid, win[0])
    else if win[0] == tid then Plus(w, tid, win[1])
    else Plus(Plus(w, tid, win[0]), tid, win[1])
  }

  lemma IncrementsAreMeetings(w: Weights, tid: nat, win: seq<nat>)
    requires |win| <= 2 && (|win| == 2 ==> win[0] != win[1])
    ensures Same(Increments(w, tid, win), Met(w, tid, win))
  {
    forall a: nat, b: nat | a != b
      ensures Increments(w, tid, win)(a, b) == Met(w, tid, win)(a, b)
    {
      if |win| == 2 && win[0] != tid && win[1] != tid {
        var u := Plus(w, tid, win[0]);
        assert u(a, b) == w(a, b) + (if SamePair(a, b, tid, win[0]) then 1 else 0);
        assert Plus(u, tid, win[1])(a, b) == u(a, b) + (if SamePair(a, b, tid, win[1]) then 1 else 0);
      }
    }
  }

  /** `w` after an access by `tid` to a page with window `win`. */
  function Met(w: Weights, tid: nat, win: seq<nat>): Weights {
    (a: nat, b: nat) => MetAt(w, tid, win, a, b)
  }

  function MetAt(w: Weights, tid: nat, win: seq<nat>, a: nat, b: nat): nat {
    w(a, b) + (if Meets(tid, win, a, b) then 1 else 0)
  }

  /** What one more access does to the slots. */
  lemma SlotStep(run: Run, hash: Hash, r: Access, i: nat)
    requires r.page != 0
    ensures SlotOf(run + [r], hash, i) ==
              if i == hash(r.page) then Encode(r.page, Touch(Seen(run, hash, r.page), r.tid)) else SlotOf(run, hash, i)
  {
    var more, k := run + [r], hash(r.page);
    assert more[..|more| - 1] == run;
    if i == k {
      if Holder(run, hash, k) == r.page {
        WindowStep(Segment(run, hash, k), r.tid);
      } else {
        WindowStep([], r.tid);
        assert [] + [r.tid] == [r.tid];
      }
    }
  }

  /** What one more access does to the counters. */
  lemma CountStep(run: Run, hash: Hash, r: Access, base: Weights, a: nat, b: nat)
    ensures Counts(base, run + [r], hash)(a, b) == Met(Counts(base, run, hash), r.tid, Seen(run, hash, r.page))(a, b)
    ensures Evictions(run + [r], hash) ==
              Evictions(run, hash) + (if Holder(run, hash, hash(r.page)) !in {0, r.page} then 1 else 0)
  {
    assert (run + [r])[..|run|] == run;
  }

  /** What one more access does to the cells of different threads below `n`. */
  lemma CellsStep(run: Run, hash: Hash, r: Access, base: Weights, before: Weights, after: Weights, n: nat)
    requires forall a: nat, b: nat | a < n && b < n && a != b :: before(a, b) == Wrap(Counts(base, run, hash)(a, b))
    requires forall a: nat, b: nat | a < n && b < n && a != b ::
               after(a, b) == Wrap(Counts(base, run + [r], hash)(a, b))
    ensures var w := Seen(run, hash, r.page);
            forall a: nat, b: nat | a < n && b < n && a != b ::
              after(a, b) == if (r.tid == a && b in w) || (r.tid == b && a in w) then Bump(before(a, b))
                             else before(a, b)
  {
    forall a: nat, b: nat | a < n && b < n && a != b
      ensures after(a, b) == if Meets(r.tid, Seen(run, hash, r.page), a, b) then Bump(before(a, b)) else before(a, b)
    {
      CountStep(run, hash, r, base, a, b);
      WrapBump(Counts(base, run, hash)(a, b));
    }
  }

  lemma WrapBump(n: nat)
    ensures Bump(Wrap(n)) == Wrap(n + 1)
  {
    WrapIsModulo(n);
    WrapIsModulo(n + 1);
    WrapIsModulo(Wrap(n) + 1);
  }

  /** What the slot of a page is turned into before the access is recorded. */
  lemma Claim(run: Run, hash: Hash, page: nat)
    requires Real(run) && page != 0
    ensures var was := SlotOf(run, hash, hash(page));
            && (if was.pgAddr == page then was else Slot(page, -1, -1)) == Encode(page, Seen(run, hash, page))
            && was.pgAddr == Holder(run, hash, hash(page))
  {
  }

  lemma SeenTids(run: Run, hash: Hash, page: nat, n: nat)
    requires forall i | 0 <= i < |run| :: run[i].tid < n
    ensures forall i | 0 <= i < |Seen(run, hash, page)| :: Seen(run, hash, page)[i] < n
    ensures |Seen(run, hash, page)| == 2 ==> Seen(run, hash, page)[0] != Seen(run, hash, page)[1]
  {
    var h := Segment(run, hash, hash(page));
    WindowDistinct(h);
    forall i | 0 <= i < |Window(h)|
      ensures Window(h)[i] < n
    {
      assert Window(h)[i] in Window(h);
      SegmentMembers(run, hash, hash(page), Window(h)[i]);
    }
  }
}
