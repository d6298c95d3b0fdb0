/** Which pairs of threads communicate through a page, told from the sequence of accesses
    alone: by an unbounded history per page, and by what a direct-mapped table that
    forgets a page on every collision can still see of it. */
module Windows {
  import opened Arithmetic

  /** An access by a thread to a page; page numbers are never zero. */
  datatype Access = Access(tid: nat, page: nat)

  type Run = seq<Access>

  /** Slot of a page in the table. */
  type Hash = nat -> nat

  ghost predicate Real(run: Run) {
    forall i | 0 <= i < |run| :: run[i].page != 0
  }

  // ---------------------------------------------------- the two latest accessors

  /** The most recent accessor other than `x`. */
  function LastOther(h: seq<nat>, x: nat): Option<nat> {
    if h == [] then None
    else if h[|h| - 1] != x then Some(h[|h| - 1])
    else LastOther(h[..|h| - 1], x)
  }

  /** The two most recent distinct accessors, most recent first. */
  function Window(h: seq<nat>): (w: seq<nat>)
    ensures |w| <= 2
  {
    if h == [] then []
    else
      var last := h[|h| - 1];
      match LastOther(h, last)
      case None => [last]
      case Some(other) => [last, other]
  }

  /** What an access does to a window. */
  function Touch(w: seq<nat>, tid: nat): seq<nat> {
    if w == [] then [tid]
    else if w[0] == tid then w
    else [tid, w[0]]
  }

  lemma {:induction false} LastOtherIsNot(h: seq<nat>, x: nat)
    ensures LastOther(h, x).Some? ==> LastOther(h, x).value != x && LastOther(h, x).value in h
  {
    if h != [] && h[|h| - 1] == x {
      LastOtherIsNot(h[..|h| - 1], x);
    }
  }

  /** The window's two members are different accessors. */
  lemma WindowDistinct(h: seq<nat>)
    ensures |Window(h)| == 2 ==> Window(h)[0] != Window(h)[1]
    ensures forall x | x in Window(h) :: x in h
    ensures h != [] ==> Window(h) != [] && Window(h)[0] == h[|h| - 1]
  {
    if h != [] {
      LastOtherIsNot(h, h[|h| - 1]);
    }
  }

  /** Where the most recent accessor other than `x` made its last access. */
  lemma {:induction false} LastOtherAt(h: seq<nat>, x: nat) returns (j: int)
    ensures -1 <= j < |h| && (LastOther(h, x).None? <==> j == -1)
    ensures j >= 0 ==> h[j] != x && LastOther(h, x) == Some(h[j])
    ensures forall k | j < k < |h| :: h[k] == x
  {
    if h == [] {
      j := -1;
    } else if h[|h| - 1] != x {
      j := |h| - 1;
    } else {
      j := LastOtherAt(h[..|h| - 1], x);
    }
  }

  /** `x` made access `j`, and only one other accessor, if any, came after it. */
  predicate StillRecent(h: seq<nat>, x: nat, j: nat) {
    j < |h| && h[j] == x && forall k, l | j < k < |h| && j < l < |h| && h[k] != x && h[l] != x :: h[k] == h[l]
  }

  /** The window holds exactly the accessors after whose last access at most one other accessor came. */
  lemma WindowMembers(h: seq<nat>, x: nat)
    ensures x in Window(h) <==> exists j: nat :: StillRecent(h, x, j)
  {
    if h != [] {
      var n := |h| - 1;
      var i := LastOtherAt(h, h[n]);
      if x in Window(h) {
        assert StillRecent(h, x, if x == h[n] then n else i);
      }
      if j: nat :| StillRecent(h, x, j) && x != h[n] {
        assert h[i] == x;
      }
    }
  }

  /** Updating a two-entry window on every access keeps it at the two most recent accessors. */
  lemma WindowStep(h: seq<nat>, tid: nat)
    ensures Window(h + [tid]) == Touch(Window(h), tid)
  {
    var more := h + [tid];
    assert more[..|more| - 1] == h;
    assert LastOther(more, tid) == LastOther(h, tid);
  }

  lemma {:induction false} LastOtherSuffix(h: seq<nat>, i: nat, x: nat)
    requires i <= |h|
    ensures LastOther(h[i..], x).Some? ==> LastOther(h, x) == LastOther(h[i..], x)
  {
    if i < |h| {
      var k := |h| - 1;
      assert h[i..][|h[i..]| - 1] == h[k];
      assert h[i..][..|h[i..]| - 1] == h[..k][i..];
      if h[k] == x {
        LastOtherSuffix(h[..k], i, x);
      }
    }
  }

  /** Forgetting the beginning of a history only shortens the window from its old end. */
  lemma WindowSuffix(h: seq<nat>, i: nat)
    requires i <= |h|
    ensures Window(h[i..]) <= Window(h)
  {
    if i < |h| {
      LastOtherSuffix(h, i, h[|h| - 1]);
    }
  }

  // ------------------------------------------------- ideal and table-based counting

  /** All accessors of a page, in order. */
  function History(run: Run, page: nat): seq<nat> {
    if run == [] then []
    else
      var before := History(run[..|run| - 1], page);
      if run[|run| - 1].page == page then before + [run[|run| - 1].tid] else before
  }

  /** The page that holds slot `k`, or zero if no access ever hit the slot. */
  function Holder(run: Run, hash: Hash, k: nat): nat {
    if run == [] then 0
    else if hash(run[|run| - 1].page) == k then run[|run| - 1].page
    else Holder(run[..|run| - 1], hash, k)
  }

  /** The accessors of that page since it last took the slot over. */
  function Segment(run: Run, hash: Hash, k: nat): seq<nat> {
    if run == [] then []
    else
      var before, r := run[..|run| - 1], run[|run| - 1];
      if hash(r.page) != k then Segment(before, hash, k)
      else if Holder(before, hash, k) == r.page then Segment(before, hash, k) + [r.tid]
      else [r.tid]
  }

  /** Accesses that evicted another page. */
  function Evictions(run: Run, hash: Hash): nat {
    if run == [] then 0
    else
      var before, r := run[..|run| - 1], run[|run| - 1];
      var holder := Holder(before, hash, hash(r.page));
      Evictions(before, hash) + (if holder != 0 && holder != r.page then 1 else 0)
  }

  /** The window the table still has for a page. */
  function Seen(run: Run, hash: Hash, page: nat): seq<nat> {
    if Holder(run, hash, hash(page)) == page then Window(Segment(run, hash, hash(page))) else []
  }

  /** An access by one of `a`, `b` while the other is in the page's window. */
  predicate Meets(tid: nat, w: seq<nat>, a: nat, b: nat) {
    (tid == a && b in w) || (tid == b && a in w)
  }

  /** Meetings of `a` and `b` if every page had an unbounded history. */
  function IdealCount(run: Run, a: nat, b: nat): nat {
    if run == [] then 0
    else
      var before, r := run[..|run| - 1], run[|run| - 1];
      IdealCount(before, a, b) + (if Meets(r.tid, Window(History(before, r.page)), a, b) then 1 else 0)
  }

  /** Meetings of `a` and `b` that the table sees. */
  function TableCount(run: Run, hash: Hash, a: nat, b: nat): nat {
    if run == [] then 0
    else
      var before, r := run[..|run| - 1], run[|run| - 1];
      TableCount(before, hash, a, b) + (if Meets(r.tid, Seen(before, hash, r.page), a, b) then 1 else 0)
  }

  /** A slot remembers the end of its page's history. */
  lemma {:induction false} SegmentIsSuffix(run: Run, hash: Hash, page: nat) returns (i: nat)
    requires Real(run) && page != 0 && Holder(run, hash, hash(page)) == page
    ensures i < |History(run, page)| && Segment(run, hash, hash(page)) == History(run, page)[i..]
  {
    var n := |run| - 1;
    var before, r := run[..n], run[n];
    var k := hash(page);
    if hash(r.page) != k {
      i := SegmentIsSuffix(before, hash, page);
    } else if Holder(before, hash, k) == page {
      i := SegmentIsSuffix(before, hash, page);
    } else {
      i := |History(before, page)|;
    }
  }

  /** The window in the table is a prefix of the ideal window. */
  lemma SeenIsPrefix(run: Run, hash: Hash, page: nat)
    requires Real(run) && page != 0
    ensures Seen(run, hash, page) <= Window(History(run, page))
  {
    if Holder(run, hash, hash(page)) == page {
      var i := SegmentIsSuffix(run, hash, page);
      WindowSuffix(History(run, page), i);
    }
  }

  lemma PrefixMember(v: seq<nat>, w: seq<nat>, x: nat)
    requires v <= w && x in v
    ensures x in w
  {
    var i :| 0 <= i < |v| && v[i] == x;
    assert w[i] == x;
  }

  /** Collisions only lose communication, they never invent any. */
  lemma {:induction false} TableUndercounts(run: Run, hash: Hash, a: nat, b: nat)
    requires Real(run)
    ensures TableCount(run, hash, a, b) <= IdealCount(run, a, b)
  {
    if run != [] {
      var before, r := run[..|run| - 1], run[|run| - 1];
      TableUndercounts(before, hash, a, b);
      SeenIsPrefix(before, hash, r.page);
      var v, w := Seen(before, hash, r.page), Window(History(before, r.page));
      if Meets(r.tid, v, a, b) {
        PrefixMember(v, w, if r.tid == a && b in v then b else a);
      }
    }
  }

  /** As long as nothing was evicted, the slot of a page remembers all of its history. */
  lemma {:induction false} NothingForgotten(run: Run, hash: Hash, page: nat)
    requires Real(run) && page != 0 && Evictions(run, hash) == 0 && History(run, page) != []
    ensures Holder(run, hash, hash(page)) == page && Segment(run, hash, hash(page)) == History(run, page)
  {
    var n := |run| - 1;
    var before, r, k := run[..n], run[n], hash(page);
    if History(before, page) != [] {
      NothingForgotten(before, hash, page);
    } else if Holder(before, hash, k) == page {
      var i := SegmentIsSuffix(before, hash, page);
    }
  }

  lemma SeenIsIdeal(run: Run, hash: Hash, page: nat)
    requires Real(run) && page != 0 && Evictions(run, hash) == 0
    ensures Seen(run, hash, page) == Window(History(run, page))
  {
    if History(run, page) != [] {
      NothingForgotten(run, hash, page);
    } else if Holder(run, hash, hash(page)) == page {
      var i := SegmentIsSuffix(run, hash, page);
    }
  }

  /** Without evictions nothing is lost. */
  lemma {:induction false} TableExact(run: Run, hash: Hash, a: nat, b: nat)
    requires Real(run) && Evictions(run, hash) == 0
    ensures TableCount(run, hash, a, b) == IdealCount(run, a, b)
  {
    if run != [] {
      var before, r := run[..|run| - 1], run[|run| - 1];
      TableExact(before, hash, a, b);
      SeenIsIdeal(before, hash, r.page);
    }
  }

  /** Every thread in a window made an access. */
  lemma {:induction false} SegmentMembers(run: Run, hash: Hash, k: nat, x: nat)
    requires x in Segment(run, hash, k)
    ensures exists i :: 0 <= i < |run| && run[i].tid == x
  {
    var n := |run| - 1;
    var before := run[..n];
    if x in Segment(before, hash, k) {
      SegmentMembers(before, hash, k, x);
      var i :| 0 <= i < |before| && before[i].tid == x;
      assert run[i].tid == x;
    } else {
      assert run[n].tid == x;
    }
  }
}
