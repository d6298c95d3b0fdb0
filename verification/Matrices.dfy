/** The communication matrix: a triangular view of a square buffer whose row length
    is a power of two, so that a cell is addressed by shifting. The buffer comes
    uninitialised from the allocator; `written` remembers which cells have a value. */
module Matrices {
  import opened Arithmetic
  import opened Affinity

  /** A C `unsigned`. */
  type Word = x: nat | x < 0x1_0000_0000

  /** Where the cell of the unordered pair `i`, `j` is stored. */
  function Index(bits: nat, i: nat, j: nat): nat {
    if i > j then i * Pow2(bits) + j else j * Pow2(bits) + i
  }

  lemma IndexInRange(bits: nat, i: nat, j: nat)
    requires i < Pow2(bits) && j < Pow2(bits)
    ensures Index(bits, i, j) < Pow2(bits) * Pow2(bits)
  {
    TwoDigitBound(j, Pow2(bits), i, Pow2(bits));
    TwoDigitBound(i, Pow2(bits), j, Pow2(bits));
  }

  /** A C `unsigned` after `++`. */
  function Bump(v: nat): Word {
    Wrap(v + 1)
  }

  predicate SamePair(k: nat, l: nat, i: nat, j: nat) {
    (k == i && l == j) || (k == j && l == i)
  }

  /** Two pairs share a cell only if they are the same unordered pair. */
  lemma IndexInjective(bits: nat, i: nat, j: nat, k: nat, l: nat)
    requires i < Pow2(bits) && j < Pow2(bits) && k < Pow2(bits) && l < Pow2(bits)
    requires Index(bits, i, j) == Index(bits, k, l)
    ensures (i == k && j == l) || (i == l && j == k)
  {
    var a, b := if i > j then i else j, if i > j then j else i;
    var c, d := if k > l then k else l, if k > l then l else k;
    DigitsUnique(a, b, c, d, Pow2(bits));
  }

  function CellAt(cells: seq<Word>, bits: nat, i: nat, j: nat): nat {
    if Index(bits, i, j) < |cells| then cells[Index(bits, i, j)] else 0
  }

  /** The communication a buffer records, as a value. */
  function Reading(cells: seq<Word>, bits: nat): Weights {
    (i: nat, j: nat) => CellAt(cells, bits, i, j)
  }

  lemma ReadingSymmetric(cells: seq<Word>, bits: nat)
    ensures Symmetric(Reading(cells, bits))
  {
  }

  /** Raw buffer positions on and above the diagonal hold zero. */
  ghost predicate UpperZero(cells: seq<Word>, bits: nat) {
    forall i: nat, j: nat | i <= j < Pow2(bits) :: RawZero(cells, bits, i, j)
  }

  predicate RawZero(cells: seq<Word>, bits: nat, i: nat, j: nat) {
    i * Pow2(bits) + j < |cells| ==> cells[i * Pow2(bits) + j] == 0
  }

  /** Changing the cell of `i`, `j` changes the reading of that pair only. */
  lemma ReadingAfter(cells: seq<Word>, bits: nat, i: nat, j: nat, v: Word, k: nat, l: nat)
    requires |cells| == Pow2(bits) * Pow2(bits) && i < Pow2(bits) && j < Pow2(bits) && k < Pow2(bits) && l < Pow2(bits)
    ensures Index(bits, i, j) < |cells|
    ensures Reading(cells[Index(bits, i, j) := v], bits)(k, l) ==
            if SamePair(k, l, i, j) then v else Reading(cells, bits)(k, l)
  {
    IndexInRange(bits, i, j);
    IndexInRange(bits, k, l);
    if Index(bits, k, l) == Index(bits, i, j) {
      IndexInjective(bits, k, l, i, j);
    }
  }

  lemma UpperZeroAfter(cells: seq<Word>, bits: nat, i: nat, j: nat, v: Word)
    requires |cells| == Pow2(bits) * Pow2(bits) && i < Pow2(bits) && j < Pow2(bits) && i != j && UpperZero(cells, bits)
    ensures Index(bits, i, j) < |cells| && UpperZero(cells[Index(bits, i, j) := v], bits)
  {
    IndexInRange(bits, i, j);
    var after := cells[Index(bits, i, j) := v];
    forall k: nat, l: nat | k <= l < Pow2(bits)
      ensures RawZero(after, bits, k, l)
    {
      assert RawZero(cells, bits, k, l);
      var a, b := if i > j then i else j, if i > j then j else i;
      if k * Pow2(bits) + l == a * Pow2(bits) + b {
        MulCommutes(k, Pow2(bits));
        MulCommutes(a, Pow2(bits));
        DigitsUnique(k, l, a, b, Pow2(bits));
        assert false;
      }
    }
  }

  class CommMatrix {
    const bits: nat
    const cells: array<Word>
    var nthreads: nat
    ghost var written: set<nat>

    ghost predicate Valid()
      reads this
    {
      && cells.Length == Pow2(bits) * Pow2(bits)
      && forall k | k in written :: k < cells.Length
    }

    /** Every cell of two different elements below `n` has a value. */
    ghost predicate Defined(n: nat)
      reads this
    {
      forall i: nat, j: nat | i < n && j < n && i != j :: Index(bits, i, j) in written
    }

    /** Every cell on the diagonal has a value. */
    ghost predicate DiagonalDefined(n: nat)
      reads this
    {
      forall i: nat | i < n :: Index(bits, i, i) in written
    }

    ghost function Values(): Weights
      reads this, cells
    {
      Reading(cells[..], bits)
    }

    constructor (bits: nat)
      ensures Valid() && fresh(cells)
      ensures this.bits == bits && nthreads == Pow2(bits) && written == {}
    {
      this.bits := bits;
      cells := new Word[Pow2(bits) * Pow2(bits)];
      nthreads := Pow2(bits);
      written := {};
    }

    /** Reads a cell; only a cell that has been written may be read. */
    function Get(i: nat, j: nat): (v: Word)
      requires Valid() && Index(bits, i, j) in written
      reads this, cells
      ensures v == Values()(i, j) && v == Values()(j, i)
    {
      if i > j then cells[i * Pow2(bits) + j] else cells[j * Pow2(bits) + i]
    }

    /** Zeroes the whole buffer. */
    method Clear()
      requires Valid()
      modifies cells, this`written
      ensures Valid() && Defined(Pow2(bits)) && DiagonalDefined(Pow2(bits))
      ensures forall k | 0 <= k < cells.Length :: cells[k] == 0
    {
      for k := 0 to cells.Length
        invariant forall i | 0 <= i < k :: cells[i] == 0
      {
        cells[k] := 0;
      }
      written := NumbersBelow(cells.Length);
      forall k: nat
        ensures k in written <==> k < cells.Length
      {
        InBelow(cells.Length, k);
      }
      forall i: nat, j: nat | i < Pow2(bits) && j < Pow2(bits)
        ensures Index(bits, i, j) in written
      {
        IndexInRange(bits, i, j);
      }
    }

    /** Counts one communication of two threads, wrapping like an `unsigned`. */
    method Inc(i: nat, j: nat)
      requires Valid() && Index(bits, i, j) in written
      modifies cells
      ensures cells[..] == old(cells[..])[Index(bits, i, j) := Bump(old(cells[Index(bits, i, j)]))]
    {
      if i > j {
        cells[i * Pow2(bits) + j] := Bump(cells[i * Pow2(bits) + j]);
      } else {
        cells[j * Pow2(bits) + i] := Bump(cells[j * Pow2(bits) + i]);
      }
    }

    method Set(i: nat, j: nat, v: Word)
      requires Valid() && i < Pow2(bits) && j < Pow2(bits)
      modifies cells, this`written
      ensures Valid() && written == old(written) + {Index(bits, i, j)}
      ensures forall k: nat, l: nat | k < Pow2(bits) && l < Pow2(bits) ::
                Values()(k, l) == if {k, l} == {i, j} then v else old(Values()(k, l))
    {
      IndexInRange(bits, i, j);
      if i > j {
        cells[i * Pow2(bits) + j] := v;
      } else {
        cells[j * Pow2(bits) + i] := v;
      }
      written := written + {Index(bits, i, j)};
      forall k: nat, l: nat | k < Pow2(bits) && l < Pow2(bits)
        ensures Values()(k, l) == if {k, l} == {i, j} then v else old(Values()(k, l))
      {
        IndexInRange(bits, k, l);
        if Index(bits, k, l) == Index(bits, i, j) {
          IndexInjective(bits, k, l, i, j);
        } else {
          assert {k, l} != {i, j};
        }
      }
    }
  }
}
