/** The shift and count loops that size the distance tables, and the square tables
    addressed by shifting a row index. */
module Lib {
  import opened Arithmetic
  import opened Matrices

  /** The least power of two not below `v`. */
  method NextPowerOfTwo(v: nat) returns (r: nat, ghost k: nat)
    requires v <= 0x8000_0000_0000_0000
    ensures r == Pow2(k) && v <= r && (k > 0 ==> Pow2(k - 1) < v)
  {
    r := 1;
    k := 0;
    while r < v
      invariant r == Pow2(k) && (k > 0 ==> Pow2(k - 1) < v)
      decreases v - r
    {
      r := r * 2;
      k := k + 1;
    }
  }

  /** The least exponent whose power of two reaches `v`. */
  method Log2(v: nat) returns (r: nat)
    requires v <= 0x4000_0000
    ensures v <= Pow2(r) && (r > 0 ==> Pow2(r - 1) < v)
  {
    r := 0;
    while Pow2(r) < v
      invariant r > 0 ==> Pow2(r - 1) < v
      decreases v - Pow2(r)
    {
      r := r + 1;
    }
  }

  /** On powers of two the two loops agree. */
  lemma LogOfPower(k: nat, r: nat)
    requires Pow2(k) <= Pow2(r) && (r > 0 ==> Pow2(r - 1) < Pow2(k))
    ensures r == k
  {
    if r < k {
      Pow2Monotone(r + 1, k);
    } else if r > k {
      Pow2Monotone(k, r - 1);
    }
  }

  /** A square table of `unsigned`, its rows a power of two long. */
  class Grid {
    const bits: nat
    const cells: array<Word>

    ghost predicate Valid() {
      cells.Length == Pow2(bits) * Pow2(bits)
    }

    ghost predicate Inside(i: nat, j: nat) {
      i < Pow2(bits) && j < Pow2(bits)
    }

    constructor (n: nat)
      requires n <= 0x8000
      ensures Valid() && fresh(cells) && n <= Pow2(bits) && (bits > 0 ==> Pow2(bits - 1) < n)
      ensures cells.Length <= 0x4000_0000
    {
      var dim, k := NextPowerOfTwo(n);
      SquareFits(n, k);
      var log := Log2(dim);
      LogOfPower(k, log);
      bits := log;
      cells := new Word[dim * dim];
    }

    function At(i: nat, j: nat): Word
      requires Valid() && Inside(i, j)
      reads cells
    {
      CellInside(bits, i, j);
      cells[i * Pow2(bits) + j]
    }

    method Set(i: nat, j: nat, v: Word)
      requires Valid() && Inside(i, j)
      modifies cells
      ensures forall k: nat, l: nat | Inside(k, l) :: At(k, l) == if k == i && l == j then v else old(At(k, l))
    {
      CellInside(bits, i, j);
      cells[i * Pow2(bits) + j] := v;
      forall k: nat, l: nat | Inside(k, l) && (k != i || l != j)
        ensures At(k, l) == old(At(k, l))
      {
        CellInside(bits, k, l);
        CellsApart(bits, i, j, k, l);
      }
    }
  }

  /** The square of the row length, a 32-bit product, fits exactly up to 32768 rows. */
  lemma SquareFits(n: nat, k: nat)
    requires n <= Pow2(k) && (k > 0 ==> Pow2(k - 1) < n)
    ensures n <= 0x8000 <==> Pow2(k) * Pow2(k) < 0x1_0000_0000
    ensures n <= 0x8000 ==> Pow2(k) <= 0x8000 && Pow2(k) * Pow2(k) <= 0x4000_0000
  {
    assert Pow2(10) == 1024;
    assert Pow2(15) == 0x8000 && Pow2(16) == 0x1_0000;
    if k > 15 {
      Pow2Monotone(15, k - 1);
      Pow2Monotone(16, k);
      MulMonotone(0x1_0000, Pow2(k), 0x1_0000, Pow2(k));
    } else {
      Pow2Monotone(k, 15);
      MulMonotone(Pow2(k), 0x8000, Pow2(k), 0x8000);
    }
  }

  lemma PowerThirty()
    ensures Pow2(30) == 0x4000_0000
  {
    assert Pow2(10) == 1024;
    assert Pow2(20) == 1024 * 1024;
  }

  lemma CellInside(bits: nat, i: nat, j: nat)
    requires i < Pow2(bits) && j < Pow2(bits)
    ensures i * Pow2(bits) + j < Pow2(bits) * Pow2(bits)
  {
    MulCommutes(i, Pow2(bits));
    TwoDigitBound(j, Pow2(bits), i, Pow2(bits));
  }

  lemma CellsApart(bits: nat, i: nat, j: nat, k: nat, l: nat)
    requires j < Pow2(bits) && l < Pow2(bits) && (i != k || j != l)
    ensures i * Pow2(bits) + j != k * Pow2(bits) + l
  {
    MulCommutes(i, Pow2(bits));
    MulCommutes(k, Pow2(bits));
    if i * Pow2(bits) + j == k * Pow2(bits) + l {
      DigitsUnique(i, j, k, l, Pow2(bits));
    }
  }
}
