/** Number facts shared by the other modules: powers of two, products of arity
    lists, division by a known quotient, and the pigeonhole principle. */
module Arithmetic {

  datatype Option<+T> = None | Some(value: T)

  function Min(a: int, b: int): int {
    if a <= b then a else b
  }

  function Pow2(n: nat): (r: nat)
    ensures r >= 1
  {
    if n == 0 then 1 else 2 * Pow2(n - 1)
  }

  /** `a >> n` */
  function ShiftRight(a: nat, n: nat): nat {
    if n == 0 then a else ShiftRight(a, n - 1) / 2
  }

  lemma {:induction false} ShiftIsQuotient(a: nat, n: nat)
    ensures ShiftRight(a, n) == a / Pow2(n)
  {
    if n > 0 {
      ShiftIsQuotient(a, n - 1);
      QuotientOfQuotient(a, Pow2(n), Pow2(n - 1), 2);
    }
  }

  lemma {:induction false} Pow2Adds(m: nat, n: nat)
    ensures Pow2(m + n) == Pow2(m) * Pow2(n)
  {
    if n > 0 {
      Pow2Adds(m, n - 1);
      assert Pow2(m) * (2 * Pow2(n - 1)) == 2 * (Pow2(m) * Pow2(n - 1));
    }
  }

  lemma {:induction false} ShiftKeepsHighBits(a: nat, n: nat, k: nat)
    requires k * Pow2(n) <= a
    ensures k <= ShiftRight(a, n)
  {
    if n > 0 {
      assert k * Pow2(n) == 2 * k * Pow2(n - 1);
      ShiftKeepsHighBits(a, n - 1, 2 * k);
    }
  }

  lemma {:induction false} Pow2Monotone(a: nat, b: nat)
    requires a <= b
    ensures Pow2(a) <= Pow2(b)
    decreases b
  {
    if a < b {
      Pow2Monotone(a, b - 1);
    }
  }

  function Product(s: seq<nat>): nat {
    if s == [] then 1 else s[0] * Product(s[1..])
  }

  lemma {:induction false} ProductConcat(s: seq<nat>, t: seq<nat>)
    ensures Product(s + t) == Product(s) * Product(t)
  {
    if s == [] {
      assert s + t == t;
    } else {
      ProductConcat(s[1..], t);
      assert (s + t)[1..] == s[1..] + t;
      MulAssociates(s[0], Product(s[1..]), Product(t));
    }
  }

  lemma {:induction false} ProductPositive(s: seq<nat>)
    requires forall i | 0 <= i < |s| :: s[i] >= 1
    ensures Product(s) >= 1
  {
    if s != [] {
      ProductPositive(s[1..]);
      MulMonotone(1, s[0], 1, Product(s[1..]));
    }
  }

  /** `j` copies of `n`: multiplication kept out of the verifier's sight. */
  function Times(j: nat, n: nat): nat {
    if j == 0 then 0 else Times(j - 1, n) + n
  }

  lemma {:induction false} TimesIsProduct(j: nat, n: nat)
    ensures Times(j, n) == j * n
  {
    if j > 0 {
      TimesIsProduct(j - 1, n);
      assert (j - 1) * n + n == j * n;
    }
  }

  lemma {:induction false} TimesMonotone(j: nat, k: nat, n: nat)
    requires j <= k
    ensures Times(j, n) <= Times(k, n)
    decreases k
  {
    if j < k {
      TimesMonotone(j, k - 1, n);
    }
  }

  lemma MulAssociates(a: int, b: int, c: int)
    ensures a * b * c == a * (b * c)
  {}

  lemma MulMonotone(a: nat, b: nat, c: nat, d: nat)
    requires a <= b && c <= d
    ensures a * c <= b * d
  {
    assert (b - a) * c >= 0;
    assert b * (d - c) >= 0;
  }

  /** Two-digit numbers with a bounded low digit are equal only digit by digit. */
  lemma DigitsUnique(r: int, x: nat, s: int, y: nat, c: nat)
    requires x < c && y < c && x + c * r == y + c * s
    ensures x == y && r == s
  {
    if r > s {
      assert c * r == c * s + c * (r - s);
      assert c * (r - s) == c + c * (r - s - 1);
      MulNonNegative(c, r - s - 1);
    } else if r < s {
      assert c * s == c * r + c * (s - r);
      assert c * (s - r) == c + c * (s - r - 1);
      MulNonNegative(c, s - r - 1);
    }
  }

  lemma MulNonNegative(a: nat, b: nat)
    ensures a * b >= 0
  {}

  /** Quotient and remainder of a number written in base `c`. */
  lemma DivModOf(r: nat, c: nat, x: nat)
    requires x < c
    ensures (c * r + x) / c == r && (c * r + x) % c == x
  {
    var n := c * r + x;
    assert x + c * r == n % c + c * (n / c);
    DigitsUnique(r, x, n / c, n % c, c);
  }

  lemma QuotientBelow(q: nat, l: nat, a: nat)
    requires l >= 1 && q < a * l
    ensures q / l < a
  {
    var j := q / l;
    assert q == l * j + q % l;
    if j >= a {
      MulMonotone(a, j, l, l);
      MulCommutes(j, l);
      assert false;
    }
  }

  lemma MulCommutes(a: int, b: int)
    ensures a * b == b * a
  {}

  lemma ExactQuotient(n: nat, k: nat, b: nat)
    requires b >= 1 && n == k * b
    ensures n / b == k && n == b * (n / b)
  {
    MulCommutes(k, b);
    DivModOf(k, b, 0);
  }

  /** Dividing by a block size that divides `l` factors through dividing by `l`. */
  lemma QuotientSplit(q: nat, l: nat, b: nat, k: nat)
    requires b >= 1 && l >= 1 && l == b * k
    ensures q / b == k * (q / l) + q % l / b
    ensures q % l / b < k
  {
    SplitValues(q, l, b, k, q / l, q % l, q % l / b, q % l % b);
  }

  lemma SplitValues(q: nat, l: nat, b: nat, k: nat, i: nat, x: nat, y: nat, z: nat)
    requires b >= 1 && q == l * i + x && l == b * k && x == b * y + z && z < b && x < l
    ensures q / b == k * i + y && y < k
  {
    Regroup(q, l, b, i, x, k, y, z);
    DivModOf(k * i + y, b, z);
    DivModOf(y, b, z);
    MulCommutes(k, b);
    QuotientBelow(x, b, k);
  }

  lemma Regroup(q: nat, l: nat, b: nat, i: nat, x: nat, k: nat, y: nat, z: nat)
    requires q == l * i + x && l == b * k && x == b * y + z
    ensures q == b * (k * i + y) + z
  {
    MulAssociates(b, k, i);
    MulDistributes(b, k * i, y);
  }

  lemma MulDistributes(a: int, b: int, c: int)
    ensures a * (b + c) == a * b + a * c
  {}

  lemma QuotientOfQuotient(q: nat, l: nat, b: nat, k: nat)
    requires b >= 1 && l >= 1 && l == b * k
    ensures k >= 1 && q / l == q / b / k && q % l / b == q / b % k
  {
    if k == 0 {
      MulCommutes(b, k);
      assert false;
    }
    QuotientSplit(q, l, b, k);
    DivModOf(q / l, k, q % l / b);
  }

  lemma SameDigits(m: nat, n: nat, k: nat)
    requires k >= 1 && m / k == n / k && m % k == n % k
    ensures m == n
  {
    var i, x := m / k, m % k;
    assert m == k * i + x;
    assert n == k * i + x;
  }

  lemma SameBlock(q: nat, r: nat, l: nat, b: nat, k: nat)
    requires b >= 1 && l >= 1 && l == b * k
    ensures q / b == r / b <==> q / l == r / l && q % l / b == r % l / b
  {
    QuotientOfQuotient(q, l, b, k);
    QuotientOfQuotient(r, l, b, k);
    if q / l == r / l && q % l / b == r % l / b {
      SameDigits(q / b, r / b, k);
    }
  }

  /** Dividing a number of blocks of size `l` and a rest by a size that divides `l`. */
  lemma QuotientOfParts(f: nat, o: nat, l: nat, b: nat, p: nat)
    requires b >= 1 && l == p * b && o < l
    ensures (f * l + o) / b == p * f + o / b && o / b < p
  {
    MulCommutes(p, b);
    MulCommutes(f, l);
    SplitValues(f * l + o, l, b, p, f, o, o / b, o % b);
  }

  lemma TwoDigitBound(x: nat, c: nat, r: nat, a: nat)
    requires x < c && r < a
    ensures x + c * r < a * c
  {
    MulMonotone(c, c, r + 1, a);
    assert c * (r + 1) == c * r + c;
  }

  ghost predicate Distinct(s: seq<nat>) {
    forall i, j | 0 <= i < j < |s| :: s[i] != s[j]
  }

  ghost function Elems(s: seq<nat>): set<nat> {
    set x | x in s
  }

  lemma {:induction false} DistinctCardinality(s: seq<nat>)
    requires Distinct(s)
    ensures |Elems(s)| == |s|
  {
    if s != [] {
      var k := |s| - 1;
      DistinctCardinality(s[..k]);
      assert s == s[..k] + [s[k]];
      assert Elems(s) == Elems(s[..k]) + {s[k]};
      assert s[k] !in s[..k];
    }
  }

  ghost function NumbersBelow(n: nat): set<nat> {
    if n == 0 then {} else NumbersBelow(n - 1) + {n - 1}
  }

  lemma {:induction false} InBelow(n: nat, e: nat)
    ensures e in NumbersBelow(n) <==> e < n
  {
    if n > 0 {
      InBelow(n - 1, e);
    }
  }

  lemma {:induction false} BelowCardinality(n: nat)
    ensures |NumbersBelow(n)| == n
  {
    if n > 0 {
      BelowCardinality(n - 1);
      InBelow(n - 1, n - 1);
    }
  }

  lemma SubsetCardinality(a: set<nat>, b: set<nat>)
    requires a <= b
    ensures |a| <= |b|
    ensures |a| == |b| ==> a == b
  {
    assert b == a + (b - a);
    assert |b| == |a| + |b - a|;
  }

  /** A repetition-free list of numbers below `n` either leaves one out or, when it
      has `n` entries, lists them all. */
  lemma Pigeonhole(s: seq<nat>, n: nat)
    requires Distinct(s) && forall i | 0 <= i < |s| :: s[i] < n
    ensures |s| <= n
    ensures |s| < n ==> exists e: nat :: e < n && e !in s
    ensures |s| == n ==> forall e: nat | e < n :: e in s
  {
    DistinctCardinality(s);
    BelowCardinality(n);
    forall e: nat
      ensures e in NumbersBelow(n) <==> e < n
    {
      InBelow(n, e);
    }
    assert Elems(s) <= NumbersBelow(n);
    SubsetCardinality(Elems(s), NumbersBelow(n));
    if |s| < n {
      assert Elems(s) != NumbersBelow(n);
      var e: nat :| e in NumbersBelow(n) && e !in Elems(s);
      assert e < n && e !in s;
    } else {
      forall e: nat | e < n
        ensures e in s
      {
        assert e in NumbersBelow(n);
      }
    }
  }
}
