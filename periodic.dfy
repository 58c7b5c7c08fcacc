/**
 * Periodic (toroidal) index arithmetic shared by both simulators, and the
 * 0/1 value of a cell.
 *
 * The C++ remainder operator truncates toward zero, so `(v % m)` is negative
 * for a negative dividend.  The modspace checks apply that raw operator and
 * expect a value in `[0, m)`; the wrap `((v % m) + m) % m` delivers it for
 * every integer.  Dafny's own `%` is Euclidean (never negative), so the C++
 * operator is written out as `CRem`.
 */
module Periodic {

  /** A cell as C++ converts a `bool` in arithmetic: 1 for on, 0 for off. */
  function Bit(b: bool): (n: nat)
    ensures n <= 1 && (n == 1 <==> b)
  {
    if b then 1 else 0
  }

  /**
   * C++ `a % m` for `m > 0`: the remainder of division truncated toward zero, written
   * as repeated subtraction (or addition) of the period, so that it keeps the sign of `a`.
   */
  function CRem(a: int, m: int): (r: int)
    requires m > 0
    ensures -m < r < m
    ensures a >= 0 ==> r >= 0
    ensures a <= 0 ==> r <= 0
    decreases if a < 0 then -a else a
  {
    if a >= m then CRem(a - m, m)
    else if a <= -m then CRem(a + m, m)
    else a
  }

  /** The quotient that goes with the truncated remainder: `a == q * m + CRem(a, m)`. */
  lemma {:induction false} CRemQuotient(a: int, m: int) returns (q: int)
    requires m > 0
    ensures a == q * m + CRem(a, m)
    decreases if a < 0 then -a else a
  {
    if a >= m {
      var q' := CRemQuotient(a - m, m);
      q := q' + 1;
      MulDistributes(q', 1, m);
    } else if a <= -m {
      var q' := CRemQuotient(a + m, m);
      q := q' - 1;
      MulDistributes(q', -1, m);
    } else {
      q := 0;
    }
  }

  /** The truncated remainder agrees with the Euclidean one on natural numbers and is its
      mirror image on negative numbers. */
  lemma CRemIsTruncated(a: int, m: int)
    requires m > 0
    ensures CRem(a, m) == if a >= 0 then a % m else -((-a) % m)
  {
    var q := CRemQuotient(a, m);
    var c := CRem(a, m);
    if a >= 0 {
      EuclidUnique(a, m, q, c);
    } else {
      MulNegates(q, m);
      EuclidUnique(-a, m, -q, -c);
    }
  }

  /** The modspace wrap `((v % m) + m) % m`, with `%` the C++ operator. */
  function Wrap(v: int, m: int): (r: int)
    requires m > 0
    ensures 0 <= r < m
  {
    CRem(CRem(v, m) + m, m)
  }

  /** The two corrections of the modspace formula land on Dafny's Euclidean remainder. */
  lemma WrapIsEuclidean(v: int, m: int)
    requires m > 0
    ensures Wrap(v, m) == v % m
  {
    CRemIsTruncated(v, m);
    CRemIsTruncated(CRem(v, m) + m, m);
    if v >= 0 {
      var c := v % m;
      EuclidUnique(c + m, m, 1, c);
    } else {
      var q, s := (-v) / m, (-v) % m;
      assert -v == q * m + s;
      MulNegates(q, m);
      if s == 0 {
        EuclidUnique(m, m, 1, 0);
        assert v == (-q) * m + 0;
        EuclidUnique(v, m, -q, 0);
      } else {
        EuclidUnique(m - s, m, 0, m - s);
        MulDistributes(-q, -1, m);
        assert v == (-q - 1) * m + (m - s);
        EuclidUnique(v, m, -q - 1, m - s);
      }
    }
  }

  /** An index already inside the period is left alone. */
  lemma WrapIdentity(v: int, m: int)
    requires m > 0 && 0 <= v < m
    ensures Wrap(v, m) == v
  {
    WrapIsEuclidean(v, m);
    EuclidUnique(v, m, 0, v);
  }

  /** Adding or removing any whole number of periods does not change the wrap. */
  lemma WrapPeriodic(v: int, k: int, m: int)
    requires m > 0
    ensures Wrap(v + k * m, m) == Wrap(v, m)
  {
    WrapIsEuclidean(v, m);
    WrapIsEuclidean(v + k * m, m);
    RemainderPeriodic(v, k, m);
  }

  /** The Euclidean remainder ignores whole periods. */
  lemma RemainderPeriodic(v: int, k: int, m: int)
    requires m > 0
    ensures (v + k * m) % m == v % m
  {
    var q, r := v / m, v % m;
    MulDistributes(q, k, m);
    EuclidUnique(v + k * m, m, q + k, r);
  }

  /** The remainder is determined by any decomposition `a == q * m + r` with `0 <= r < m`. */
  lemma EuclidUnique(a: int, m: int, q: int, r: int)
    requires m > 0 && 0 <= r < m && a == q * m + r
    ensures a % m == r && a / m == q
  {
    var q', r' := a / m, a % m;
    assert a == q' * m + r';
    MulDistributes(q', q - q', m);
    assert (q - q') * m == r' - r;
    if q > q' {
      MulAtLeastOnce(q - q', m);
    } else if q < q' {
      MulNegates(q - q', m);
      MulAtLeastOnce(q' - q, m);
    }
  }

  /** Multiplication distributes over a sum of multipliers. */
  lemma MulDistributes(a: int, b: int, m: int)
    ensures (a + b) * m == a * m + b * m
  {
  }

  /** Negating the multiplier negates the product. */
  lemma MulNegates(a: int, m: int)
    ensures (-a) * m == -(a * m)
  {
  }

  /** `d * m >= m` for a positive multiplier: the one non-linear step of `EuclidUnique`. */
  lemma {:induction false} MulAtLeastOnce(d: int, m: int)
    requires d >= 1 && m >= 0
    ensures d * m >= m
    decreases d
  {
    if d > 1 {
      MulAtLeastOnce(d - 1, m);
      MulDistributes(d - 1, 1, m);
    }
  }

  /** The left neighbour on a ring of m cells: the left neighbour of 0 is `m - 1`. */
  function LeftOf(i: int, m: int): (j: int)
    requires 0 <= i < m
    ensures 0 <= j < m
  {
    if i == 0 then m - 1 else i - 1
  }

  /** The right neighbour on a ring of m cells: the right neighbour of `m - 1` is 0. */
  function RightOf(i: int, m: int): (j: int)
    requires 0 <= i < m
    ensures 0 <= j < m
  {
    if i == m - 1 then 0 else i + 1
  }

  /** The step-by-one neighbours spelled out as cases are the modspace wrap of `i - 1` and
      `i + 1`. */
  lemma WrapNeighbours(i: int, m: int)
    requires 0 <= i < m
    ensures Wrap(i - 1, m) == LeftOf(i, m)
    ensures Wrap(i + 1, m) == RightOf(i, m)
  {
    WrapIsEuclidean(i - 1, m);
    WrapIsEuclidean(i + 1, m);
    if i == 0 {
      EuclidUnique(i - 1, m, -1, m - 1);
    } else {
      EuclidUnique(i - 1, m, 0, i - 1);
    }
    if i == m - 1 {
      EuclidUnique(i + 1, m, 1, 0);
    } else {
      EuclidUnique(i + 1, m, 0, i + 1);
    }
  }

  /** The five expected values of the modspace checks, all inside `[0, 7)`. */
  lemma ExpectedValues()
    ensures Wrap(5 + 5, 7) == 3
    ensures Wrap(3 - 5, 7) == 5
    ensures Wrap(5 + 7, 7) == 5 && Wrap(5, 7) == 5
    ensures Wrap(5 - 7, 7) == 5
    ensures Wrap(5 - 14, 7) == 5
  {
  }

  /** The raw C++ remainder the checks exercise gives -2, not the expected 5, for each
      negative dividend; only the wrap repairs it. */
  lemma RawRemainderIsNegative()
    ensures CRem(3 - 5, 7) == -2 && Wrap(3 - 5, 7) == 5
    ensures CRem(5 - 7, 7) == -2 && Wrap(5 - 7, 7) == 5
    ensures CRem(5 - 14, 7) == -2 && Wrap(5 - 14, 7) == 5
  {
  }

  /** For a non-negative dividend the raw remainder already is the wrap. */
  lemma WrapAgreesWithRemainderOnNaturals(v: int, m: int)
    requires m > 0 && v >= 0
    ensures Wrap(v, m) == CRem(v, m)
  {
  }
}
