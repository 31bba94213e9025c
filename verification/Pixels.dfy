/**
  Images as tables of pixels, row by row, and the sums that the image code forms over their
  rows, columns and blocks. Doubles are modelled as reals.
*/
module Pixels {

  type Table = seq<seq<real>>

  predicate IsTable(p: Table, height: nat, width: nat) {
    |p| == height && forall y :: 0 <= y < height ==> |p[y]| == width
  }

  /** The pixel in row y and column x, 0 outside the image */
  function At(p: Table, y: int, x: int): real {
    if 0 <= y < |p| && 0 <= x < |p[y]| then p[y][x] else 0.0
  }

  ghost function TableOf(a: array2<real>): (p: Table)
    reads a
    ensures IsTable(p, a.Length0, a.Length1)
    ensures forall y, x :: 0 <= y < a.Length0 && 0 <= x < a.Length1 ==> At(p, y, x) == a[y, x]
  {
    seq(a.Length0, y requires 0 <= y < a.Length0 reads a =>
      seq(a.Length1, x requires 0 <= x < a.Length1 reads a => a[y, x]))
  }

  /** Two images of one size with the same pixels are the same */
  lemma SamePixels(p: Table, q: Table, height: nat, width: nat)
    requires IsTable(p, height, width) && IsTable(q, height, width)
    requires forall y, x :: 0 <= y < height && 0 <= x < width ==> At(p, y, x) == At(q, y, x)
    ensures p == q
  {
    forall y | 0 <= y < height ensures p[y] == q[y] {
      forall x | 0 <= x < width ensures p[y][x] == q[y][x] {
        assert At(p, y, x) == At(q, y, x);
      }
    }
  }

  // ----- repeated addition, which keeps the arithmetic linear -----

  function Times(n: nat, v: real): real {
    if n == 0 then 0.0 else Times(n - 1, v) + v
  }

  lemma {:induction false} TimesIsProduct(n: nat, v: real)
    ensures Times(n, v) == n as real * v
  {
    if n > 0 {
      TimesIsProduct(n - 1, v);
      assert n as real == (n - 1) as real + 1.0;
      assert n as real * v == (n - 1) as real * v + v;
    }
  }

  lemma {:induction false} TimesOrder(m: nat, n: nat, v: real)
    requires m <= n && v >= 0.0
    ensures 0.0 <= Times(m, v) <= Times(n, v)
    decreases n
  {
    if m < n {
      TimesOrder(m, n - 1, v);
    } else if m > 0 {
      TimesOrder(m - 1, n - 1, v);
    }
  }

  lemma {:induction false} TimesOfSum(a: nat, b: nat, v: real)
    ensures Times(a + b, v) == Times(a, v) + Times(b, v)
  {
    if b > 0 {
      TimesOfSum(a, b - 1, v);
    }
  }

  lemma {:induction false} TimesCommute(m: nat, n: nat, v: real)
    ensures Times(m, Times(n, v)) == Times(n, Times(m, v))
  {
    if m > 0 {
      TimesCommute(m - 1, n, v);
      TimesAdds(n, Times(m - 1, v), v);
    } else {
      TimesZero(n);
    }
  }

  lemma {:induction false} TimesAdds(k: nat, a: real, b: real)
    ensures Times(k, a + b) == Times(k, a) + Times(k, b)
  {
    if k > 0 {
      TimesAdds(k - 1, a, b);
    }
  }

  lemma {:induction false} TimesZero(k: nat)
    ensures Times(k, 0.0) == 0.0
  {
    if k > 0 {
      TimesZero(k - 1);
    }
  }

  // ----- sums -----

  /** The n pixels of column x from row y0 on */
  function ColumnSum(p: Table, y0: int, x: int, n: nat): real {
    if n == 0 then 0.0 else ColumnSum(p, y0, x, n - 1) + At(p, y0 + n - 1, x)
  }

  /** The n pixels of row y from column x0 on */
  function RowSum(p: Table, y: int, x0: int, n: nat): real {
    if n == 0 then 0.0 else RowSum(p, y, x0, n - 1) + At(p, y, x0 + n - 1)
  }

  /** The block of m rows and n columns with this corner, column by column */
  function BlockSum(p: Table, y0: int, x0: int, m: nat, n: nat): real {
    if n == 0 then 0.0 else BlockSum(p, y0, x0, m, n - 1) + ColumnSum(p, y0, x0 + n - 1, m)
  }

  /** Exchanging the double sum: a block grows by a row as it grows by a column */
  lemma {:induction false} BlockGrowsByRow(p: Table, y0: int, x0: int, m: nat, n: nat)
    ensures BlockSum(p, y0, x0, m + 1, n) == BlockSum(p, y0, x0, m, n) + RowSum(p, y0 + m, x0, n)
  {
    if n > 0 {
      BlockGrowsByRow(p, y0, x0, m, n - 1);
      assert ColumnSum(p, y0, x0 + n - 1, m + 1) == ColumnSum(p, y0, x0 + n - 1, m) + At(p, y0 + m, x0 + n - 1);
    }
  }

  lemma {:induction false} EmptyBlock(p: Table, y0: int, x0: int, n: nat)
    ensures BlockSum(p, y0, x0, 0, n) == 0.0
  {
    if n > 0 {
      EmptyBlock(p, y0, x0, n - 1);
    }
  }

  lemma {:induction false} ColumnConstant(p: Table, y0: int, x: int, n: nat, v: real)
    requires forall y :: y0 <= y < y0 + n ==> At(p, y, x) == v
    ensures ColumnSum(p, y0, x, n) == Times(n, v)
  {
    if n > 0 {
      ColumnConstant(p, y0, x, n - 1, v);
    }
  }

  lemma {:induction false} BlockConstant(p: Table, y0: int, x0: int, m: nat, n: nat, v: real)
    requires forall y, x :: y0 <= y < y0 + m && x0 <= x < x0 + n ==> At(p, y, x) == v
    ensures BlockSum(p, y0, x0, m, n) == Times(n, Times(m, v))
  {
    if n > 0 {
      BlockConstant(p, y0, x0, m, n - 1, v);
      ColumnConstant(p, y0, x0 + n - 1, m, v);
    }
  }

  /** If k times every pixel of p is that of q or falls short of it by at most e, so are the sums */
  lemma {:induction false} ColumnSandwich(p: Table, q: Table, k: nat, e: real, y0: int, x: int, n: nat)
    requires forall y :: y0 <= y < y0 + n ==> At(q, y, x) - e <= Times(k, At(p, y, x)) <= At(q, y, x)
    ensures ColumnSum(q, y0, x, n) - Times(n, e) <= Times(k, ColumnSum(p, y0, x, n)) <= ColumnSum(q, y0, x, n)
  {
    if n > 0 {
      ColumnSandwich(p, q, k, e, y0, x, n - 1);
      TimesAdds(k, ColumnSum(p, y0, x, n - 1), At(p, y0 + n - 1, x));
    } else {
      TimesZero(k);
    }
  }

  lemma {:induction false} BlockSandwich(p: Table, q: Table, k: nat, e: real, y0: int, x0: int, m: nat, n: nat)
    requires forall y, x :: y0 <= y < y0 + m && x0 <= x < x0 + n ==>
             At(q, y, x) - e <= Times(k, At(p, y, x)) <= At(q, y, x)
    ensures BlockSum(q, y0, x0, m, n) - Times(n, Times(m, e)) <= Times(k, BlockSum(p, y0, x0, m, n))
            <= BlockSum(q, y0, x0, m, n)
  {
    if n > 0 {
      BlockSandwich(p, q, k, e, y0, x0, m, n - 1);
      ColumnSandwich(p, q, k, e, y0, x0 + n - 1, m);
      TimesAdds(k, BlockSum(p, y0, x0, m, n - 1), ColumnSum(p, y0, x0 + n - 1, m));
    } else {
      TimesZero(k);
    }
  }

  /** Sums of pixels between 0 and v */
  lemma {:induction false} ColumnBound(p: Table, y0: int, x: int, n: nat, v: real)
    requires forall y :: y0 <= y < y0 + n ==> 0.0 <= At(p, y, x) <= v
    ensures 0.0 <= ColumnSum(p, y0, x, n) <= Times(n, v)
  {
    if n > 0 {
      ColumnBound(p, y0, x, n - 1, v);
    }
  }

  lemma {:induction false} BlockBound(p: Table, y0: int, x0: int, m: nat, n: nat, v: real)
    requires forall y, x :: y0 <= y < y0 + m && x0 <= x < x0 + n ==> 0.0 <= At(p, y, x) <= v
    ensures 0.0 <= BlockSum(p, y0, x0, m, n) <= Times(n, Times(m, v))
  {
    if n > 0 {
      BlockBound(p, y0, x0, m, n - 1, v);
      ColumnBound(p, y0, x0 + n - 1, m, v);
    }
  }
}
