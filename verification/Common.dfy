/** Small types and arithmetic shared by the modules. */
module Options {
  datatype Option<+T> = None | Some(value: T)
}

module Arithmetic {

  lemma CancelLess(a: int, b: int, k: int)
    requires k > 0 && a * k < b * k
    ensures a < b
  {
  }

  lemma SmallMultiple(k: int, d: int)
    requires -d < k * d < d
    ensures k == 0
  {
  }

  lemma Distribute(a: int, b: int, k: int)
    ensures (a + b) * k == a * k + b * k
  {
  }

  lemma NonNegative(a: nat, b: nat)
    ensures a * b >= 0
  {
  }

  lemma MulLe(a: int, b: int, k: nat)
    requires a <= b
    ensures a * k <= b * k
  {
    Distribute(b - a, a, k);
    NonNegative(b - a, k);
  }

  lemma MulLt(a: int, b: int, k: nat)
    requires a < b && k > 0
    ensures a * k < b * k
  {
    MulLe(a + 1, b, k);
    assert (a + 1) * k == a * k + k;
  }

  lemma DivMod(u: nat, d: nat)
    requires d > 0
    ensures u == u / d * d + u % d && 0 <= u % d < d && u / d >= 0
  {
  }

  /** Quotient and remainder are unique. */
  lemma DivUnique(n: nat, d: nat, q: nat, r: nat)
    requires d > 0 && n == q * d + r && r < d
    ensures n / d == q && n % d == r
  {
    DivMod(n, d);
    assert (q - n / d) * d == q * d - n / d * d;
    SmallMultiple(q - n / d, d);
  }

  /** A row of a grid ends inside the grid. */
  lemma RowBound(cols: nat, rows: nat, row: nat)
    requires row < rows
    ensures row * cols + cols <= rows * cols
  {
    MulLe(row + 1, rows, cols);
    Distribute(row, 1, cols);
  }
}
