/** Small shared vocabulary: optional values, results and integer bounds. */
module Prelude {

  datatype Option<+T> = None | Some(value: T)

  datatype Result<+T, +E> = Ok(value: T) | Err(error: E)

  function Min(a: int, b: int): int { if a <= b then a else b }

  function Max(a: int, b: int): int { if a >= b then a else b }

  function MinReal(a: real, b: real): real { if a <= b then a else b }

  predicate IsDigit(ch: char) { '0' <= ch <= '9' }

  /** The value of a decimal text. */
  function NumberOf(s: string): nat
    requires forall i | 0 <= i < |s| :: IsDigit(s[i])
  {
    if s == "" then 0
    else
      assert IsDigit(s[|s| - 1]);
      10 * NumberOf(s[..|s| - 1]) + (s[|s| - 1] as int - '0' as int)
  }

  function Power2(n: nat): nat { if n == 0 then 1 else 2 * Power2(n - 1) }

  lemma {:induction false} Power2Grows(m: nat, n: nat)
    requires m <= n
    ensures 1 <= Power2(m) <= Power2(n)
    decreases n
  {
    if m < n { Power2Grows(m, n - 1); } else if m > 0 { Power2Grows(m - 1, n - 1); }
  }

  /** Products of reals under a name, so that a proof can do without multiplication. */
  function Product(x: real, k: real): real { x * k }

  lemma ProductUnits(x: real)
    ensures Product(x, 1.0) == x && Product(x, 0.0) == 0.0 == Product(0.0, x)
  {
  }

  lemma ProductGrows(x: real, y: real, k: real)
    requires x <= y && k >= 0.0
    ensures Product(x, k) <= Product(y, k)
  {
    assert (y - x) * k >= 0.0;
  }

  lemma ProductGrowsRight(x: real, k: real, l: real)
    requires x >= 0.0 && k <= l
    ensures Product(x, k) <= Product(x, l)
  {
    assert x * (l - k) >= 0.0;
  }

  lemma ProductBelow(x: real, k: real)
    requires x > 0.0 && k < 1.0
    ensures Product(x, k) < x
  {
    var rest := 1.0 - k;
    assert x * rest > 0.0;
    assert x * k == x - x * rest;
  }

  lemma QuotientTimes(x: real, y: real)
    requires x != 0.0
    ensures Product(x, y / x) == y
  {
  }

  lemma NegativeProduct(x: real, k: real)
    requires x > 0.0 && k < 0.0
    ensures Product(x, k) < 0.0
  {
    assert x * -k > 0.0;
  }

  lemma Quotient(x: real, y: real)
    requires 0.0 <= y < x
    ensures 0.0 <= y / x < 1.0 && Product(x, y / x) == y
  {
    var q := y / x;
    QuotientTimes(x, y);
    hide Product;
    if q >= 1.0 {
      ProductGrowsRight(x, 1.0, q);
      ProductUnits(x);
    } else if q < 0.0 {
      NegativeProduct(x, q);
    }
  }
}
