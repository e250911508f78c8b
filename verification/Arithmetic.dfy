/** Division facts for divisors that are not constants. */
module Arithmetic {

  function Max(a: int, b: int): int {
    if a < b then b else a
  }

  lemma MulMono(a: nat, b: nat, d: nat)
    requires a <= b
    ensures a * d <= b * d
  {
  }

  lemma MulAssoc(a: int, b: int, c: int)
    ensures a * (b * c) == a * b * c
  {
  }

  lemma MulSub(a: int, b: int, d: int)
    ensures (a - b) * d == a * d - b * d
    ensures (a + b) * d == a * d + b * d
  {
  }

  lemma MulStep(a: int, d: int)
    ensures (a + 1) * d == a * d + d
    ensures (a - 1) * d == a * d - d
  {
  }

  /** Quotient and remainder are determined by the division equation. */
  lemma DivModUnique(k: nat, d: nat, q: nat, r: nat)
    requires r < d && k == q * d + r
    ensures k / d == q && k % d == r
  {
    var q', r' := k / d, k % d;
    assert q' * d + r' == q * d + r;
    if q' < q {
      MulMono(q' + 1, q, d);
      assert false;
    } else if q < q' {
      MulMono(q + 1, q', d);
      assert false;
    }
  }

  lemma DivModSplit(k: nat, d: nat)
    requires 0 < d
    ensures k == (k / d) * d + k % d && 0 <= k / d && 0 <= k % d < d
  {
  }

  /** Division is monotone, and a quotient below `n` means a dividend below `n * d`. */
  lemma DivBound(k: nat, d: nat, n: nat)
    requires 0 < d
    ensures k < n * d <==> k / d < n
  {
    DivModSplit(k, d);
    if k / d < n {
      MulMono(k / d + 1, n, d);
    } else {
      MulMono(n, k / d, d);
    }
  }

  /** More than one block behind the start of block `j` of `n`: there is a next block. */
  lemma BlocksBehind(n: nat, j: nat, d: nat, rest: nat)
    requires j < n && j * d + rest <= n * d && d < rest
    ensures j + 1 < n
  {
    if n == j + 1 {
      MulStep(j, d);
    }
  }

  lemma DivMono(j: nat, k: nat, d: nat)
    requires 0 < d && j <= k
    ensures j / d <= k / d
  {
    DivModSplit(k, d);
    DivBound(j, d, k / d + 1);
    assert (k / d + 1) * d == (k / d) * d + d;
  }

  /** Dividing by a product is dividing twice. */
  lemma DivDiv(k: nat, a: nat, b: nat)
    requires 0 < a && 0 < b
    ensures a * b > 0 && k / (a * b) == k / a / b
    ensures k % (a * b) == (k / a % b) * a + k % a
  {
    var q, m := k / a, k % a;
    DivModSplit(k, a);
    DivModSplit(q, b);
    var x, y := q / b, q % b;
    assert k == (x * b + y) * a + m;
    assert (x * b + y) * a == x * (a * b) + y * a by {
      assert x * b * a == x * (a * b);
    }
    MulMono(y + 1, b, a);
    assert y * a + m < a * b;
    DivModUnique(k, a * b, x, y * a + m);
  }

  /** Splitting a multiple: `(q * h + r) * m` over a divisor `h * m`. */
  lemma ScaledSplit(q: nat, h: nat, r: nat, m: nat, i: nat)
    requires r < h && i < m
    ensures (q * h + r) * m + i == q * (h * m) + (r * m + i)
    ensures r * m + i < h * m
  {
    assert (q * h + r) * m == q * h * m + r * m;
    assert q * h * m == q * (h * m);
    MulMono(r + 1, h, m);
    assert (r + 1) * m == r * m + m;
  }

  /** Items of `m` bytes do not cross the borders of blocks of `h * m` bytes. */
  lemma ScaledDivMod(c: nat, h: nat, m: nat, i: nat)
    requires 0 < h && i < m
    ensures 0 < h * m
    ensures (c * m + i) / (h * m) == c / h
    ensures (c * m + i) % (h * m) == c % h * m + i
  {
    DivModSplit(c, h);
    ScaledSplit(c / h, h, c % h, m, i);
    DivModUnique(c * m + i, h * m, c / h, c % h * m + i);
  }
}
