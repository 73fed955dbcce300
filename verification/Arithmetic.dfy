/** Integer facts shared by the other modules. */
module Arithmetic {

  function Min(a: int, b: int): int {
    if a < b then a else b
  }

  lemma MulMonotone(a: nat, b: nat, m: nat)
    requires a <= b
    ensures a * m <= b * m
  {
  }

  lemma DivModUnique(k: nat, m: nat, q: nat, r: nat)
    requires r < m && k == q * m + r
    ensures k / m == q && k % m == r
  {
    var q', r' := k / m, k % m;
    assert (q - q') * m == r' - r;
    assert q - q' >= 1 ==> (q - q') * m >= m;
    assert q - q' <= -1 ==> (q - q') * m + m <= 0;
  }

  function CeilDiv(n: nat, step: nat): nat
    requires step > 0
  {
    (n + step - 1) / step
  }

  /** The indices below the rounded-up quotient are those whose multiple is still below n. */
  lemma CeilDivIsExact(n: nat, step: nat, r: nat)
    requires step > 0
    ensures r < CeilDiv(n, step) <==> r * step < n
  {
    var q, m := CeilDiv(n, step), (n + step - 1) % step;
    assert q * step + m == n + step - 1;
    if r < q {
      MulMonotone(r + 1, q, step);
      assert (r + 1) * step == r * step + step;
    } else {
      MulMonotone(q, r, step);
    }
  }

  lemma MulDistributes(a: nat, b: nat, m: nat)
    ensures (a + b) * m == a * m + b * m
  {
  }

  lemma MulRegroups(a: nat, b: nat, m: nat)
    ensures a * (m * b) == a * b * m
  {
  }

  lemma CeilDivTwice(n: nat, a: nat, c: nat, r: nat)
    requires a > 0 && c > 0 && a * c > 0
    ensures r < CeilDiv(CeilDiv(n, a), c) <==> r < CeilDiv(n, a * c)
  {
    CeilDivIsExact(CeilDiv(n, a), c, r);
    CeilDivIsExact(n, a, r * c);
    CeilDivIsExact(n, a * c, r);
    MulRegroups(r, c, a);
  }

  /** Rounding up twice is rounding up once by the product. */
  lemma CeilDivOfCeilDiv(n: nat, a: nat, c: nat)
    requires a > 0 && c > 0
    ensures a * c > 0 && CeilDiv(CeilDiv(n, a), c) == CeilDiv(n, a * c)
  {
    assert a * c > 0;
    CeilDivTwice(n, a, c, CeilDiv(CeilDiv(n, a), c));
    CeilDivTwice(n, a, c, CeilDiv(n, a * c));
  }

  lemma InsideBuffer(r: nat, c: nat, rows: nat, cols: nat)
    requires r < rows && c < cols
    ensures r * cols + c < rows * cols
  {
    MulMonotone(r + 1, rows, cols);
    MulDistributes(r, 1, cols);
  }

  /** Row-major addresses of distinct cells differ. */
  lemma RowMajorInjective(r: nat, c: nat, r': nat, c': nat, width: nat, stride: nat)
    requires c < width && c' < width && width <= stride
    requires r * stride + c == r' * stride + c'
    ensures r == r' && c == c'
  {
    DivModUnique(r * stride + c, stride, r, c);
    DivModUnique(r' * stride + c', stride, r', c');
  }
}
