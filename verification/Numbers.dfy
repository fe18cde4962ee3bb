/** Arithmetic that several components share. */
module Numbers {

  function Min(a: int, b: int): (m: int)
    ensures m <= a && m <= b && (m == a || m == b)
  {
    if a < b then a else b
  }

  function Max(a: int, b: int): (m: int)
    ensures a <= m && b <= m && (m == a || m == b)
  {
    if a > b then a else b
  }

  lemma MulMonotone(m: int, n: int, a: int)
    requires m <= n && a >= 0
    ensures m * a <= n * a
  {
    assert (n - m) * a >= 0;
  }
}
