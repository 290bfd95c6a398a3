/** The few facts about products and quotients that the solver has to be told. */
module Arithmetic {
  /** Quotient and remainder are unique. */
  lemma DivUnique(x: int, n: nat, q: int, k: nat)
    requires n > 0 && x == q * n + k && k < n
    ensures x / n == q && x % n == k
  {
    var d, r := x / n, x % n;
    MulSub(q, d, n);
    assert (q - d) * n == r - k;
    if q - d >= 1 {
      MulAtLeast(q - d, n);
    } else if d - q >= 1 {
      MulSub(d, q, n);
      MulAtLeast(d - q, n);
    }
  }

  lemma MulSub(a: int, b: int, n: int)
    ensures (a - b) * n == a * n - b * n
  {
  }

  lemma MulAtLeast(k: int, n: nat)
    requires k >= 1
    ensures k * n >= n
  {
  }

  lemma MulMono(a: int, b: int, n: nat)
    requires a <= b
    ensures a * n <= b * n
  {
  }
}
