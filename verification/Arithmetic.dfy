/** Facts about division and multiplication that the verifier does not find by itself. */
module Arithmetic {
  lemma DivStep(n: int, k: nat)
    requires 0 < k <= n
    ensures n / k == (n - k) / k + 1 && n % k == (n - k) % k
  {
    var q, r := (n - k) / k, (n - k) % k;
    assert n == (q + 1) * k + r;
    DivUnique(n, k, q + 1, r);
  }

  lemma DivSmall(n: int, k: nat)
    requires 0 <= n < k
    ensures n / k == 0 && n % k == n
  {
    DivUnique(n, k, 0, n);
  }

  lemma DivUnique(n: int, k: nat, q: int, r: int)
    requires k > 0 && n == q * k + r && 0 <= r < k
    ensures n / k == q && n % k == r
  {
    var q', r' := n / k, n % k;
    DivMod(n, k);
    if q > q' {
      TimesAtLeast(q - q', k);
    } else if q < q' {
      TimesAtLeast(q' - q, k);
    }
  }

  lemma DivMod(n: int, k: nat)
    requires k > 0
    ensures n == (n / k) * k + n % k && 0 <= n % k < k
  {
  }

  lemma TimesAtLeast(m: int, k: nat)
    requires m >= 1
    ensures m * k >= k
  {
  }

  lemma TimesMonotone(a: nat, b: nat, c: nat)
    requires a <= b
    ensures a * c <= b * c
  {
  }

  /** The next number moves to the next quotient exactly when the remainder is full. */
  lemma DivNext(n: nat, k: nat)
    requires k > 0
    ensures if n % k + 1 == k then (n + 1) / k == n / k + 1 && (n + 1) % k == 0
            else (n + 1) / k == n / k && (n + 1) % k == n % k + 1
  {
    DivMod(n, k);
    var q, r := n / k, n % k;
    if r + 1 == k {
      assert n + 1 == (q + 1) * k;
      DivUnique(n + 1, k, q + 1, 0);
    } else {
      DivUnique(n + 1, k, q, r + 1);
    }
  }

  lemma DivNonNegative(n: nat, k: nat)
    requires k > 0
    ensures n / k >= 0
  {
  }
}
