/** The few facts about products and quotients that the layouts rest on. */
module Arithmetic {
  lemma MulMono(a: nat, b: nat, c: nat)
    requires a <= b
    ensures a * c <= b * c
  {
  }

  lemma MulStep(i: nat, j: nat, len: nat)
    requires i < j
    ensures i * len + len <= j * len
  {
    MulMono(i + 1, j, len);
    Distribute(i, len);
  }

  lemma Distribute(i: nat, len: nat)
    ensures (i + 1) * len == i * len + len
  {
  }

  lemma DivMod(n: nat, d: nat)
    requires d > 0
    ensures n / d * d + n % d == n
  {
  }

  /** The block of length `len` that an index below `n * len` falls into. */
  lemma Quotient(i: nat, len: nat, n: nat)
    requires i < n * len
    ensures len > 0 && i / len < n && i / len * len <= i < i / len * len + len
  {
    if len > 0 && i / len >= n {
      MulMono(n, i / len, len);
    }
  }
}
