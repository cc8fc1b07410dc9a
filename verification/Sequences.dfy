/** Two facts the proofs about lists and wire formats keep needing. */
module Sequences {

  lemma {:induction false} Regroup<T>(a: seq<T>, b: seq<T>, c: seq<T>)
    ensures a + (b + c) == (a + b) + c
  {
  }

  /** A number in terms of its quotient and remainder determines them. */
  lemma {:induction false} Quotient(n: nat, d: nat, q: nat, r: nat)
    requires n == q * d + r && r < d
    ensures n / d == q && n % d == r
  {
    if n / d < q {
      Scaled(n / d + 1, q, d);
    } else if n / d > q {
      Scaled(q + 1, n / d, d);
    }
  }

  lemma {:induction false} Scaled(a: nat, b: nat, d: nat)
    requires a <= b
    ensures a * d <= b * d
  {
  }
}
