// Order facts that the verifier does not find by itself.

module Numbers {
  function Max(a: nat, b: nat): nat {
    if a < b then b else a
  }

  function Min(a: nat, b: nat): nat {
    if a < b then a else b
  }

  lemma MulOrder(a: nat, b: nat, c: nat)
    requires a <= b
    ensures a * c <= b * c && c * a <= c * b
  {
  }

  lemma MulSelf(p: nat, u: nat)
    requires p > 0
    ensures p * u >= u
  {
  }
}
