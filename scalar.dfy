/** The scalar field of BLS12-377: integers modulo the prime-order subgroup's
    order q. The fixed-width type Fr (four 64-bit words) is modelled by the
    residue it holds; Mul, Sub, Neg and Cmp are the field operations the GLV
    decomposition calls. */
module Scalar {

  /** The BLS12 curve parameter x of BLS12-377. */
  const X: nat := 0x8508c00000000001

  /** The group order q = x^4 - x^2 + 1 of BLS12-377. */
  const Q: nat := 0x12ab655e9a2ca55660b44d1e5c37b00159aa76fed00000010a11800000000001

  /** A scalar-field element, held as its canonical residue. */
  type Fr = n: nat | n < Q

  /** a and b are equal modulo q. */
  predicate Congruent(a: int, b: int) {
    (a - b) % Q == 0
  }

  lemma CongruentByMultiple(a: int, b: int, t: int)
    requires a - b == Q * t
    ensures Congruent(a, b)
  {
  }

  lemma MultipleOfCongruent(a: int, b: int)
    requires Congruent(a, b)
    ensures a - b == Q * ((a - b) / Q)
  {
  }

  lemma CongruentTrans(a: int, b: int, c: int)
    requires Congruent(a, b) && Congruent(b, c)
    ensures Congruent(a, c)
  {
    MultipleOfCongruent(a, b);
    MultipleOfCongruent(b, c);
    CongruentByMultiple(a, c, (a - b) / Q + (b - c) / Q);
  }

  /** A residue in [0, q) that is congruent to x is x's residue. */
  lemma ResidueUnique(r: int, x: int)
    requires 0 <= r < Q && Congruent(r, x)
    ensures r == x % Q
  {
    MultipleOfCongruent(r, x);
  }

  /** Field multiplication. */
  function Mul(a: Fr, b: Fr): (r: Fr)
    ensures Congruent(r, a * b)
  {
    var p := a * b;
    CongruentByMultiple(p % Q, p, -(p / Q));
    p % Q
  }

  /** Field subtraction. */
  function Sub(a: Fr, b: Fr): (r: Fr)
    ensures Congruent(r, a - b)
    ensures a >= b ==> r == a - b
  {
    if a >= b then a - b else
      CongruentByMultiple(a - b + Q, a - b, 1);
      a - b + Q
  }

  /** Field negation: the additive inverse, which is zero only for zero. */
  function Neg(a: Fr): (r: Fr)
    ensures Congruent(r + a, 0)
    ensures r == 0 <==> a == 0
  {
    if a == 0 then 0 else
      CongruentByMultiple(Q - a + a, 0, 1);
      Q - a
  }

  /** Three-way comparison of the residues: 1, 0 or -1. */
  function Cmp(a: Fr, b: Fr): (r: int)
    ensures r == 1 <==> a > b
    ensures r == 0 <==> a == b
    ensures r == -1 <==> a < b
  {
    if a > b then 1 else if a == b then 0 else -1
  }
}
