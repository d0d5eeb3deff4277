/** Signed-digit (wNAF) scalar representations, as far as the GLV code uses
    them: a digit sequence, least significant digit first, its weighted value,
    and negation of every digit. How a scalar is turned into digits (toWNAF,
    bigToWNAF) is not part of this model; it enters as a parameter. */
module Wnaf {

  /** 2^n. */
  function Pow2(n: nat): nat
  {
    if n == 0 then 1 else 2 * Pow2(n - 1)
  }

  /** Powers of two multiply by adding exponents. */
  lemma {:induction false} Pow2Add(a: nat, b: nat)
    ensures Pow2(a + b) == Pow2(a) * Pow2(b)
  {
    if a > 0 {
      Pow2Add(a - 1, b);
    }
  }

  /** The number a digit sequence stands for: the sum of naf[i] * 2^i.
      A sequence without negative digits stands for a non-negative number. */
  function Value(naf: seq<int>): (v: int)
    ensures (forall i :: 0 <= i < |naf| ==> naf[i] >= 0) ==> v >= 0
  {
    if naf == [] then 0 else
      assert forall i :: 0 <= i < |naf| - 1 ==> naf[1..][i] == naf[i + 1];
      naf[0] + 2 * Value(naf[1..])
  }

  /** The most significant digit d of naf + [d] carries weight 2^|naf|. */
  lemma {:induction false} ValueAppend(naf: seq<int>, d: int)
    ensures Value(naf + [d]) == Value(naf) + d * Pow2(|naf|)
  {
    if naf == [] {
      assert Value([d]) == d + 2 * Value([]);
    } else {
      assert (naf + [d])[1..] == naf[1..] + [d];
      ValueAppend(naf[1..], d);
    }
  }

  /** nafNumber.neg: every digit with its sign flipped. */
  function Negated(naf: seq<int>): (r: seq<int>)
    ensures |r| == |naf|
    ensures forall i :: 0 <= i < |naf| ==> r[i] == -naf[i]
  {
    seq(|naf|, i requires 0 <= i < |naf| => -naf[i])
  }

  /** Flipping every digit negates the value. */
  lemma {:induction false} NegatedValue(naf: seq<int>)
    ensures Value(Negated(naf)) == -Value(naf)
  {
    if naf != [] {
      assert Negated(naf)[1..] == Negated(naf[1..]);
      NegatedValue(naf[1..]);
    }
  }
}
