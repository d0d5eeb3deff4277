# GLV scalar decomposition for BLS12-377, in Dafny

This project models the GLV scalar decomposition of the BLS12-377 curve
library (`glv.go`). GLV stands for Gallant–Lambert–Vanstone. The method
follows "Guide to Pairing Based Cryptography", section 6.3.2
("Decompositions for the k = 12 BLS Family"). A scalar `m` is split into two
half-size scalars `k1` and `k2`. The point multiplication `m·P` then becomes
`k1·P − k2·φ(P)`, where `φ` is the curve endomorphism with eigenvalue `λ`.

The library has two versions of the decomposition:

- `glvVectorBig.new` works on arbitrary-precision signed integers. It is
  modelled by the function `DecomposeBig` and the class `GlvVectorBig`.
- `glvVectorFr.new` works on fixed-width field elements (`Fr`). After
  decomposing, it normalises signs: a component above `r128 = 2^128 − 1` is
  replaced by its negation modulo q, and its flag `neg1`/`neg2` is set. It is
  modelled by `NewFr` and the class `GlvVectorFr`.

Each version has a `wnaf` step. It asks an encoder for the signed-digit
(wNAF) sequences of `k1` and `k2`, then negates some of them. In the model a
digit sequence is a `seq<int>` whose value is `Σ s[i]·2^i`. Negating a
sequence flips the sign of every digit.

Modules:

- `Scalar` (`scalar.dfy`): the group order `q`, the type `Fr` of residues
  modulo `q`, the operations `Mul`, `Sub`, `Neg` and `Cmp`, and `Congruent`
  (equality modulo `q`).
- `Wnaf` (`wnaf.dfy`): the value of a digit sequence, and negation of a
  sequence.
- `Glv` (`glv.dfy`): the constants exactly as written, the rounding shift,
  both decompositions, both sign rules for `wnaf`, and the lemmas about them.

The central result is that `k1 − k2·λ ≡ m (mod q)`. This holds for any
values of `alpha1` and `alpha2`, because `λ = B1` and `1 + B2·λ = x⁴ − x² + 1
= q`. On the Big path it holds for every integer `m`. On the fixed-width path,
`k1` and `k2` are read as signed by their flags, and the identity is
guaranteed only for a receiver whose flags were clear before `new`. The flags
are never cleared. A stale flag breaks the identity whenever the flagged
component's raw value is non-zero and at most r128 (`StaleSignFlag`). When
that raw value is zero or above r128, the stale flag does no harm
(`StaleFlagHarmless`).
Given that `toWNAF` and `bigToWNAF` encode the magnitude of their input, the
two sequences `wnaf` returns are worth `k1` and `−k2`. So
`value(naf1) + value(naf2)·λ ≡ m (mod q)` holds on the Big path. On the
fixed-width path it is guaranteed for a receiver with clear flags.

Assumptions about code that is not part of this model:

- `qBig` and `q` are the BLS12-377 group order
  `0x12ab655e…0a11800000000001`, which is `x⁴ − x² + 1` for
  `x = 0x8508c00000000001`.
- `halfRBig` is `2^255` and `fourWordBitSize` is `256`, so the shift divides
  by `R = 2^256` (`ShiftConstants`).
- `Fr` holds the plain little-endian value of its four words, and its
  `Mul`, `Sub` and `Neg` work modulo `q`.
- `wideFr.mul` forms the full, unreduced product. `wideFr.round` is the same
  rounding shift `(n + 2^255) >> 256` that the Big path uses.
- `toWNAF` and `bigToWNAF` are parameters of the `Wnaf` methods. The lemmas
  assume that each returns a sequence worth the magnitude of its input.

Facts about the code that the model records:

- GLV is often written `m ≡ k1 + k2·λ`. This code gives `m ≡ k1 − k2·λ`.
  The `wnaf` steps then negate `naf2` so that
  `value(naf1) + value(naf2)·λ ≡ m`.
- `glvVectorBig.wnaf` negates `naf1` when `k1 < 0` but `naf2` when `k2 > 0`.
  If `bigToWNAF` encodes the magnitude, this makes the two values `k1` and
  `−k2`, the same as the fixed-width rule (`WnafSignRulesAgree`).
- The comment at glv.go:14-18 gives `R/q` as 14, and `glvQ2Big` is 14. The
  fixed-width `glvQ2` is 13, which is `⌊R/q⌋`. So the two paths can compute
  different `alpha2`, and then different `k1` and `k2` (`Alpha2PathsDiffer`,
  `PathsDiffer`). The Big path has no sign flags at all.
- The fixed-width `z1` and `z2` are computed with `Fr.Mul`, which reduces
  modulo `q`. The products are already below `q`: `alpha1·B1 ≤ x²·(x² − 1) <
  q` and `alpha2·B2 ≤ x² < q`. So the reduction never changes them
  (`ProductsBelowQ`).

## Model

| member | source | states |
|---|---|---|
| `Scalar.Mul` | glv.go:95-98 | `Fr.Mul` (z1, z2): the result is in [0, q) and congruent to the product |
| `Scalar.Sub` | glv.go:101-106 | `Fr.Sub` (k1, k2): the result is congruent to the difference, and equals it when there is no borrow |
| `Scalar.Neg` | glv.go:108-116 | `Fr.Neg`: result + input ≡ 0 (mod q); the result is zero exactly when the input is |
| `Scalar.Cmp` | glv.go:108-113 | `Fr.Cmp`: 1, 0 or −1 exactly as the first residue is above, equal to or below the second |
| `Wnaf.Value` | glv.go:60-82 | the number a digit sequence stands for; a sequence with no negative digit stands for a non-negative number |
| `Wnaf.ValueAppend` | glv.go:60-82 | a digit appended after n digits carries weight 2^n, so the value is Σ naf[i]·2^i |
| `Wnaf.Pow2Add` | glv.go:125-133 | 2^(a+b) = 2^a·2^b for all exponents, by induction; it ties the literal R and halfRBig to powers of two |
| `Wnaf.Negated` | glv.go:63-68 | `naf.neg()`: same length, and every digit has its sign flipped |
| `Wnaf.NegatedValue` | glv.go:63-68 | flipping every digit negates the sequence's value (by induction) |
| `Glv.FixedWidthConstants` | glv.go:10-33 | the little-endian words of glvQ1, glvB1, glvB2 and glvLambda hold the same integers as their Big twins; glvQ2 holds 13 but glvQ2Big is 14; r128 holds 2^128 − 1 |
| `Glv.ConstantRelations` | glv.go:20-33 | λ = B1, B2 = B1 + 1 = x², q = x⁴ − x² + 1 = 1 + B2·λ, and r128 + 1 = 2^128 |
| `Glv.QuotientConstants` | glv.go:10-18 | glvQ1 = ⌊x²·R/q⌋; 13 = ⌊R/q⌋ and R/q ≥ 13.5, so 14 is the rounded quotient the comment gives |
| `Glv.ShiftConstants` | glv.go:125-133 | with fourWordBitSize = 256, R = 2^fourWordBitSize and halfRBig = 2^(fourWordBitSize − 1) = R/2 |
| `Glv.RoundShift` | glv.go:125-133 | `(n + halfRBig) >> fourWordBitSize` is the integer nearest to n/R, with halves rounded up |
| `Glv.AlphaBig1` | glv.go:125-128 | alpha1 is the integer nearest to m·glvQ1Big/R: alpha1·R − R/2 ≤ m·glvQ1Big < alpha1·R + R/2 |
| `Glv.AlphaBig2` | glv.go:130-133 | alpha2 is the integer nearest to m·glvQ2Big/R, with glvQ2Big = 14 |
| `Glv.AlphaBigBounds` | glv.go:125-133 | for 0 ≤ m < q, 0 ≤ alpha1 ≤ x², and alpha2 is 1 exactly when 28·m ≥ R (otherwise 0) |
| `Glv.DecompositionIdentity` | glv.go:95-106 | for any alpha1 and alpha2: if z1 ≡ alpha1·B1, z2 ≡ alpha2·B2, k1 ≡ m − z1 − alpha2 and k2 ≡ z2 − alpha1 (mod q), then k1 − k2·λ ≡ m (mod q) |
| `Glv.DecomposeBig` | glv.go:121-153 | `glvVectorBig.new`: k1 ≡ m − alpha1·B1 − alpha2 and k2 ≡ alpha2·B2 − alpha1 (mod q); z1 and z2 lie in [0, q), so m − alpha2 − q < k1 ≤ m − alpha2 and −alpha1 ≤ k2 < q − alpha1 |
| `Glv.DecomposeBigCorrect` | glv.go:135-151 | Big path: k1 − k2·λ ≡ m (mod q) for every integer m |
| `Glv.WnafBig` | glv.go:72-82 | the Big sign rule keeps both lengths; naf1's value is negated exactly when k1 < 0, naf2's exactly when k2 > 0 |
| `Glv.WnafBigValues` | glv.go:72-82 | given magnitude encodings, the Big sign rule yields sequences worth exactly k1 and −k2; a zero component is never negated |
| `Glv.WnafBigDecodes` | glv.go:72-82 | the sequences `glvVectorBig.wnaf` returns after `new(m)` satisfy value(naf1) + value(naf2)·λ ≡ m (mod q) |
| `Glv.GlvVectorBig.constructor` | glv.go:55-58 | a fresh vector has both components zero |
| `Glv.GlvVectorBig.New` | glv.go:121-153 | the receiver's fields become `DecomposeBig(m)`, and k1 − k2·λ ≡ m (mod q) |
| `Glv.GlvVectorBig.Wnaf` | glv.go:72-82 | returns the encoder's sequences with the Big sign rule applied; with magnitude encoders, they are worth k1 and −k2 |
| `Glv.Alpha1` | glv.go:155-160 | the fixed-width alpha1 equals the Big path's alpha1 and is at most x² |
| `Glv.Alpha2` | glv.go:162-167 | the fixed-width alpha2 (glvQ2 = 13) is 1 exactly when 26·m ≥ R, otherwise 0 |
| `Glv.Alpha2PathsDiffer` | glv.go:14-18 | some m in [0, q) has fixed-width alpha2 = 0 but Big alpha2 = 1, so the two paths are not interchangeable |
| `Glv.ProductsBelowQ` | glv.go:95-98 | for every m, alpha1·B1 and alpha2·B2 are in [0, q), so `Fr.Mul` returns the plain products |
| `Glv.RawFr` | glv.go:88-106 | before sign normalisation, k1 is the residue of m − alpha1·B1 − alpha2 and k2 that of alpha2·B2 − alpha1 |
| `Glv.RawFrCorrect` | glv.go:88-106 | before sign normalisation, the fixed-width k1 − k2·λ ≡ m (mod q) |
| `Glv.Normalise` | glv.go:108-117 | a component above r128 becomes q − k and its flag is set; otherwise the component and the flag are kept, so a flag is only ever set |
| `Glv.NewFr` | glv.go:84-119 | `glvVectorFr.new` on any receiver: a flag ends up set exactly when it was set before or its raw component exceeds r128; a component becomes q − raw exactly when the raw component exceeds r128 and is kept unchanged otherwise, even under a stale flag |
| `Glv.NormalisePreservesIdentity` | glv.go:108-117 | with clear flags, normalising both components keeps signed(k1) − signed(k2)·λ ≡ m (mod q) |
| `Glv.DecomposeFrCorrect` | glv.go:84-119 | on a fresh vector, signed(k1) − signed(k2)·λ ≡ m (mod q); a component whose flag is clear is below 2^128 |
| `Glv.StaleFlagHarmless` | glv.go:108-117 | on any receiver, if each stale flag's raw component is zero or above r128, `new(m)` still satisfies signed(k1) − signed(k2)·λ ≡ m (mod q) |
| `Glv.StaleSignFlag` | glv.go:108-117 | a receiver that still has neg1 set from an earlier call decomposes m = 1 into components standing for −1, which breaks the identity |
| `Glv.PathsDiffer` | glv.go:14-18 | at m = R/27 the fixed-width k2 stands for −alpha1 while the Big k2 is B2 − alpha1, and the signed fixed-width k1 differs from the Big k1, so the two paths give different decompositions |
| `Glv.WnafFr` | glv.go:60-70 | the fixed-width sign rule keeps both lengths; naf1's value is negated exactly when neg1 is set, naf2's exactly when neg2 is clear |
| `Glv.WnafFrValues` | glv.go:60-70 | given magnitude encodings, the fixed-width sign rule (negate naf1 iff neg1, naf2 iff not neg2) yields sequences worth signed(k1) and −signed(k2) |
| `Glv.WnafFrDecodes` | glv.go:60-70 | the sequences `glvVectorFr.wnaf` returns after `new(m)` on a fresh vector satisfy value(naf1) + value(naf2)·λ ≡ m (mod q) |
| `Glv.WnafSignRulesAgree` | glv.go:60-82 | for fixed-width and Big vectors standing for the same signed components, the two sign rules give sequences of equal values |
| `Glv.GlvVectorFr.constructor` | glv.go:48-53 | a fresh vector has zero components and both flags clear |
| `Glv.GlvVectorFr.New` | glv.go:84-119 | the receiver's state becomes `NewFr(old state, m)`; if both flags were clear, signed(k1) − signed(k2)·λ ≡ m (mod q) |
| `Glv.GlvVectorFr.Wnaf` | glv.go:60-70 | returns the encoder's sequences with the fixed-width sign rule applied; with magnitude encoders, they are worth signed(k1) and −signed(k2) |

## Left out

- `phi`, `fp2.phi`, `G1.glvEndomorphism` and `G2.glvEndomorphism` (glv.go:169-198) are not modelled. They are field multiplications and an affine conversion (a field inversion), and the field arithmetic is not part of this model. The constants `glvPhi1`, `glvPhi2`, `glvMulWindowG1` and `glvMulWindowG2` are left out for the same reason.
- The bodies of `toWNAF`, `bigToWNAF`, `nafNumber.neg`, `wideFr.mul`, `wideFr.round` and `Fr.Mul/Sub/Neg/Cmp` are not shown. Each is modelled by the behaviour listed in the assumptions above, not reconstructed. The digit encoders are function parameters of the `Wnaf` methods.
- Fr's internal representation (word layout, any Montgomery form) is not modelled. An `Fr` is its residue in [0, q).
- The values of `qBig`, `halfRBig` and `fourWordBitSize` are not shown. They are taken as the BLS12-377 order, 2^255 and 256.
- The bounds |k1|, |k2| < 2^128 are not proved in general. The code does not check them, and proving them would need a rounding-error analysis. Only a component left unnegated on the fixed-width path is shown to be below 2^128.
- The two paths are not claimed to be equivalent, because `glvQ2` (13) differs from `glvQ2Big` (14).
- The `glvVector` interface and the receiver that `new` returns are not modelled. The methods update the receiver in place, which is what the callers see.
- `GlvVectorBig.constructor`, `GlvVectorFr.constructor`: a Go zero-valued vector holds nil pointers, while the model starts from zero components. No code reads the components before `new` sets them, so the difference is not observable.
- `g2_test.go` (G2 group law, serialisation, multi-scalar multiplication, cofactor clearing) is not part of this model. Its implementations are not among the GLV code.
