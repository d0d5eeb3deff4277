/** GLV scalar decomposition for the BLS12-377 scalar field, following
    "Guide to Pairing Based Cryptography", section 6.3.2, "Decompositions for
    the k = 12 BLS Family".

    A scalar m is split into (k1, k2) with m == k1 - k2 * lambda (mod q), where
    lambda = x^2 - 1 is the eigenvalue of the endomorphism. Two versions exist:
    an arbitrary-precision one over signed integers (GlvVectorBig) and a
    fixed-width one over Fr that keeps magnitudes and sign flags (GlvVectorFr).
    Each vector's wnaf step negates digit sequences so that their values are
    k1 and -k2 as signed integers. */
module Glv {
  import opened Scalar
  import opened Wnaf

  // ---------------------------------------------------------------------
  // Constants, written as the source writes them: fixed-width constants as
  // four little-endian 64-bit words, their Big twins as integers.
  // ---------------------------------------------------------------------

  const WordBase: nat := 0x10000000000000000

  type Word = w: nat | w < 0x10000000000000000

  /** The integer held by a little-endian sequence of 64-bit words. */
  function WordsValue(ws: seq<Word>): nat
  {
    if ws == [] then 0 else ws[0] + WordBase * WordsValue(ws[1..])
  }

  /** glvQ1 = x^2 * R / q */
  const GlvQ1: seq<Word> := [0x7f72ed32af90182c, 0xb3f7aa969fd37160, 0x03, 0]
  const GlvQ1Big: int := 0x3b3f7aa969fd371607f72ed32af90182c

  /** glvQ2: the fixed-width constant is 13, the Big one 14. */
  const GlvQ2: seq<Word> := [0x0d, 0, 0, 0]
  const GlvQ2Big: int := 0x0e

  /** glvB1 = x^2 - 1 */
  const GlvB1: seq<Word> := [0x0a11800000000000, 0x452217cc90000001, 0, 0]
  const GlvB1Big: int := 0x452217cc900000010a11800000000000

  /** glvB2 = x^2 */
  const GlvB2: seq<Word> := [0x0a11800000000001, 0x452217cc90000001, 0, 0]
  const GlvB2Big: int := 0x452217cc900000010a11800000000001

  /** glvLambda = x^2 - 1, the endomorphism's eigenvalue */
  const GlvLambda: seq<Word> := [0x0a11800000000000, 0x452217cc90000001, 0, 0]
  const GlvLambdaBig: int := 0x452217cc900000010a11800000000000

  /** r128 = 2^128 - 1, the largest half-size magnitude */
  const R128: seq<Word> := [0xffffffffffffffff, 0xffffffffffffffff, 0, 0]

  /** fourWordBitSize: the fixed-point scale is R = 2^256. */
  const FourWordBitSize: nat := 256
  const RBig: nat := 0x10000000000000000000000000000000000000000000000000000000000000000

  /** halfRBig = R / 2, added before shifting so that the shift rounds. */
  const HalfRBig: nat := 0x8000000000000000000000000000000000000000000000000000000000000000

  /** The shift by fourWordBitSize divides by R, and halfRBig is half of R. */
  lemma ShiftConstants()
    ensures RBig == Pow2(FourWordBitSize)
    ensures HalfRBig == Pow2(FourWordBitSize - 1)
    ensures RBig == 2 * HalfRBig
  {
    assert Pow2(7) == 0x80;
    assert Pow2(8) == 0x100;
    Pow2Add(8, 7);
    Pow2Add(8, 8);
    assert Pow2(15) == 0x8000 && Pow2(16) == 0x1_0000;
    Pow2Add(16, 15);
    Pow2Add(16, 16);
    assert Pow2(31) == 0x8000_0000 && Pow2(32) == 0x1_0000_0000;
    Pow2Add(32, 31);
    Pow2Add(32, 32);
    assert Pow2(63) == 0x8000_0000_0000_0000;
    assert Pow2(64) == 0x1_0000_0000_0000_0000;
    Pow2Add(64, 63);
    Pow2Add(64, 64);
    assert Pow2(127) == 0x8000_0000_0000_0000_0000_0000_0000_0000;
    assert Pow2(128) == 0x1_0000_0000_0000_0000_0000_0000_0000_0000;
    Pow2Add(128, 127);
    Pow2Add(128, 128);
  }

  /** Each fixed-width constant holds the same integer as its Big twin,
      except Q2, which is 13 in fixed width and 14 in Big. */
  lemma FixedWidthConstants()
    ensures WordsValue(GlvQ1) == GlvQ1Big
    ensures WordsValue(GlvQ2) == 13 && GlvQ2Big == 14
    ensures WordsValue(GlvB1) == GlvB1Big
    ensures WordsValue(GlvB2) == GlvB2Big
    ensures WordsValue(GlvLambda) == GlvLambdaBig
    ensures WordsValue(R128) == 0xffffffffffffffffffffffffffffffff
  {
  }

  /** How the constants relate to each other and to the curve: lambda is B1,
      B2 = B1 + 1 = x^2, and 1 + B2 * lambda = x^4 - x^2 + 1 is the group
      order q, which is what makes the decomposition exact modulo q. */
  lemma ConstantRelations()
    ensures GlvLambdaBig == GlvB1Big && GlvB2Big == GlvB1Big + 1
    ensures GlvB2Big == X * X
    ensures Q == X * X * X * X - X * X + 1
    ensures Q == 1 + GlvB2Big * GlvLambdaBig
    ensures 0xffffffffffffffffffffffffffffffff + 1 == 0x100000000000000000000000000000000
  {
  }

  /** The fixed-point quotients: Q1 is floor(x^2 * R / q); R / q lies between
      13.5 and 14, so 13 is its floor (the fixed-width Q2) and 14 its nearest
      integer (the Big Q2). */
  lemma QuotientConstants()
    ensures RBig == 2 * HalfRBig
    ensures GlvQ1Big * Q <= X * X * RBig < (GlvQ1Big + 1) * Q
    ensures 13 * Q <= RBig < 14 * Q
    ensures 27 * Q <= 2 * RBig
  {
  }

  // ---------------------------------------------------------------------
  // Rounding
  // ---------------------------------------------------------------------

  /** (n + halfRBig) >> fourWordBitSize: the integer nearest to n / R, with
      halves rounded up (the shift of a negative integer rounds down). */
  function RoundShift(n: int): (a: int)
    ensures a * RBig - HalfRBig <= n < a * RBig + HalfRBig
  {
    (n + HalfRBig) / RBig
  }

  // ---------------------------------------------------------------------
  // Arbitrary-precision path: glvVectorBig
  // ---------------------------------------------------------------------

  /** alpha1 = round(m * glvQ1Big / R): the integer nearest to
      m * glvQ1Big / R, halves rounded up. */
  function AlphaBig1(m: int): (a: int)
    ensures a * RBig - HalfRBig <= m * GlvQ1Big < a * RBig + HalfRBig
  {
    RoundShift(m * GlvQ1Big)
  }

  /** alpha2 = round(m * glvQ2Big / R): the integer nearest to
      m * 14 / R, halves rounded up. */
  function AlphaBig2(m: int): (a: int)
    ensures a * RBig - HalfRBig <= m * 14 < a * RBig + HalfRBig
  {
    RoundShift(m * GlvQ2Big)
  }

  /** For a scalar in [0, q), alpha1 is at most x^2 and alpha2 is 0 or 1;
      alpha2 is 1 exactly from m >= R / 28 on. */
  lemma AlphaBigBounds(m: int)
    requires 0 <= m < Q
    ensures 0 <= AlphaBig1(m) <= X * X
    ensures AlphaBig2(m) == (if 28 * m >= RBig then 1 else 0)
  {
    QuotientConstants();
    assert m * GlvQ1Big <= Q * GlvQ1Big;
    assert m * GlvQ1Big + HalfRBig < (X * X + 1) * RBig;
  }

  /** The components of glvVectorBig, exact signed integers. */
  datatype GlvBig = GlvBig(k1: int, k2: int)

  /** glvVectorBig.new: z1 = alpha1 * B1 mod q, z2 = alpha2 * B2 mod q,
      k1 = m - z1 - alpha2, k2 = z2 - alpha1. So k1 is congruent to
      m - alpha1 * B1 - alpha2 and k2 to alpha2 * B2 - alpha1, and since z1
      and z2 lie in [0, q), each is pinned to a window of width q. */
  function DecomposeBig(m: int): (r: GlvBig)
    ensures Congruent(r.k1, m - AlphaBig1(m) * GlvB1Big - AlphaBig2(m))
    ensures Congruent(r.k2, AlphaBig2(m) * GlvB2Big - AlphaBig1(m))
    ensures m - AlphaBig2(m) - Q < r.k1 <= m - AlphaBig2(m)
    ensures -AlphaBig1(m) <= r.k2 < Q - AlphaBig1(m)
  {
    var alpha1 := AlphaBig1(m);
    var alpha2 := AlphaBig2(m);
    var z1 := (alpha1 * GlvB1Big) % Q;
    var z2 := (alpha2 * GlvB2Big) % Q;
    CongruentByMultiple(m - z1 - alpha2, m - alpha1 * GlvB1Big - alpha2, (alpha1 * GlvB1Big) / Q);
    CongruentByMultiple(z2 - alpha1, alpha2 * GlvB2Big - alpha1, -((alpha2 * GlvB2Big) / Q));
    GlvBig(m - z1 - alpha2, z2 - alpha1)
  }

  /** The Big vector v decomposes m: k1 - k2 * lambda == m (mod q). */
  predicate DecomposesBig(v: GlvBig, m: int)
  {
    Congruent(v.k1 - v.k2 * GlvLambdaBig, m)
  }

  /** The decomposition is exact modulo q for every integer m, whatever the
      rounding gave for alpha1 and alpha2. */
  lemma DecomposeBigCorrect(m: int)
    ensures DecomposesBig(DecomposeBig(m), m)
  {
    var alpha1, alpha2 := AlphaBig1(m), AlphaBig2(m);
    var z1, z2 := (alpha1 * GlvB1Big) % Q, (alpha2 * GlvB2Big) % Q;
    CongruentByMultiple(z1, alpha1 * GlvB1Big, -((alpha1 * GlvB1Big) / Q));
    CongruentByMultiple(z2, alpha2 * GlvB2Big, -((alpha2 * GlvB2Big) / Q));
    DecompositionIdentity(m, alpha1, alpha2, z1, z2, m - z1, m - z1 - alpha2, z2 - alpha1);
  }

  /** glvVectorBig.wnaf's sign rule: naf1 is negated when k1 < 0, naf2 when
      k2 > 0. */
  function WnafBig(v: GlvBig, naf1: seq<int>, naf2: seq<int>): (r: (seq<int>, seq<int>))
    ensures |r.0| == |naf1| && |r.1| == |naf2|
    ensures Value(r.0) == (if v.k1 < 0 then -Value(naf1) else Value(naf1))
    ensures Value(r.1) == (if v.k2 > 0 then -Value(naf2) else Value(naf2))
  {
    NegatedValue(naf1);
    NegatedValue(naf2);
    (if v.k1 < 0 then Negated(naf1) else naf1,
     if v.k2 > 0 then Negated(naf2) else naf2)
  }

  function Abs(k: int): nat
  {
    if k < 0 then -k else k
  }

  /** When the digit sequences encode the magnitudes |k1| and |k2|, the
      negations leave sequences worth exactly k1 and -k2; a zero component is
      never negated. */
  lemma WnafBigValues(v: GlvBig, naf1: seq<int>, naf2: seq<int>)
    requires Value(naf1) == Abs(v.k1) && Value(naf2) == Abs(v.k2)
    ensures Value(WnafBig(v, naf1, naf2).0) == v.k1
    ensures Value(WnafBig(v, naf1, naf2).1) == -v.k2
    ensures v.k1 == 0 ==> WnafBig(v, naf1, naf2).0 == naf1
    ensures v.k2 == 0 ==> WnafBig(v, naf1, naf2).1 == naf2
  {
    NegatedValue(naf1);
    NegatedValue(naf2);
  }

  /** The digit sequences glvVectorBig.wnaf returns recombine to m:
      value(naf1) + value(naf2) * lambda == m (mod q). */
  lemma WnafBigDecodes(m: int, naf1: seq<int>, naf2: seq<int>)
    requires Value(naf1) == Abs(DecomposeBig(m).k1)
    requires Value(naf2) == Abs(DecomposeBig(m).k2)
    ensures Congruent(Value(WnafBig(DecomposeBig(m), naf1, naf2).0)
                      + Value(WnafBig(DecomposeBig(m), naf1, naf2).1) * GlvLambdaBig, m)
  {
    WnafBigValues(DecomposeBig(m), naf1, naf2);
    DecomposeBigCorrect(m);
  }

  /** glvVectorBig: the receiver whose k1, k2 new overwrites. */
  class GlvVectorBig {
    var k1: int
    var k2: int

    function View(): GlvBig
      reads this
    {
      GlvBig(k1, k2)
    }

    constructor ()
      ensures View() == GlvBig(0, 0)
    {
      k1, k2 := 0, 0;
    }

    /** glvVectorBig.new(m) */
    method New(m: int)
      modifies this
      ensures View() == DecomposeBig(m)
      ensures DecomposesBig(View(), m)
    {
      var alpha1 := m * GlvQ1Big;
      alpha1 := alpha1 + HalfRBig;
      alpha1 := alpha1 / RBig;

      var alpha2 := m * GlvQ2Big;
      alpha2 := alpha2 + HalfRBig;
      alpha2 := alpha2 / RBig;

      var z1 := (alpha1 * GlvB1Big) % Q;
      var z2 := (alpha2 * GlvB2Big) % Q;

      var k1 := m - z1;
      k1 := k1 - alpha2;

      var k2 := z2 - alpha1;

      this.k1 := k1;
      this.k2 := k2;
      DecomposeBigCorrect(m);
    }

    /** glvVectorBig.wnaf(w), with bigToWNAF as the parameter bigToWnaf. */
    method Wnaf(w: nat, bigToWnaf: (int, nat) -> seq<int>) returns (naf1: seq<int>, naf2: seq<int>)
      ensures (naf1, naf2) == WnafBig(View(), bigToWnaf(k1, w), bigToWnaf(k2, w))
      ensures (forall k :: Value(bigToWnaf(k, w)) == Abs(k)) ==>
                Value(naf1) == k1 && Value(naf2) == -k2
    {
      naf1, naf2 := bigToWnaf(k1, w), bigToWnaf(k2, w);
      if k1 < 0 {
        naf1 := Negated(naf1);
      }
      if k2 > 0 {
        naf2 := Negated(naf2);
      }
      if forall k :: Value(bigToWnaf(k, w)) == Abs(k) {
        WnafBigValues(View(), bigToWnaf(k1, w), bigToWnaf(k2, w));
      }
    }
  }

  // ---------------------------------------------------------------------
  // Fixed-width path: glvVectorFr
  // ---------------------------------------------------------------------

  /** alpha1(m): wideFr.mul(m, glvQ1) then wideFr.round; it agrees with the
      Big path's alpha1 and is at most x^2. */
  function Alpha1(m: Fr): (a: Fr)
    ensures a == AlphaBig1(m)
    ensures a <= X * X
  {
    FixedWidthConstants();
    AlphaBigBounds(m);
    RoundShift(m * WordsValue(GlvQ1))
  }

  /** alpha2(m): wideFr.mul(m, glvQ2) then wideFr.round, with glvQ2 = 13;
      it is 1 exactly from m >= R / 26 on, and 0 below. */
  function Alpha2(m: Fr): (a: Fr)
    ensures a == (if 26 * m >= RBig then 1 else 0)
  {
    FixedWidthConstants();
    QuotientConstants();
    RoundShift(m * WordsValue(GlvQ2))
  }

  /** The two paths' alpha2 differ: for m = R / 27 the fixed-width one is 0
      and the Big one is 1, so the paths are not interchangeable. */
  lemma Alpha2PathsDiffer()
    ensures exists m: Fr :: Alpha2(m) == 0 && AlphaBig2(m) == 1
  {
    var m: Fr := RBig / 27;
    AlphaBigBounds(m);
    assert Alpha2(m) == 0 && AlphaBig2(m) == 1;
  }

  /** The products the fixed-width path reduces modulo q are already below q:
      alpha1 * B1 <= x^2 * (x^2 - 1) < q and alpha2 * B2 <= x^2 < q, so the
      reduction inside Fr.Mul never changes z1 or z2. */
  lemma ProductsBelowQ(m: Fr)
    ensures 0 <= Alpha1(m) * GlvB1Big < Q
    ensures 0 <= Alpha2(m) * GlvB2Big < Q
    ensures Mul(Alpha1(m), GlvB1Big) == Alpha1(m) * GlvB1Big
    ensures Mul(Alpha2(m), GlvB2Big) == Alpha2(m) * GlvB2Big
  {
    ConstantRelations();
    var a1 := Alpha1(m);
    assert a1 * GlvB1Big <= X * X * GlvB1Big;
  }

  /** The fields of glvVectorFr: magnitudes k1, k2 and their sign flags. */
  datatype GlvFr = GlvFr(k1: Fr, k2: Fr, neg1: bool, neg2: bool)

  /** A vector as allocated, before new has run. */
  const FreshFr: GlvFr := GlvFr(0, 0, false, false)

  /** The integer a magnitude and its sign flag stand for. */
  function Signed(k: Fr, neg: bool): int
  {
    var i: int := k;
    if neg then -i else i
  }

  /** k1 and k2 of glvVectorFr.new before sign normalisation: the residues
      of m - alpha1 * B1 - alpha2 and alpha2 * B2 - alpha1. */
  function RawFr(m: Fr): (r: (Fr, Fr))
    ensures r.0 == (m - Alpha1(m) * GlvB1Big - Alpha2(m)) % Q
    ensures r.1 == (Alpha2(m) * GlvB2Big - Alpha1(m)) % Q
  {
    FixedWidthConstants();
    ProductsBelowQ(m);
    var alpha1 := Alpha1(m);
    var alpha2 := Alpha2(m);
    var z1 := Mul(alpha1, WordsValue(GlvB1));
    var z2 := Mul(alpha2, WordsValue(GlvB2));
    var s := Sub(m, z1);
    var k1 := Sub(s, alpha2);
    var k2 := Sub(z2, alpha1);
    assert Congruent(s - alpha2, m - z1 - alpha2) by {
      MultipleOfCongruent(s, m - z1);
      CongruentByMultiple(s - alpha2, m - z1 - alpha2, (s - (m - z1)) / Q);
    }
    CongruentTrans(k1, s - alpha2, m - z1 - alpha2);
    ResidueUnique(k1, m - z1 - alpha2);
    ResidueUnique(k2, z2 - alpha1);
    (k1, k2)
  }

  /** The algebra behind both paths: whatever alpha1 and alpha2 are, if
      z1 == alpha1 * B1, z2 == alpha2 * B2, k1 == m - z1 - alpha2 and
      k2 == z2 - alpha1 hold modulo q, then k1 - k2 * lambda == m (mod q),
      because lambda == B1 and 1 + B2 * lambda == q. */
  lemma DecompositionIdentity(m: int, alpha1: int, alpha2: int, z1: int, z2: int,
                              s: int, k1: int, k2: int)
    requires Congruent(z1, alpha1 * GlvB1Big) && Congruent(z2, alpha2 * GlvB2Big)
    requires Congruent(s, m - z1) && Congruent(k1, s - alpha2)
    requires Congruent(k2, z2 - alpha1)
    ensures Congruent(k1 - k2 * GlvLambdaBig, m)
  {
    MultipleOfCongruent(z1, alpha1 * GlvB1Big);
    MultipleOfCongruent(z2, alpha2 * GlvB2Big);
    MultipleOfCongruent(s, m - z1);
    MultipleOfCongruent(k1, s - alpha2);
    MultipleOfCongruent(k2, z2 - alpha1);
    var t1 := (z1 - alpha1 * GlvB1Big) / Q;
    var t2 := (z2 - alpha2 * GlvB2Big) / Q;
    var t3 := (s - (m - z1)) / Q;
    var t4 := (k1 - (s - alpha2)) / Q;
    var t5 := (k2 - (z2 - alpha1)) / Q;
    var t := t3 + t4 - t1 - GlvLambdaBig * (t2 + t5) - alpha2;
    assert k1 - m == Q * (t3 + t4 - t1) - alpha1 * GlvB1Big - alpha2;
    assert k2 * GlvLambdaBig == (Q * (t2 + t5) + alpha2 * GlvB2Big - alpha1) * GlvLambdaBig;
    assert alpha2 * GlvB2Big * GlvLambdaBig == alpha2 * (Q - 1);
    assert k1 - k2 * GlvLambdaBig - m == Q * t;
    CongruentByMultiple(k1 - k2 * GlvLambdaBig, m, t);
  }

  /** Before normalisation the fixed-width components already satisfy
      k1 - k2 * lambda == m (mod q). */
  lemma RawFrCorrect(m: Fr)
    ensures Congruent(RawFr(m).0 - RawFr(m).1 * GlvLambdaBig, m)
  {
    FixedWidthConstants();
    var alpha1, alpha2 := Alpha1(m), Alpha2(m);
    var z1 := Mul(alpha1, WordsValue(GlvB1));
    var z2 := Mul(alpha2, WordsValue(GlvB2));
    var s := Sub(m, z1);
    DecompositionIdentity(m, alpha1, alpha2, z1, z2, s, Sub(s, alpha2), Sub(z2, alpha1));
  }

  /** The sign normalisation of one component: above r128 it is replaced by
      its negation q - k and the flag is set; otherwise the component and the
      flag are kept, so a flag is only ever set, never cleared. */
  function Normalise(k: Fr, neg: bool): (r: (Fr, bool))
    ensures r.1 == (neg || k > 0xffffffffffffffffffffffffffffffff)
    ensures r.0 == (if k > 0xffffffffffffffffffffffffffffffff then Q - k else k)
  {
    FixedWidthConstants();
    if Cmp(k, WordsValue(R128)) == 1 then (Neg(k), true) else (k, neg)
  }

  /** The sign normalisation of both components of a receiver in state v. */
  function SignNormalised(v: GlvFr, raw: (Fr, Fr)): GlvFr
  {
    var (n1, f1) := Normalise(raw.0, v.neg1);
    var (n2, f2) := Normalise(raw.1, v.neg2);
    GlvFr(n1, n2, f1, f2)
  }

  /** glvVectorFr.new(m) applied to a receiver in state v: a flag is set
      exactly when the raw component exceeds r128 and is never cleared; a
      component is negated modulo q exactly when it exceeds r128, whatever
      the old flag says. */
  function NewFr(v: GlvFr, m: Fr): (r: GlvFr)
    ensures r.neg1 == (v.neg1 || RawFr(m).0 > 0xffffffffffffffffffffffffffffffff)
    ensures r.neg2 == (v.neg2 || RawFr(m).1 > 0xffffffffffffffffffffffffffffffff)
    ensures r.k1 == (if RawFr(m).0 > 0xffffffffffffffffffffffffffffffff then Q - RawFr(m).0 else RawFr(m).0)
    ensures r.k2 == (if RawFr(m).1 > 0xffffffffffffffffffffffffffffffff then Q - RawFr(m).1 else RawFr(m).1)
  {
    SignNormalised(v, RawFr(m))
  }

  /** The fixed-width vector v, read as the signed components its flags
      give, decomposes m: Signed(k1) - Signed(k2) * lambda == m (mod q). */
  predicate DecomposesFr(v: GlvFr, m: int)
  {
    Congruent(Signed(v.k1, v.neg1) - Signed(v.k2, v.neg2) * GlvLambdaBig, m)
  }

  /** Sign normalisation with clear flags keeps the identity (a negated
      component q - k with its flag set stands for k - q, which is k modulo
      q), and a component left unnegated fits in 128 bits. */
  lemma NormalisePreservesIdentity(raw: (Fr, Fr), m: int)
    requires Congruent(raw.0 - raw.1 * GlvLambdaBig, m)
    ensures DecomposesFr(SignNormalised(FreshFr, raw), m)
    ensures !SignNormalised(FreshFr, raw).neg1 ==> SignNormalised(FreshFr, raw).k1 < 0x100000000000000000000000000000000
    ensures !SignNormalised(FreshFr, raw).neg2 ==> SignNormalised(FreshFr, raw).k2 < 0x100000000000000000000000000000000
  {
    var (r1, r2) := raw;
    var v := SignNormalised(FreshFr, raw);
    MultipleOfCongruent(r1 - r2 * GlvLambdaBig, m);
    var t := (r1 - r2 * GlvLambdaBig - m) / Q;
    var e1 := if v.neg1 then 1 else 0;
    var e2 := if v.neg2 then 1 else 0;
    assert Signed(v.k1, v.neg1) == r1 - Q * e1;
    assert Signed(v.k2, v.neg2) == r2 - Q * e2;
    CongruentByMultiple(Signed(v.k1, v.neg1) - Signed(v.k2, v.neg2) * GlvLambdaBig, m,
                        t - e1 + GlvLambdaBig * e2);
  }

  /** On a fresh vector, new(m) decomposes m, and a component left unnegated
      fits in 128 bits. */
  lemma DecomposeFrCorrect(m: Fr)
    ensures DecomposesFr(NewFr(FreshFr, m), m)
    ensures !NewFr(FreshFr, m).neg1 ==> NewFr(FreshFr, m).k1 < 0x100000000000000000000000000000000
    ensures !NewFr(FreshFr, m).neg2 ==> NewFr(FreshFr, m).k2 < 0x100000000000000000000000000000000
  {
    RawFrCorrect(m);
    NormalisePreservesIdentity(RawFr(m), m);
  }

  /** A stale flag does no harm when its component's raw value is zero (the
      sign of zero is irrelevant) or above r128 (new would set it anyway). */
  lemma StaleFlagHarmless(v: GlvFr, m: Fr)
    ensures (v.neg1 ==> RawFr(m).0 == 0 || RawFr(m).0 > 0xffffffffffffffffffffffffffffffff)
         && (v.neg2 ==> RawFr(m).1 == 0 || RawFr(m).1 > 0xffffffffffffffffffffffffffffffff)
         ==> DecomposesFr(NewFr(v, m), m)
  {
    var clean := NewFr(FreshFr, m);
    var r := NewFr(v, m);
    DecomposeFrCorrect(m);
    if (v.neg1 ==> RawFr(m).0 == 0 || RawFr(m).0 > 0xffffffffffffffffffffffffffffffff)
       && (v.neg2 ==> RawFr(m).1 == 0 || RawFr(m).1 > 0xffffffffffffffffffffffffffffffff) {
      assert Signed(r.k1, r.neg1) == Signed(clean.k1, clean.neg1);
      assert Signed(r.k2, r.neg2) == Signed(clean.k2, clean.neg2);
    }
  }

  /** Because flags are never cleared, a receiver that still carries neg1
      from an earlier call decomposes m = 1 into a pair standing for -1. */
  lemma StaleSignFlag()
    ensures NewFr(GlvFr(0, 0, true, false), 1) == GlvFr(1, 0, true, false)
    ensures !DecomposesFr(GlvFr(1, 0, true, false), 1)
  {
    FixedWidthConstants();
    assert Alpha1(1) == 0 && Alpha2(1) == 0;
    assert RawFr(1) == (1, 0);
  }

  /** The paths give different components for the same scalar: at m = R/27
      the fixed-width alpha2 is 0, so k2 stands for -alpha1, while the Big
      alpha2 is 1 and its k2 is B2 - alpha1; k1 differs as well. */
  lemma PathsDiffer()
    ensures var m: Fr := RBig / 27;
      var v := NewFr(FreshFr, m);
      && Signed(v.k2, v.neg2) == -AlphaBig1(m)
      && DecomposeBig(m).k2 == GlvB2Big - AlphaBig1(m)
      && Signed(v.k2, v.neg2) != DecomposeBig(m).k2
      && Signed(v.k1, v.neg1) != DecomposeBig(m).k1
  {
    var m: Fr := RBig / 27;
    FixedWidthConstants();
    ConstantRelations();
    AlphaBigBounds(m);
    var a1 := AlphaBig1(m);
    assert 0 < a1 < 0x1_0000_0000_0000_0000_0000_0000_0000_0000 by {
      assert m * GlvQ1Big < (0x1_0000_0000_0000_0000_0000_0000_0000_0000 - 1) * RBig;
      assert m * GlvQ1Big >= RBig;
    }
    assert RawFr(m).1 == Q - a1;
  }

  /** glvVectorFr.wnaf's sign rule: naf1 is negated when neg1 is set, naf2
      when neg2 is NOT set. */
  function WnafFr(v: GlvFr, naf1: seq<int>, naf2: seq<int>): (r: (seq<int>, seq<int>))
    ensures |r.0| == |naf1| && |r.1| == |naf2|
    ensures Value(r.0) == (if v.neg1 then -Value(naf1) else Value(naf1))
    ensures Value(r.1) == (if v.neg2 then Value(naf2) else -Value(naf2))
  {
    NegatedValue(naf1);
    NegatedValue(naf2);
    (if v.neg1 then Negated(naf1) else naf1,
     if !v.neg2 then Negated(naf2) else naf2)
  }

  /** When the digit sequences encode the magnitudes k1 and k2, the negations
      leave sequences worth Signed(k1) and -Signed(k2). */
  lemma WnafFrValues(v: GlvFr, naf1: seq<int>, naf2: seq<int>)
    requires Value(naf1) == v.k1 && Value(naf2) == v.k2
    ensures Value(WnafFr(v, naf1, naf2).0) == Signed(v.k1, v.neg1)
    ensures Value(WnafFr(v, naf1, naf2).1) == -Signed(v.k2, v.neg2)
  {
    NegatedValue(naf1);
    NegatedValue(naf2);
  }

  /** The digit sequences glvVectorFr.wnaf returns after new on a fresh
      vector recombine to m: value(naf1) + value(naf2) * lambda == m (mod q). */
  lemma WnafFrDecodes(m: Fr, naf1: seq<int>, naf2: seq<int>)
    requires Value(naf1) == NewFr(FreshFr, m).k1
    requires Value(naf2) == NewFr(FreshFr, m).k2
    ensures Congruent(Value(WnafFr(NewFr(FreshFr, m), naf1, naf2).0)
                      + Value(WnafFr(NewFr(FreshFr, m), naf1, naf2).1) * GlvLambdaBig, m)
  {
    WnafFrValues(NewFr(FreshFr, m), naf1, naf2);
    DecomposeFrCorrect(m);
  }

  /** The two sign rules agree: for a fixed-width vector and a Big vector
      standing for the same signed components, with digit sequences of the
      same magnitudes, both wnaf steps yield sequences of the same values. */
  lemma WnafSignRulesAgree(fr: GlvFr, big: GlvBig, naf1: seq<int>, naf2: seq<int>)
    requires Signed(fr.k1, fr.neg1) == big.k1 && Signed(fr.k2, fr.neg2) == big.k2
    requires Value(naf1) == fr.k1 == Abs(big.k1)
    requires Value(naf2) == fr.k2 == Abs(big.k2)
    ensures Value(WnafFr(fr, naf1, naf2).0) == Value(WnafBig(big, naf1, naf2).0)
    ensures Value(WnafFr(fr, naf1, naf2).1) == Value(WnafBig(big, naf1, naf2).1)
  {
    WnafFrValues(fr, naf1, naf2);
    WnafBigValues(big, naf1, naf2);
  }

  /** glvVectorFr: the receiver whose fields new assigns. */
  class GlvVectorFr {
    var k1: Fr
    var k2: Fr
    var neg1: bool
    var neg2: bool

    function View(): GlvFr
      reads this
    {
      GlvFr(k1, k2, neg1, neg2)
    }

    /** new(glvVectorFr): zero components, flags clear. */
    constructor ()
      ensures View() == FreshFr
    {
      k1, k2, neg1, neg2 := 0, 0, false, false;
    }

    /** glvVectorFr.new(m) */
    method New(m: Fr)
      modifies this
      ensures View() == NewFr(old(View()), m)
      ensures old(!neg1 && !neg2) ==> DecomposesFr(View(), m)
    {
      ghost var wasClear := !neg1 && !neg2;
      FixedWidthConstants();
      var alpha1 := Alpha1(m);
      var alpha2 := Alpha2(m);

      var z1 := Mul(alpha1, WordsValue(GlvB1));
      var z2 := Mul(alpha2, WordsValue(GlvB2));

      var k1 := Sub(m, z1);
      k1 := Sub(k1, alpha2);

      var k2 := Sub(z2, alpha1);

      if Cmp(k1, WordsValue(R128)) == 1 {
        k1 := Neg(k1);
        neg1 := true;
      }
      this.k1 := k1;
      if Cmp(k2, WordsValue(R128)) == 1 {
        k2 := Neg(k2);
        neg2 := true;
      }
      this.k2 := k2;
      if wasClear {
        DecomposeFrCorrect(m);
      }
    }

    /** glvVectorFr.wnaf(w), with Fr.toWNAF as the parameter toWnaf. */
    method Wnaf(w: nat, toWnaf: (Fr, nat) -> seq<int>) returns (naf1: seq<int>, naf2: seq<int>)
      ensures (naf1, naf2) == WnafFr(View(), toWnaf(k1, w), toWnaf(k2, w))
      ensures (forall k: Fr :: Value(toWnaf(k, w)) == k) ==>
                Value(naf1) == Signed(k1, neg1) && Value(naf2) == -Signed(k2, neg2)
    {
      naf1 := toWnaf(k1, w);
      naf2 := toWnaf(k2, w);
      if neg1 {
        naf1 := Negated(naf1);
      }
      if !neg2 {
        naf2 := Negated(naf2);
      }
      if forall k: Fr :: Value(toWnaf(k, w)) == k {
        WnafFrValues(View(), toWnaf(k1, w), toWnaf(k2, w));
      }
    }
  }
}
