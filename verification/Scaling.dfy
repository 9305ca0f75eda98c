/**
 * The set-up of dtoa.c: the mantissa and exponent of the double, the correction of the estimated
 * decimal exponent, and the distribution of powers of two and five over b, S, mlo and mhi.
 */
module Scaling {
  import opened Powers
  import opened DigitStrings
  import Bigints
  import opened BigintBits
  import opened Bignums
  import DigitLoops
  import opened ShortestLoop
  import opened Decimals
  import opened Doubles

  /** x * 5^n, as pow5mult computes it. */
  function Scale5(x: nat, n: nat): nat {
    if n == 0 then x else 5 * Scale5(x, n - 1)
  }

  /** Every quantity of the set-up is a multiple c of 2^x2 * 5^x5. */
  function Powered(c: nat, x2: nat, x5: nat): nat {
    Lsh(Scale5(c, x5), x2)
  }

  /** x / S, measured in 10^k, is u units: x * 10^k * 2^1075 == u * S, with a negative power on the other side. */
  ghost predicate Ratio(x: int, S: nat, u: nat, k: int) {
    Lsh(Scale10(x, Pos(k)), TINY) == Scale10(Times(u, S), Pos(-k))
  }

  lemma {:induction false} Scale5Scale5(x: nat, m: nat, n: nat)
    ensures Scale5(Scale5(x, m), n) == Scale5(x, m + n)
  {
    if n > 0 {
      Scale5Scale5(x, m, n - 1);
    }
  }

  lemma {:induction false} LshFive(x: nat, a: nat)
    ensures Lsh(5 * x, a) == 5 * Lsh(x, a)
  {
    if a > 0 {
      LshFive(x, a - 1);
    }
  }

  lemma {:induction false} LshScale5(x: nat, a: nat, n: nat)
    ensures Lsh(Scale5(x, n), a) == Scale5(Lsh(x, a), n)
  {
    if n > 0 {
      LshScale5(x, a, n - 1);
      LshFive(Scale5(x, n - 1), a);
    }
  }

  lemma PoweredPowered(c: nat, a: nat, b: nat, a': nat, b': nat)
    ensures Powered(Powered(c, a, b), a', b') == Powered(c, a + a', b + b')
  {
    LshScale5(Scale5(c, b), a, b');
    Scale5Scale5(c, b, b');
    LshLsh(Scale5(c, b + b'), a, a');
  }

  lemma {:induction false} Scale10Powered(c: nat, n: nat)
    ensures Scale10(c, n) == Powered(c, n, n)
  {
    if n > 0 {
      Scale10Powered(c, n - 1);
      LshFive(Scale5(c, n - 1), n - 1);
    }
  }

  /** A product by a power is the power of the product. */
  lemma {:induction false} TimesPowered(u: nat, a: nat, b: nat)
    ensures Times(u, Powered(1, a, b)) == Powered(u, a, b)
  {
    if u > 0 {
      TimesPowered(u - 1, a, b);
      Scale5Add(u - 1, 1, b);
      LshAdd(Scale5(u - 1, b), Scale5(1, b), a);
    } else {
      Scale5Zero(b);
    }
  }

  lemma {:induction false} Scale5Add(x: nat, y: nat, n: nat)
    ensures Scale5(x + y, n) == Scale5(x, n) + Scale5(y, n)
  {
    if n > 0 {
      Scale5Add(x, y, n - 1);
    }
  }

  lemma {:induction false} Scale5Zero(n: nat)
    ensures Scale5(0, n) == 0
  {
    if n > 0 {
      Scale5Zero(n - 1);
    }
  }

  /** Only differences of exponents matter: such a quantity over S stands for c * 2^z. */
  lemma RatioFrom(c: nat, x2: nat, x5: nat, s2: nat, s5: nat, k: int, z: int, u: nat, x: nat, S: nat)
    requires x2 + k == z + s2 && x5 + k == s5 && z >= -TINY && u == Lsh(c, z + TINY)
    requires x == Powered(c, x2, x5) && S == Powered(1, s2, s5)
    ensures Ratio(x, S, u, k)
  {
    var p, r := Pos(k), Pos(-k);
    Scale10Powered(x, p);
    PoweredPowered(c, x2, x5, p, p);
    LshLsh(Scale5(c, x5 + p), x2 + p, TINY);
    TimesPowered(u, s2, s5);
    assert u == Powered(c, z + TINY, 0);
    PoweredPowered(c, z + TINY, 0, s2, s5);
    Scale10Powered(Times(u, S), r);
    PoweredPowered(c, z + TINY + s2, s5, r, r);
  }

  lemma RatioTen(x: int, S: nat, u: nat, k: int)
    requires Ratio(x, S, u, k)
    ensures Ratio(10 * x, S, u, k - 1)
  {
    if k > 0 {
      Scale10Scale10(x, 1, k - 1);
    } else {
      LshTen(x, TINY);
    }
  }

  lemma RatioDiff(x: int, y: int, S: nat, u: nat, w: nat, k: int)
    requires Ratio(x, S, u, k) && Ratio(y, S, w, k) && u >= w
    ensures Ratio(x - y, S, u - w, k)
  {
    var p, r := Pos(k), Pos(-k);
    var a, b, c := Scale10(x, p), Scale10(y, p), Scale10(x - y, p);
    Scale10Add(x - y, y, p);
    assert a == c + b;
    LshAdd(c, b, TINY);
    TimesSum(u - w, w, S);
    Scale10Add(Times(u - w, S), Times(w, S), r);
  }

  lemma RatioSum(x: int, y: int, S: nat, u: nat, w: nat, k: int)
    requires Ratio(x, S, u, k) && Ratio(y, S, w, k)
    ensures Ratio(x + y, S, u + w, k)
  {
    TimesSum(u, w, S);
    Scale10Add(x, y, Pos(k));
    LshAdd(Scale10(x, Pos(k)), Scale10(y, Pos(k)), TINY);
    Scale10Add(Times(u, S), Times(w, S), Pos(-k));
  }

  /** Quantities compare as the magnitudes they stand for. */
  lemma RatioMono(x: int, y: int, S: nat, u: nat, w: nat, k: int)
    requires S > 0 && Ratio(x, S, u, k) && Ratio(y, S, w, k)
    ensures Sign(x - y) == Sign(u - w)
  {
    SignScaled(x, y, Pos(k));
    SignScale10(Times(u, S), Times(w, S), Pos(-k));
    SignTimes(u, w, S);
  }

  /**
   * The heart of the set-up: comparing M * S with y * 10^(j-1) compares the decimal M * 10^(k-j+1)
   * with the magnitude that y stands for.
   */
  lemma RatioOrder(M: nat, S: nat, y: int, u: nat, k: int, j: nat)
    requires j >= 1 && S > 0 && Ratio(y, S, u, k)
    ensures Sign(Times(M, S) - Scale10(y, j - 1)) == Decimal(M, k - j + 1).Order(u)
  {
    var q := k - j + 1;
    RatioOrderStep(M, S, y, u, k, j);
    OrderSame(M, u, Pos(k), Pos(-k) + (j - 1), Pos(q), Pos(-q));
  }

  lemma RatioOrderStep(M: nat, S: nat, y: int, u: nat, k: int, j: nat)
    requires j >= 1 && S > 0 && Ratio(y, S, u, k)
    ensures Sign(Times(M, S) - Scale10(y, j - 1)) == OrderAt(M, u, Pos(k), Pos(-k) + (j - 1))
  {
    var p, t := Pos(k), Pos(-k) + (j - 1);
    SignScaled(Times(M, S), Scale10(y, j - 1), p);
    TimesScaleLsh(M, S, p);
    RatioScaled(S, y, u, k, j);
    SignTimes(Lsh(Scale10(M, p), TINY), Scale10(u, t), S);
  }

  lemma SignScaled(a: int, c: int, p: nat)
    ensures Sign(a - c) == Sign(Lsh(Scale10(a, p), TINY) - Lsh(Scale10(c, p), TINY))
  {
    SignScale10(a, c, p);
    SignLsh(Scale10(a, p), Scale10(c, p), TINY);
  }

  lemma RatioScaled(S: nat, y: int, u: nat, k: int, j: nat)
    requires j >= 1 && Ratio(y, S, u, k)
    ensures Lsh(Scale10(Scale10(y, j - 1), Pos(k)), TINY) == Times(Scale10(u, Pos(-k) + (j - 1)), S)
  {
    Scale10Scale10(y, j - 1, Pos(k));
    Scale10Scale10(y, Pos(k), j - 1);
    LshScale10(Scale10(y, Pos(k)), TINY, j - 1);
    Scale10Scale10(Times(u, S), Pos(-k), j - 1);
    DigitLoops.TimesScale10(u, S, Pos(-k) + (j - 1));
  }

  lemma TimesScaleLsh(M: nat, S: nat, p: nat)
    ensures Lsh(Scale10(Times(M, S), p), TINY) == Times(Lsh(Scale10(M, p), TINY), S)
  {
    DigitLoops.TimesScale10(M, S, p);
    TimesLsh(Scale10(M, p), S, TINY);
  }

  /** The decimal exponent of the leading digit. */
  ghost predicate LeadingExponent(d: Double, k: int) {
    Decimal(1, k).Order(d.Units()) <= 0 && Decimal(1, k + 1).Order(d.Units()) > 0
  }

  /** What the logarithm estimate is trusted for: the leading exponent or one more. */
  ghost predicate Estimate(d: Double, k: int) {
    LeadingExponent(d, k) || LeadingExponent(d, k - 1)
  }

  /** Comparing b with S compares the number with the power of ten. */
  lemma RatioLeading(d: Double, b: nat, S: nat, k: int)
    requires S > 0 && Ratio(b, S, d.Units(), k)
    ensures b < S <==> Decimal(1, k).Order(d.Units()) > 0
    ensures b < 10 * S <==> Decimal(1, k + 1).Order(d.Units()) > 0
  {
    TimesIs(1, S);
    TimesIs(10, S);
    RatioOrder(1, S, b, d.Units(), k, 1);
    RatioOrder(10, S, b, d.Units(), k, 1);
    Rescale(Decimal(1, k + 1), 1, d.Units());
    assert Scale10(1, 1) == 10;
  }

  /** d2b: the odd part of the mantissa, its exponent and its length in bits. */
  method D2b(d: Double) returns (b: nat, be: int, bbits: nat)
    requires d.Finite()
    ensures b % 2 == 1 && be >= d.Exponent() - TINY
    ensures d.Mantissa() == Lsh(b, be - d.Exponent() + TINY)
    ensures bbits > 0 && Lsh(1, bbits - 1) <= b < Lsh(1, bbits)
    ensures d.ex > 0 ==> bbits == 53 - (be - d.Exponent() + TINY)
  {
    var z := d.Mantissa();
    var k := Lo0Bits(z);
    ghost var odd := Lo0BitsIs(z);
    LshIs(odd, k);
    Pow2Pos(k);
    DivModUnique(z, Pow2(k), odd, 0);
    b := z / Pow2(k);
    be := d.Exponent() - 1075 + k;
    if d.ex > 0 {
      LshConstants();
      OddQuotient(z, odd, k, 53);
      bbits := 53 - k;
    } else {
      BitLengthIs(b);
      bbits := BitLength(b);
    }
  }

  /** Small exponents are corrected by comparing with an exact power of ten; others are checked later. */
  method CorrectEstimate(d: Double, kEst: int) returns (k: int, kCheck: bool)
    requires d.Finite() && Estimate(d, kEst)
    ensures Estimate(d, k) && (!kCheck ==> LeadingExponent(d, k)) && (kCheck ==> k < 0 || k > 22)
  {
    k, kCheck := kEst, true;
    if 0 <= k <= 22 {
      if d.Units() < Decimal(1, k).Num() {
        k := k - 1;
      }
      kCheck := false;
    }
  }

  /** The shift that makes the bit length of the divisor 28 modulo 32. */
  method AlignShift(bits: nat) returns (i: nat)
    ensures (bits + i) % 32 == 28 && i < 32
  {
    i := bits % 32;
    if i != 0 {
      i := 32 - i;
    }
    if i > 4 {
      i := i - 4;
    } else if i < 4 {
      i := i + 28;
    } else {
      i := 0;
    }
  }

  lemma AlignedByBits(c: nat, bits: nat, s2: nat) returns (n: nat)
    requires bits > 0 && Lsh(1, bits - 1) <= c < Lsh(1, bits) && (bits + s2) % 32 == 28
    ensures Aligned(Lsh(c, s2), n)
  {
    n := (bits + s2) / 32;
    LshLsh(1, bits - 1, s2);
    LshLsh(1, bits, s2);
    LshExp(Lsh(1, bits - 1), s2, c, s2);
    LshMono(c, s2, Lsh(1, bits));
    LshLsh(1, 27, 32 * n);
    LshLsh(1, 28, 32 * n);
    LshConstants();
  }

  /** The divisor before its shift: its length in bits, as far as the alignment needs it. */
  method DivisorBits(S5: nat, s5: nat) returns (bits: nat, ghost full: nat)
    requires S5 == Scale5(1, s5)
    ensures full > 0 && Lsh(1, full - 1) <= S5 < Lsh(1, full) && full % 32 == bits % 32
  {
    if s5 == 0 {
      bits, full := 1, 1;
    } else {
      Scale5Pos(s5);
      ToWordsIs(S5);
      bits, full := TopWordLength(ToWords(S5));
    }
  }

  method TopWordLength(w: seq<Bigints.Word>) returns (bits: nat, ghost full: nat)
    requires |w| > 0 && w[|w| - 1] != 0
    ensures full > 0 && Lsh(1, full - 1) <= Bigints.Val(w) < Lsh(1, full) && full % 32 == bits % 32
  {
    ValBitLength(w);
    bits := BitLength(w[|w| - 1]);
    full := 32 * (|w| - 1) + bits;
    WordsApart(|w| - 1, bits, full);
  }

  lemma WholeWordsApart(full: int, bits: int, t: int)
    requires full % 32 == bits % 32 && (bits + t) % 32 == 28
    ensures (full + t) % 32 == 28
  {}

  lemma WordsApart(n: int, bits: int, full: int)
    requires full == 32 * n + bits
    ensures full % 32 == bits % 32
  {}

  lemma {:induction false} Scale5Pos(n: nat)
    ensures Scale5(1, n) > 0
  {
    if n > 0 {
      Scale5Pos(n - 1);
    }
  }

  /** The exponents of the set-up, before any bignum is built. */
  datatype Exponents = Exponents(b2: nat, b5: nat, m2: nat, m5: nat, s2: nat, s5: nat) {
    /** b over S stands for 2^z, and mlo over S for 2^h, in units of 10^k. */
    predicate Fit(k: int, z: int, h: int) {
      b2 + k == z + s2 && m2 + k == h + s2 && b5 + k == m5 + k == s5
    }
  }

  /**
   * Distributes the powers: the binary exponent be and the decimal exponent k on the side where
   * they are positive, room for the half-gaps, common twos removed, one more two when the lower
   * gap is the smaller one.
   */
  method Distribute(d: Double, be: int, bbits: nat, k: int, leftright: bool) returns (e: Exponents, spec: bool)
    requires d.Finite() && be >= d.Exponent() - TINY && bbits > 0
    requires d.ex > 0 ==> bbits == 53 - (be - d.Exponent() + TINY)
    ensures spec == (leftright && d.fr == 0 && d.ex >= 2)
    ensures !leftright ==> e.Fit(k, be, be)
    ensures leftright ==> e.Fit(k, be, d.Exponent() - 1 - TINY - if spec then 1 else 0)
  {
    var denorm := d.ex == 0;
    var i := if denorm then bbits + be - 1 else d.ex - 1023;
    var j := bbits - i - 1;
    var b2, s2, b5, s5;
    if j >= 0 {
      b2, s2 := 0, j;
    } else {
      b2, s2 := -j, 0;
    }
    if k >= 0 {
      b5, s5, s2 := 0, k, s2 + k;
    } else {
      b2, b5, s5 := b2 - k, -k, 0;
    }
    var m2, m5 := b2, b5;
    if leftright {
      i := if denorm then be + 1075 else 1 + 53 - bbits;
      b2, s2 := b2 + i, s2 + i;
    }
    if m2 > 0 && s2 > 0 {
      i := if m2 < s2 then m2 else s2;
      b2, m2, s2 := b2 - i, m2 - i, s2 - i;
    }
    spec := false;
    if leftright && d.fr == 0 && d.ex >= 2 {
      b2, s2, spec := b2 + 1, s2 + 1, true;
    }
    e := Exponents(b2, b5, m2, m5, s2, s5);
  }

  /** The problem p is the double d: its magnitude and half-gaps over S, in units of 10^k. */
  ghost predicate SetUp(d: Double, p: Problem, k: int, leftright: bool) {
    && p.S > 0 && Ratio(p.b, p.S, d.Units(), k)
    && (leftright ==>
      && 0 < p.mlo <= p.mhi
      && Ratio(p.mlo, p.S, d.HalfDown(), k) && Ratio(p.mhi, p.S, d.HalfUp(), k))
  }

  /** "We botched the k estimate": ten times the numerators, one less in the exponent. */
  method CheckEstimate(d: Double, p0: Problem, k0: int, kCheck: bool, leftright: bool) returns (p: Problem, k: int)
    requires Estimate(d, k0) && (!kCheck ==> LeadingExponent(d, k0)) && SetUp(d, p0, k0, leftright)
    ensures LeadingExponent(d, k) && (k == k0 || k == k0 - 1) && SetUp(d, p, k, leftright)
    ensures p.S == p0.S <= p.b < 10 * p.S && p.incl == p0.incl
  {
    RatioLeading(d, p0.b, p0.S, k0);
    k, p := k0, p0;
    if kCheck && p.b < p.S {
      RatioTen(p.b, p.S, d.Units(), k);
      RatioLeading(d, 10 * p.b, p.S, k - 1);
      k, p := k - 1, p.(b := 10 * p.b);
      if leftright {
        RatioTen(p.mlo, p.S, d.HalfDown(), k + 1);
        RatioTen(p.mhi, p.S, d.HalfUp(), k + 1);
        p := p.(mlo := 10 * p.mlo, mhi := 10 * p.mhi);
      }
    }
  }

  /**
   * The whole set-up: the loop's problem is the double itself, in units of the power of ten of its
   * leading digit, and S is aligned for quorem.
   */
  method ScaleSetup(d: Double, k0: int, kCheck: bool, leftright: bool, incl: bool)
    returns (p: Problem, k: int, ghost n: nat)
    requires d.Finite() && Estimate(d, k0) && (!kCheck ==> LeadingExponent(d, k0))
    ensures LeadingExponent(d, k) && (k == k0 || k == k0 - 1) && SetUp(d, p, k, leftright)
    ensures Aligned(p.S, n) && p.S <= p.b < 10 * p.S && p.incl == incl
  {
    var b, be, bbits := D2b(d);
    var e, spec := Distribute(d, be, bbits, k0, leftright);
    var i;
    i, n := Align(e);
    e := e.(b2 := e.b2 + i, m2 := e.m2 + i, s2 := e.s2 + i);
    var B, S := Powered(b, e.b2, e.b5), Powered(1, e.s2, e.s5);
    var mlo := if leftright then Powered(1, e.m2, e.m5) else 0;
    var mhi := if spec then Lsh(mlo, 1) else mlo;
    SetupRatios(d, b, be, e, k0, leftright, spec, B, S, mlo, mhi);
    p, k := CheckEstimate(d, Problem(B, S, mlo, mhi, incl), k0, kCheck, leftright);
  }

  /** The alignment shift of the divisor 2^s2 * 5^s5. */
  method Align(e: Exponents) returns (i: nat, ghost n: nat)
    ensures i < 32 && Aligned(Powered(1, e.s2 + i, e.s5), n)
  {
    var S5 := Scale5(1, e.s5);
    var bits, full := DivisorBits(S5, e.s5);
    i := AlignShift(bits + e.s2);
    WholeWordsApart(full, bits, e.s2 + i);
    n := AlignedByBits(S5, full, e.s2 + i);
  }

  lemma SetupRatios(d: Double, b: nat, be: int, e: Exponents, k: int, leftright: bool, spec: bool,
                    B: nat, S: nat, mlo: nat, mhi: nat)
    requires d.Finite() && be >= d.Exponent() - TINY && d.Mantissa() == Lsh(b, be - d.Exponent() + TINY)
    requires spec == (leftright && d.fr == 0 && d.ex >= 2)
    requires e.Fit(k, be, if leftright then d.Exponent() - 1 - TINY - (if spec then 1 else 0) else be)
    requires B == Powered(b, e.b2, e.b5) && S == Powered(1, e.s2, e.s5)
    requires mlo == if leftright then Powered(1, e.m2, e.m5) else 0
    requires mhi == if spec then Lsh(mlo, 1) else mlo
    ensures SetUp(d, Problem(B, S, mlo, mhi, true), k, leftright)
    ensures SetUp(d, Problem(B, S, mlo, mhi, false), k, leftright)
  {
    Scale5Pos(e.s5);
    LshLsh(b, be - d.Exponent() + TINY, d.Exponent());
    RatioFrom(b, e.b2, e.b5, e.s2, e.s5, k, be, d.Units(), B, S);
    if leftright {
      GapRatios(d, be, e, k, spec, S, mlo, mhi);
    }
  }

  lemma GapRatios(d: Double, be: int, e: Exponents, k: int, spec: bool, S: nat, mlo: nat, mhi: nat)
    requires d.Finite() && spec == (d.fr == 0 && d.ex >= 2) && S == Powered(1, e.s2, e.s5)
    requires e.Fit(k, be, d.Exponent() - 1 - TINY - if spec then 1 else 0)
    requires mlo == Powered(1, e.m2, e.m5) && mhi == if spec then Lsh(mlo, 1) else mlo
    ensures 0 < mlo <= mhi && Ratio(mlo, S, d.HalfDown(), k) && Ratio(mhi, S, d.HalfUp(), k)
  {
    Scale5Pos(e.m5);
    var h := d.Exponent() - 1 - TINY;
    if spec {
      RatioFrom(1, e.m2, e.m5, e.s2, e.s5, k, h - 1, d.HalfDown(), mlo, S);
      LshLsh(Scale5(1, e.m5), e.m2, 1);
      RatioFrom(1, e.m2 + 1, e.m5, e.s2, e.s5, k, h, d.HalfUp(), mhi, S);
    } else {
      RatioFrom(1, e.m2, e.m5, e.s2, e.s5, k, h, d.HalfUp(), mlo, S);
    }
  }
}
