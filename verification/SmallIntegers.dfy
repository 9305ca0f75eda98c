/**
 * The small-integer path of dtoa.c: an integer below 10^15 is divided by a power of ten digit by
 * digit. The source does this in double arithmetic; every value stays below 2^53, so it is exact.
 */
module SmallIntegers {
  import opened Powers
  import opened DigitStrings
  import opened Decimals
  import opened Doubles
  import opened DigitLoops
  import opened ShortestLoop
  import opened Scaling
  import opened DtoaBridge

  /** The quotient digit and what is left, by division. */
  method DivideOut(b: nat, S: nat) returns (L: nat, r: nat)
    requires b < 10 * S
    ensures b == Times(L, S) + r && r < S && L <= 9
  {
    L := b / S;
    r := b - L * S;
    DivModIs(b, S);
    TimesIs(L, S);
    if L >= 10 {
      MulLe(S, 10, L);
    }
  }

  /**
   * Why doubles compute this exactly for k <= 14: every value is below 2^53, and the quotient stays
   * more than 2^-50, half its last place at most, below the next integer, so rounding it cannot raise the digit.
   */
  lemma ExactInDoubles(b: nat, k: nat, L: nat, r: nat)
    requires k <= 14 && b < 10 * Scale10(1, k) && b == Times(L, Scale10(1, k)) + r && r < Scale10(1, k)
    ensures b < Lsh(1, 53) && 10 * r < Lsh(1, 53)
    ensures Lsh(b, 50) + Scale10(1, k) < Lsh(Times(L + 1, Scale10(1, k)), 50)
  {
    var S := Scale10(1, k);
    TenToFourteen();
    Scale10Longer(k, 14);
    TwoToFifty();
    TimesSum(L, 1, S);
    LshAdd(b, S - r, 50);
    LshLe(1, 50, S - r);
  }

  lemma TwoToFifty()
    ensures Lsh(1, 50) == 0x4_0000_0000_0000 && Lsh(1, 53) == 0x20_0000_0000_0000
  {
    LshConstants();
    assert Lsh(1, 52) == 2 * Lsh(1, 51);
    assert Lsh(1, 51) == 2 * Lsh(1, 50);
  }

  lemma TenToFourteen()
    ensures Scale10(1, 14) == 100_000_000_000_000
  {
    Scale10Scale10(1, 7, 7);
    assert Scale10(1, 7) == 10_000_000;
    Scale10Is(10_000_000, 7);
    Scale10Is(1, 7);
  }

  lemma ScaledUnit(D: nat, k: nat)
    ensures Times(D, Scale10(1, k)) == Scale10(D, k)
  {
    Scale10Times(1, D, k);
    TimesIs(D, 1);
  }

  /** After k + 1 digits of an integer below 10^(k+1) nothing is left. */
  lemma ExactInTime(D: nat, k: nat, ds: seq<nat>, r: nat)
    requires After(D, Scale10(1, k), ds, r, k + 1)
    ensures r == 0
  {
    var S := Scale10(1, k);
    ScaledUnit(D, k);
    QuotientFrom(Scale10(D, k), S, D, 0);
    QuotientFrom(Scale10(D, k), S, DigVal(ds), r);
  }

  /** The stop that leaves trailing zeros behind: cut off at ilim digits, rounded down, last digit zero. */
  ghost predicate LeavesZeros(D: nat, k: nat, ilim: nat)
    requires ilim >= 1
  {
    var S := Scale10(1, k);
    var q, r := Scale10(D, ilim - 1) / S, Scale10(D, ilim - 1) % S;
    r != 0 && Rounded(Nearest, Scale10(D, ilim - 1), S) == q && q % 10 == 0
  }

  /** No digit limit, or nothing is left at it. */
  ghost predicate Exact(D: nat, k: nat, ilim: int) {
    ilim <= 0 || Scale10(D, ilim - 1) % Scale10(1, k) == 0
  }

  /** The loop; ilim <= 0 means no digit limit. */
  method SmallDigits(D: nat, k: nat, ilim: int) returns (ds: seq<nat>, carry: nat)
    requires Scale10(1, k) <= D < Scale10(1, k + 1)
    ensures |ds| > 0 && AllDigits(ds) && ds[0] != 0 && carry <= 1
    ensures Exact(D, k, ilim) ==> Normal(ds) && carry == 0 && |ds| <= k + 1 && After(D, Scale10(1, k), ds, 0, |ds|)
    ensures ilim > 0 ==> |ds| <= ilim && (Normal(ds) <==> !LeavesZeros(D, k, ilim)) && (Normal(ds) || |ds| == ilim)
    ensures ilim > 0 ==>
      Scale10(DigVal(ds), ilim + carry - |ds|) == Rounded(Nearest, Scale10(D, ilim - 1), Scale10(1, k))
  {
    var S, b, i := Scale10(1, k), D, 1;
    ds := [];
    while true
      invariant i <= k + 1 && (ilim > 0 ==> i <= ilim)
      invariant Before(D, S, ds, b, i) && (i > 1 ==> b > 0)
      decreases k + 1 - i
    {
      var L, r := DivideOut(b, S);
      DigitStep(D, S, ds, b, i, L, r);
      ds := ds + [L];
      if r == 0 {
        if ilim > 0 {
          ExactStop(D, k, ds, i, ilim);
        }
        return ds, 0;
      }
      if i == ilim {
        ds, carry := SmallCut(D, k, ds, r, i);
        return;
      }
      if i == k + 1 {
        ExactInTime(D, k, ds, r);
      }
      Continue(D, S, ds, r, i);
      b, i := 10 * r, i + 1;
    }
  }

  lemma ExactStop(D: nat, k: nat, ds: seq<nat>, i: nat, ilim: nat)
    requires 1 <= i <= ilim && After(D, Scale10(1, k), ds, 0, i)
    ensures Scale10(DigVal(ds), ilim - i) == Rounded(Nearest, Scale10(D, ilim - 1), Scale10(1, k))
    ensures !LeavesZeros(D, k, ilim) && Exact(D, k, ilim)
  {
    var S := Scale10(1, k);
    RoundedExact(Nearest, D, S, ds, i, ilim);
    Scale10Scale10(D, i - 1, ilim - i);
    TimesScale10(DigVal(ds), S, ilim - i);
    QuotientFrom(Scale10(D, ilim - 1), S, Scale10(DigVal(ds), ilim - i), 0);
  }

  /** The cut at ilim digits: bump_up, or the digits as they are. */
  method SmallCut(D: nat, k: nat, ds: seq<nat>, r: nat, ilim: nat) returns (out: seq<nat>, carry: nat)
    requires After(D, Scale10(1, k), ds, r, ilim) && r != 0
    ensures |out| > 0 && AllDigits(out) && out[0] != 0 && carry <= 1 && |out| <= ilim
    ensures Scale10(DigVal(out), ilim + carry - |out|) == Rounded(Nearest, Scale10(D, ilim - 1), Scale10(1, k))
    ensures (Normal(out) <==> !LeavesZeros(D, k, ilim)) && (Normal(out) || |out| == ilim)
    ensures !Exact(D, k, ilim)
  {
    var S := Scale10(1, k);
    RoundedIs(Nearest, D, S, ds, r, ilim);
    QuotientDigits(D, S, ds, r, ilim);
    var L := ds[|ds| - 1];
    if r + r > S || (r + r == S && L % 2 == 1) {
      out, carry := RoundUp(ds);
    } else {
      out, carry := ds, 0;
    }
  }

  lemma QuotientDigits(D: nat, S: nat, ds: seq<nat>, r: nat, i: nat)
    requires S > 0 && After(D, S, ds, r, i)
    ensures Scale10(D, i - 1) / S == DigVal(ds) && Scale10(D, i - 1) % S == r
    ensures DigVal(ds) % 10 == ds[|ds| - 1]
  {
    LastDigitMod(ds);
    QuotientFrom(Scale10(D, i - 1), S, DigVal(ds), r);
  }

  // ---------------------------------------------------------------- exact digits are shortest

  /** The double is the integer D. */
  ghost predicate IsInteger(d: Double, D: nat) {
    d.Units() == Lsh(D, TINY)
  }

  lemma IntegerRatio(d: Double, D: nat, k: nat)
    requires IsInteger(d, D)
    ensures Ratio(D, Scale10(1, k), d.Units(), k)
  {
    LshScale10(D, TINY, k);
    ScaledUnit(Lsh(D, TINY), k);
  }

  lemma UnitRatio(u: nat, k: nat)
    ensures Ratio(u, Lsh(Scale10(1, k), TINY), u, k)
  {
    ScaledUnit(u, k);
    LshTimes(u, Scale10(1, k), TINY);
  }

  /** The loop's problem for an integer, with the gaps in units. */
  function IntegerProblem(d: Double, k: nat, incl: bool): Problem {
    Problem(d.Units(), Lsh(Scale10(1, k), TINY), d.HalfDown(), d.HalfUp(), incl)
  }

  lemma IntegerSetUp(d: Double, k: nat, incl: bool)
    ensures SetUp(d, IntegerProblem(d, k, incl), k, true)
  {
    HalfPositive(d);
    UnitRatio(d.Units(), k);
    UnitRatio(d.HalfDown(), k);
    UnitRatio(d.HalfUp(), k);
  }

  /** An integer below 2^53 is more than a half-gap away from every other integer. */
  lemma GapBelowOne(d: Double, D: nat)
    requires d.Finite() && IsInteger(d, D) && D < 0x20_0000_0000_0000
    ensures d.HalfUp() < Lsh(1, TINY)
  {
    LshConstants();
    if d.ex > 0 {
      LshLsh(1, d.ex - 1, 1);
      HalfGapBound(Lsh(1, 52), d.Mantissa(), d.ex, D, TINY);
    } else {
      LshMono(0, TINY - 1, 1);
    }
  }

  lemma HalfGapBound(f: nat, m: nat, e: nat, D: nat, t: nat)
    requires f == Lsh(1, 52) && f <= m && e > 0 && Lsh(m, e) == Lsh(D, t) && D < Lsh(1, 53)
    ensures Lsh(1, e - 1) < Lsh(1, t)
  {
    LshExp(f, e, m, e);
    LshLsh(1, 52, e);
    LshLsh(1, 53, t);
    LshMono(D, t, Lsh(1, 53));
    if e - 1 >= t {
      LshLonger(53 + t, 52 + e);
    } else {
      LshLsh(1, e - 1, t - (e - 1));
      LshExp(1, e - 1, 1, t - 1);
    }
  }

  /** x = N * S + r with x and S multiples of a power of ten makes r and S - r multiples too. */
  lemma MultipleRemainder(D: nat, unit: nat, N: nat, r: nat, n: nat)
    requires Scale10(D, n) == Times(N, Scale10(unit, n)) + r && 0 < r < Scale10(unit, n)
    ensures Scale10(1, n) <= r && Scale10(1, n) <= Scale10(unit, n) - r
  {
    var t := D - Times(N, unit);
    assert r == Scale10(t, n) by {
      Scale10Times(unit, N, n);
      ScaledDifference(D, Times(N, unit), n);
    }
    ScaledDifference(unit, t, n);
    AtLeastOne(t, n);
    AtLeastOne(unit - t, n);
  }

  /** As long as something is left, it is a positive multiple of 10^(j-1), and so is its complement. */
  lemma PartialRemainder(D: nat, k: nat, j: nat) returns (N: nat, r: nat)
    requires 1 <= j <= k + 1 && !Exact(D, k, j)
    ensures Remainder(D, Scale10(1, k), N, r, j)
    ensures Scale10(1, j - 1) <= r && Scale10(1, j - 1) <= Scale10(1, k) - r
  {
    N, r := QuotRem(Scale10(D, j - 1), Scale10(1, k));
    Scale10Scale10(1, k - (j - 1), j - 1);
    MultipleRemainder(D, Scale10(1, k - (j - 1)), N, r, j - 1);
  }

  lemma QuotRem(x: nat, S: nat) returns (q: nat, r: nat)
    requires S > 0
    ensures x == Times(q, S) + r && r < S && r == x % S
  {
    q, r := x / S, x % S;
    DivModIs(x, S);
    TimesIs(q, S);
  }

  /** Before the last digit of an exact string something is left. */
  lemma NotExactBefore(D: nat, k: nat, ds: seq<nat>, j: nat)
    requires Normal(ds) && 1 <= j < |ds| && After(D, Scale10(1, k), ds, 0, |ds|)
    ensures !Exact(D, k, j)
  {
    var N, r := QuotRem(Scale10(D, j - 1), Scale10(1, k));
    if r == 0 {
      LaterDigitsZero(D, Scale10(1, k), ds, N, j);
    }
  }

  /** What is left stays zero, and is zero after k + 1 digits. */
  lemma ExactStays(D: nat, k: nat, j: nat, m: nat)
    requires 1 <= j <= m && Exact(D, k, j)
    ensures Exact(D, k, m)
  {
    var S := Scale10(1, k);
    var q, r := QuotRem(Scale10(D, j - 1), S);
    Scale10Scale10(D, j - 1, m - j);
    TimesScale10(q, S, m - j);
    QuotientFrom(Scale10(D, m - 1), S, Scale10(q, m - j), 0);
  }

  lemma ExactAtEnd(D: nat, k: nat)
    ensures Exact(D, k, k + 1)
  {
    ScaledUnit(D, k);
    QuotientFrom(Scale10(D, k), Scale10(1, k), D, 0);
  }

  /** An integer cut short has no decimal of that many digits in its rounding interval. */
  lemma IntegerNoShorter(d: Double, D: nat, k: nat, ilim: nat, incl: bool)
    requires d.Finite() && IsInteger(d, D) && D < 0x20_0000_0000_0000 && LeadingExponent(d, k)
    requires ilim >= 1 && !Exact(D, k, ilim)
    ensures NoShorter(d, ilim + 1, incl)
  {
    var p := IntegerProblem(d, k, incl);
    IntegerSetUp(d, k, incl);
    ExactAtEnd(D, k);
    if ilim > k {
      ExactStays(D, k, k + 1, ilim);
    }
    forall j, M: nat | 1 <= j < ilim + 1
      ensures !Fits(p, M, j)
    {
      if Exact(D, k, j) {
        ExactStays(D, k, j, ilim);
      }
      IntegerNothingFits(d, D, k, incl, j, M);
    }
    LoopNoShorter(d, p, k, ilim + 1);
  }

  lemma ScaledDifference(x: int, y: int, n: nat)
    ensures Scale10(x - y, n) == Scale10(x, n) - Scale10(y, n)
  {
    Scale10Add(x - y, y, n);
  }

  lemma AtLeastOne(t: int, n: nat)
    requires Scale10(t, n) > 0
    ensures Scale10(1, n) <= Scale10(t, n)
  {
    if t < 1 {
      if t < 0 {
        Scale10Mono(t, n, 0);
      }
    } else if t > 1 {
      Scale10Mono(1, n, t);
    }
  }

  lemma LaterDigitsZero(D: nat, S: nat, ds: seq<nat>, N: nat, j: nat)
    requires S > 0 && 1 <= j < |ds| && After(D, S, ds, 0, |ds|) && Remainder(D, S, N, 0, j)
    ensures ds[|ds| - 1] == 0
  {
    var n := |ds|;
    Scale10Scale10(D, j - 1, n - j);
    TimesScale10(N, S, n - j);
    SignTimes(Scale10(N, n - j), DigVal(ds), S);
    assert DigVal(ds) == 10 * Scale10(N, n - j - 1);
  }

  lemma IntegerNothingFits(d: Double, D: nat, k: nat, incl: bool, j: nat, M: nat)
    requires d.Finite() && IsInteger(d, D) && D < 0x20_0000_0000_0000
    requires 1 <= j <= k + 1 && !Exact(D, k, j)
    ensures !Fits(IntegerProblem(d, k, incl), M, j)
  {
    var N, r := PartialRemainder(D, k, j);
    var p, R := IntegerProblem(d, k, incl), Lsh(r, TINY);
    LiftRemainder(D, Scale10(1, k), N, r, j);
    GapsInside(d, D, k, j, r);
    NoneFits(p, N, R, j, Scale10(p.mlo, j - 1), Scale10(p.mhi, j - 1), M);
  }

  /** The half-gaps of an integer are smaller than what is left and than what is missing. */
  lemma GapsInside(d: Double, D: nat, k: nat, j: nat, r: nat)
    requires d.Finite() && IsInteger(d, D) && D < 0x20_0000_0000_0000 && j >= 1
    requires Scale10(1, j - 1) <= r && Scale10(1, j - 1) <= Scale10(1, k) - r
    ensures 0 < Scale10(d.HalfDown(), j - 1) <= Scale10(d.HalfUp(), j - 1)
    ensures Scale10(d.HalfDown(), j - 1) < Lsh(r, TINY)
    ensures Scale10(d.HalfUp(), j - 1) < Lsh(Scale10(1, k), TINY) - Lsh(r, TINY)
  {
    GapBelowOne(d, D);
    HalfPositive(d);
    GapsScaled(d.HalfDown(), d.HalfUp(), j - 1, r, Scale10(1, k));
  }

  lemma GapsScaled(down: nat, up: nat, n: nat, r: nat, S: nat)
    requires 0 < down <= up < Lsh(1, TINY) && Scale10(1, n) <= r && Scale10(1, n) <= S - r
    ensures 0 < Scale10(down, n) <= Scale10(up, n) && Scale10(down, n) < Lsh(r, TINY)
    ensures Scale10(up, n) < Lsh(S, TINY) - Lsh(r, TINY)
  {
    GapScaled(down, n, r);
    GapScaled(up, n, S - r);
    LshAdd(S, r, TINY);
    if down < up {
      Scale10Mono(down, n, up);
    }
  }

  lemma LiftRemainder(D: nat, S: nat, N: nat, r: nat, j: nat)
    requires j >= 1 && Remainder(D, S, N, r, j)
    ensures Remainder(Lsh(D, TINY), Lsh(S, TINY), N, Lsh(r, TINY), j)
  {
    LiftSum(Scale10(D, j - 1), N, S, r, TINY);
    LshScale10(D, TINY, j - 1);
    LshMono(r, TINY, S);
  }

  lemma LiftSum(x: int, N: nat, S: nat, r: int, t: nat)
    requires x == Times(N, S) + r
    ensures Lsh(x, t) == Times(N, Lsh(S, t)) + Lsh(r, t)
  {
    LshAdd(Times(N, S), r, t);
    LshTimes(N, S, t);
  }

  lemma GapScaled(h: nat, n: nat, r: nat)
    requires 0 < h < Lsh(1, TINY) && Scale10(1, n) <= r
    ensures 0 < Scale10(h, n) < Lsh(r, TINY)
  {
    Scale10Mono(h, n, Lsh(1, TINY));
    LshScale10(1, TINY, n);
    LshExp(Scale10(1, n), TINY, r, TINY);
  }

  /** Printing an integer exactly, without trailing zeros, is printing it shortest. */
  lemma ExactIsShortest(d: Double, D: nat, k: nat, ds: seq<nat>, incl: bool)
    requires d.Finite() && IsInteger(d, D) && D < 0x20_0000_0000_0000 && LeadingExponent(d, k)
    requires Normal(ds) && |ds| <= k + 1 && After(D, Scale10(1, k), ds, 0, |ds|)
    ensures ShortestFor(d, k, ds, k + 1, incl)
  {
    var p, n, N := IntegerProblem(d, k, incl), |ds|, DigVal(ds);
    IntegerSetUp(d, k, incl);
    HalfPositive(d);
    LiftRemainder(D, Scale10(1, k), N, 0, n);
    forall j, M: nat | 1 <= j < n
      ensures !Fits(p, M, j)
    {
      NotExactBefore(D, k, ds, j);
      IntegerNothingFits(d, D, k, incl, j, M);
    }
    assert Times(N, p.S) == Scale10(p.b, n - 1);
    Scale10Mono(0, n - 1, p.mlo);
    Scale10Mono(0, n - 1, p.mhi);
    ExactTie(p, N, n);
    LoopIsShortest(d, p, k, ds, 0, k + 1);
  }
}
