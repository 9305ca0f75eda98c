/**
 * The modes of dtoa in the words of its comment, and the example that the comment gives: the double
 * below 10^23 prints as 1e23 in mode 0 and not in mode 1.
 */
module DtoaExamples {
  import opened Powers
  import opened DigitStrings
  import opened Decimals
  import opened Doubles
  import opened Scaling
  import opened DtoaBridge
  import opened Dtoa

  // ---------------------------------------------------------------- what the modes mean

  /** Mode 2: at most max(1, ndigits) digits, the number rounded to that many significant digits. */
  lemma ModeTwo(d: Double, ndigits: int, k: int, ds: seq<nat>, decpt: int)
    requires Promise(d, 2, ndigits, k, ds, decpt)
    ensures RoundedAt(d, ds, decpt, k + 1 - if ndigits > 1 then ndigits else 1)
  {}

  /** Mode 3: the number rounded to ndigits digits behind the decimal point, or before it. */
  lemma ModeThree(d: Double, ndigits: int, k: int, ds: seq<nat>, decpt: int)
    requires Promise(d, 3, ndigits, k, ds, decpt)
    ensures RoundedAt(d, ds, decpt, -ndigits)
  {}

  /** Modes 4 and 5: a string that is read back as d, or what modes 2 and 3 give. */
  lemma ModesFourAndFive(d: Double, mode: nat, ndigits: int, k: int, ds: seq<nat>, decpt: int)
    requires d.Finite() && 4 <= mode <= 5 && Promise(d, mode, ndigits, k, ds, decpt)
    ensures ReadsBack(Decimal(DigVal(ds), decpt - |ds|), d) || RoundedAt(d, ds, decpt, LastPlace(mode - 2, ndigits, k))
  {
    assert LastPlace(mode, ndigits, k) == LastPlace(mode - 2, ndigits, k);
    if ByShortest(d, mode, ndigits, k, ds, decpt) {
      ShortestReadsBack(d, k, ds, decpt);
    }
  }

  lemma ShortestReadsBack(d: Double, k: int, ds: seq<nat>, decpt: int)
    requires d.Finite() && ShortestFor(d, k, ds, decpt, d.Even())
    ensures ReadsBack(Decimal(DigVal(ds), decpt - |ds|), d)
  {
    IntervalIsReadsBack(Decimal(DigVal(ds), decpt - |ds|), d);
  }

  // ---------------------------------------------------------------- 1e23

  /** A double that is the integer X with half-gaps H on both sides. */
  ghost predicate Around(d: Double, X: nat, H: nat) {
    H < X && d.Units() == Lsh(X, TINY) && d.HalfUp() == Lsh(H, TINY) && d.HalfDown() == Lsh(H, TINY)
  }

  /** Whole decimals against it and its midpoints are compared as integers. */
  lemma AroundOrders(d: Double, X: nat, H: nat, M: nat, q: nat)
    requires Around(d, X, H)
    ensures Decimal(M, q).Order(d.Units()) == Sign(Scale10(M, q) - X)
    ensures Decimal(M, q).Order(d.Units() - d.HalfDown()) == Sign(Scale10(M, q) - (X - H))
    ensures Decimal(M, q).Order(d.Units() + d.HalfUp()) == Sign(Scale10(M, q) - (X + H))
  {
    MiddleOrder(d, X, H, M, q);
    LowOrder(d, X, H, M, q);
    HighOrder(d, X, H, M, q);
  }

  lemma MiddleOrder(d: Double, X: nat, H: nat, M: nat, q: nat)
    requires Around(d, X, H)
    ensures Decimal(M, q).Order(d.Units()) == Sign(Scale10(M, q) - X)
  {
    Compared(Decimal(M, q), d.Units(), Decimal(M, q).Num(), Scale10(M, q), X);
  }

  lemma LowOrder(d: Double, X: nat, H: nat, M: nat, q: nat)
    requires Around(d, X, H)
    ensures Decimal(M, q).Order(d.Units() - d.HalfDown()) == Sign(Scale10(M, q) - (X - H))
  {
    LshAdd(X, H, TINY);
    Compared(Decimal(M, q), d.Units() - d.HalfDown(), Decimal(M, q).Num(), Scale10(M, q), X - H);
  }

  lemma HighOrder(d: Double, X: nat, H: nat, M: nat, q: nat)
    requires Around(d, X, H)
    ensures Decimal(M, q).Order(d.Units() + d.HalfUp()) == Sign(Scale10(M, q) - (X + H))
  {
    LshAdd(X, H, TINY);
    Compared(Decimal(M, q), d.Units() + d.HalfUp(), Decimal(M, q).Num(), Scale10(M, q), X + H);
  }

  lemma Compared(x: Decimal, u: int, a: int, y: int, z: int)
    requires x.q >= 0 && a == x.Num() == Lsh(y, TINY) && u == Lsh(z, TINY)
    ensures x.Order(u) == Sign(y - z)
  {
    assert x.Order(u) == Sign(a - u);
    if y < z {
      LshMono(y, TINY, z);
    } else if z < y {
      LshMono(z, TINY, y);
    }
  }

  /** A double whose upper midpoint is the power of ten 10^(k+1), far from any other multiple of 10^k. */
  ghost predicate BelowPower(d: Double, X: nat, H: nat, k: nat) {
    && Around(d, X, H) && X + H == Scale10(1, k + 1) && 0 < 2 * H < Scale10(1, k)
  }

  lemma PowerOrders(d: Double, X: nat, H: nat, k: nat)
    requires BelowPower(d, X, H, k)
    ensures LeadingExponent(d, k)
    ensures InInterval(Decimal(1, k + 1), d, true) && !InInterval(Decimal(1, k + 1), d, false)
  {
    AroundOrders(d, X, H, 1, k);
    AroundOrders(d, X, H, 1, k + 1);
  }

  lemma OnlyPower(d: Double, X: nat, H: nat, k: nat, M: nat)
    requires BelowPower(d, X, H, k) && M != 10
    ensures !InInterval(Decimal(M, k), d, true)
  {
    AroundOrders(d, X, H, M, k);
    Scale10Scale10(1, 1, k);
    assert Scale10(1, 1) == 10;
    if M <= 9 {
      Scale10Add(9, 1, k);
      if M < 9 {
        Scale10Mono(M, k, 9);
      }
    } else {
      Scale10Add(10, 1, k);
      if M > 11 {
        Scale10Mono(11, k, M);
      }
    }
  }

  /** Mode 0 prints such a double as the power of ten when its mantissa is even, and mode 1 never does. */
  lemma PrintsPower(d: Double, X: nat, H: nat, k: nat, ndigits: int, ds: seq<nat>, decpt: int)
    requires d.Finite() && d.Mantissa() % 2 == 0 && BelowPower(d, X, H, k)
    ensures Promise(d, 0, ndigits, k, [1], k + 2)
    ensures Promise(d, 1, ndigits, k, ds, decpt) ==> ds != [1] || decpt != k + 2
  {
    EvenMantissa(d);
    PowerOrders(d, X, H, k);
    assert DigVal([1]) == 1;
    assert NearestEven(Decimal(10, k), d, true) by {
      forall M: nat | M != 10
        ensures !InInterval(Decimal(M, k), d, true)
      {
        OnlyPower(d, X, H, k, M);
      }
    }
    assert Scale10(1, 1) == 10;
    assert NoShorter(d, 1, true) by {
      forall M: nat, q: int | InInterval(Decimal(M, q), d, true)
        ensures M >= 1
      {
        if M == 0 {
          ZeroOutside(d, q, true);
        }
      }
    }
  }

  /** 10^23 lies exactly between two doubles; the lower one has the even mantissa. */
  lemma OneE23(d: Double, k: nat, ndigits: int, ds: seq<nat>, decpt: int)
    requires d == Double(1099, 0x5_2d02_c7e1_4af6) && k == 22
    ensures d.Finite() && LeadingExponent(d, k)
    ensures Promise(d, 0, ndigits, k, [1], k + 2)
    ensures Promise(d, 1, ndigits, k, ds, decpt) ==> ds != [1] || decpt != k + 2
  {
    var X, H := E23(d, k);
    PowerOrders(d, X, H, k);
    PrintsPower(d, X, H, k, ndigits, ds, decpt);
  }

  lemma E23(d: Double, k: nat) returns (X: nat, H: nat)
    requires d == Double(1099, 0x5_2d02_c7e1_4af6) && k == 22
    ensures d.Finite() && d.Mantissa() % 2 == 0 && BelowPower(d, X, H, k)
  {
    X, H := 99_999_999_999_999_991_611_392, 0x80_0000;
    assert Around(d, X, H) by {
      E23Around(d, X, H);
    }
    assert X + H == Scale10(1, k + 1) && 0 < 2 * H < Scale10(1, k) by {
      E23Power(k);
    }
  }

  lemma E23Around(d: Double, X: nat, H: nat)
    requires d == Double(1099, 0x5_2d02_c7e1_4af6) && X == 99_999_999_999_999_991_611_392 && H == 0x80_0000
    ensures Around(d, X, H)
  {
    var m := d.Mantissa();
    Shifted(m, 24, 0x100_0000, TINY);
    Shifted(1, 23, 0x80_0000, TINY);
  }

  lemma Shifted(m: nat, e: nat, p: nat, t: nat)
    requires (e == 24 && p == 0x100_0000) || (e == 23 && p == 0x80_0000)
    ensures Lsh(m, e + t) == Lsh(m * p, t)
  {
    Pow2Word();
    assert Pow2(24) == 2 * Pow2(23);
    LshIs(m, e);
    LshLsh(m, e, t);
  }

  lemma E23Power(k: nat)
    requires k == 22
    ensures Scale10(1, k) == 10_000_000_000_000_000_000_000 && Scale10(1, k + 1) == 100_000_000_000_000_000_000_000
  {
    var n := 11;
    Scale10Scale10(1, n, n);
    Scale10Is(1, n);
    Scale10Is(Scale10(1, n), n);
    EleventhPower();
    Scale10Scale10(1, k, 1);
  }

  lemma EleventhPower()
    ensures Pow10(11) == 100_000_000_000
  {}
}
