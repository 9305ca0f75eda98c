/**
 * The promises of dtoa leave nothing open: in every mode the digits and the position of the decimal
 * point are determined by the double, the mode and ndigits.
 */
module DtoaUnique {
  import opened Powers
  import opened DigitStrings
  import opened Decimals
  import opened Doubles
  import opened Scaling
  import opened DtoaBridge
  import opened Dtoa

  // ---------------------------------------------------------------- the nearest decimal

  /** Two decimals equally far from a double on either side have it in the middle. */
  lemma Middle(N: nat, M: nat, q: int, d: Double, H: nat)
    requires N != M && N + M == 2 * H && Off(Decimal(N, q), d) == Off(Decimal(M, q), d)
    ensures Decimal(H, q).Order(d.Units()) == 0 && Off(Decimal(H, q), d) == 0 && Off(Decimal(N, q), d) > 0
  {
    NumAdd(N, M, q);
    NumAdd(H, H, q);
    if N < M {
      NumMono(N, M, q);
    } else {
      NumMono(M, N, q);
    }
  }

  lemma ExactInside(x: Decimal, d: Double, incl: bool)
    requires x.Order(d.Units()) == 0
    ensures InInterval(x, d, incl)
  {
    HalfPositive(d);
    OrderUnits(x, d.Units() - d.HalfDown(), d.Units());
    OrderUnits(x, d.Units(), d.Units() + d.HalfUp());
  }

  /** Nearest, and even in a tie: there is only one such decimal. */
  lemma NearestEvenUnique(N: nat, M: nat, q: int, d: Double, incl: bool)
    requires NearestEven(Decimal(N, q), d, incl) && NearestEven(Decimal(M, q), d, incl)
    requires InInterval(Decimal(N, q), d, incl) && InInterval(Decimal(M, q), d, incl)
    ensures N == M
  {
    if N != M {
      assert Off(Decimal(N, q), d) == Off(Decimal(M, q), d) && N % 2 == 0 && M % 2 == 0;
      var H := N / 2 + M / 2;
      assert Off(Decimal(H, q), d) == 0 < Off(Decimal(N, q), d) && InInterval(Decimal(H, q), d, incl) by {
        Middle(N, M, q, d, H);
        ExactInside(Decimal(H, q), d, incl);
      }
    }
  }

  // ---------------------------------------------------------------- the shortest string

  lemma NotShorterThan(d: Double, k: int, ds: seq<nat>, decpt: int, n: nat, incl: bool)
    requires ShortestFor(d, k, ds, decpt, incl) && NoShorter(d, n, incl)
    ensures n <= |ds|
  {
    DigValBound(ds);
    if |ds| < n {
      Scale10Longer(|ds|, n - 1);
    }
  }

  /** The shortest string, read at the place that |ds| digits reach. */
  lemma AtPlace(d: Double, k: int, ds: seq<nat>, decpt: int, incl: bool, q: int) returns (N: nat)
    requires ShortestFor(d, k, ds, decpt, incl) && q == k + 1 - |ds|
    ensures decpt >= k + 1 && N == Scale10(DigVal(ds), decpt - k - 1)
    ensures InInterval(Decimal(N, q), d, incl) && NearestEven(Decimal(N, q), d, incl)
  {
    N := Scale10(DigVal(ds), decpt - k - 1);
    RescaleInterval(Decimal(DigVal(ds), decpt - |ds|), decpt - k - 1, d, incl);
  }

  lemma ShortestUnique(d: Double, k: int, ds: seq<nat>, decpt: int, ds': seq<nat>, decpt': int, incl: bool)
    requires ShortestFor(d, k, ds, decpt, incl) && ShortestFor(d, k, ds', decpt', incl)
    ensures ds == ds' && decpt == decpt'
  {
    assert |ds| == |ds'| by {
      NotShorterThan(d, k, ds, decpt, |ds'|, incl);
      NotShorterThan(d, k, ds', decpt', |ds|, incl);
    }
    assert Normal(ds) && Normal(ds') && decpt >= k + 1 && decpt' >= k + 1;
    assert Scale10(DigVal(ds), decpt - k - 1) == Scale10(DigVal(ds'), decpt' - k - 1) by {
      var q := k + 1 - |ds|;
      var N := AtPlace(d, k, ds, decpt, incl, q);
      var M := AtPlace(d, k, ds', decpt', incl, q);
      NearestEvenUnique(N, M, q, d, incl);
    }
    NormalUnique(ds, ds', decpt - k - 1, decpt' - k - 1);
  }

  // ---------------------------------------------------------------- the rounded string

  /** Strings of one length that stand for the same number are the same. */
  lemma SameLength(a: seq<nat>, b: seq<nat>, m: nat, n: nat)
    requires AllDigits(a) && AllDigits(b) && |a| == |b| > 0 && a[0] != 0 && b[0] != 0
    requires Scale10(DigVal(a), m) == Scale10(DigVal(b), n)
    ensures a == b && m == n
  {
    if m > n {
      TooLong(a, b, m, n);
    } else if n > m {
      TooLong(b, a, n, m);
    } else {
      SignScale10(DigVal(a), DigVal(b), m);
      SameValue(a, b);
    }
  }

  lemma TooLong(a: seq<nat>, b: seq<nat>, m: nat, n: nat)
    requires AllDigits(a) && AllDigits(b) && |a| == |b| > 0 && a[0] != 0 && m > n
    ensures Scale10(DigVal(a), m) != Scale10(DigVal(b), n)
  {
    DigValBound(a);
    DigValBound(b);
    Scale10Scale10(DigVal(a), m - n, n);
    Scale10Grows(10 * DigVal(a), m - n - 1);
    Scale10Scale10(DigVal(a), 1, m - n - 1);
    SignScale10(Scale10(DigVal(a), m - n), DigVal(b), n);
  }

  /** The number that a rounded string stands for at the place q. */
  ghost function Rounding(ds: seq<nat>, decpt: int, q: int): nat {
    if ds == [0] || decpt - |ds| < q then 0 else Scale10(DigVal(ds), decpt - |ds| - q)
  }

  lemma SameRounding(d: Double, ds: seq<nat>, decpt: int, ds': seq<nat>, decpt': int, q: int)
    requires RoundedAt(d, ds, decpt, q) && RoundedAt(d, ds', decpt', q)
    ensures Rounding(ds, decpt, q) == Rounding(ds', decpt', q)
  {
    NearestUnique(Rounding(ds, decpt, q), Rounding(ds', decpt', q), q, d.Units());
  }

  lemma RoundedUnique(d: Double, ds: seq<nat>, decpt: int, ds': seq<nat>, decpt': int, q: int)
    requires RoundedAt(d, ds, decpt, q) && RoundedAt(d, ds', decpt', q) && DigitString(ds) && DigitString(ds')
    requires (Clean(ds) && Clean(ds')) || (|ds| == |ds'| && ds != [0] && ds' != [0])
    ensures ds == ds' && decpt == decpt'
  {
    SameRounding(d, ds, decpt, ds', decpt', q);
    if ds != [0] && ds' != [0] {
      var m, n := decpt - |ds| - q, decpt' - |ds'| - q;
      if Clean(ds) && Clean(ds') {
        NormalUnique(ds, ds', m, n);
      } else {
        SameLength(ds, ds', m, n);
      }
    } else if ds != [0] {
      Positive(ds);
    } else if ds' != [0] {
      Positive(ds');
    }
  }

  // ---------------------------------------------------------------- the whole promise

  /** In modes 4 and 5 a shortest string in time and rounding for want of one exclude each other. */
  lemma NotBoth(d: Double, k: int, ds: seq<nat>, decpt: int, q: int, n: int)
    requires ShortestFor(d, k, ds, decpt, d.Even()) && decpt - |ds| >= q && n == k + 1 - q && n >= 1
    ensures !NoneInTime(d, n)
  {
    if NoneInTime(d, n) {
      NotShorterThan(d, k, ds, decpt, n + 1, d.Even());
    }
  }

  /** The output of dtoa is determined. */
  lemma Determined(d: Double, mode: nat, ndigits: int, k: int, ds: seq<nat>, decpt: int, ds': seq<nat>, decpt': int)
    requires mode <= 5 && Promise(d, mode, ndigits, k, ds, decpt) && Promise(d, mode, ndigits, k, ds', decpt')
    ensures ds == ds' && decpt == decpt'
  {
    var q, n := LastPlace(mode, ndigits, k), Wanted(mode, ndigits, k);
    if mode <= 1 {
      ShortestUnique(d, k, ds, decpt, ds', decpt', Inclusive(d, mode));
    } else if mode >= 4 && ByShortest(d, mode, ndigits, k, ds, decpt) {
      NotBoth(d, k, ds, decpt, q, n);
      ShortestUnique(d, k, ds, decpt, ds', decpt', d.Even());
    } else {
      if mode >= 4 && ByShortest(d, mode, ndigits, k, ds', decpt') {
        NotBoth(d, k, ds', decpt', q, n);
      }
      RoundedUnique(d, ds, decpt, ds', decpt', q);
    }
  }
}
