/**
 * From the integers of the digit loops to the double being printed: candidates that fit are the
 * decimals in its rounding interval, and rounded quotients are its nearest multiples of a power of ten.
 */
module DtoaBridge {
  import opened Powers
  import opened DigitStrings
  import opened Decimals
  import opened Doubles
  import opened DigitLoops
  import opened ShortestLoop
  import opened Scaling

  lemma UnitsAboveHalf(d: Double)
    requires d.Finite()
    ensures d.HalfDown() < d.Units() && d.Units() == 2 * d.Mantissa() * d.HalfUp()
  {
    HalfPositive(d);
    LshExp(1, d.Exponent(), d.Mantissa(), d.Exponent());
    LshIs(d.Mantissa(), d.Exponent());
    LshIs(1, d.Exponent() - 1);
    MulAssoc(2, d.Mantissa(), Pow2(d.Exponent() - 1));
  }

  /** The lower end of the loop's interval is the midpoint below the double, the upper end the one above. */
  lemma LowerEnd(d: Double, p: Problem, k: int, M: nat, j: nat)
    requires d.Finite() && SetUp(d, p, k, true) && j >= 1
    ensures Sign(Times(M, p.S) - (Scale10(p.b, j - 1) - Scale10(p.mlo, j - 1)))
            == Decimal(M, k - j + 1).Order(d.Units() - d.HalfDown())
  {
    UnitsAboveHalf(d);
    var lo, u := p.b - p.mlo, d.Units() - d.HalfDown();
    RatioDiff(p.b, p.mlo, p.S, d.Units(), d.HalfDown(), k);
    RatioOrder(M, p.S, lo, u, k, j);
    Scale10Add(lo, p.mlo, j - 1);
  }

  lemma UpperEnd(d: Double, p: Problem, k: int, M: nat, j: nat)
    requires d.Finite() && SetUp(d, p, k, true) && j >= 1
    ensures Sign(Times(M, p.S) - (Scale10(p.b, j - 1) + Scale10(p.mhi, j - 1)))
            == Decimal(M, k - j + 1).Order(d.Units() + d.HalfUp())
  {
    var hi, u := p.b + p.mhi, d.Units() + d.HalfUp();
    RatioSum(p.b, p.mhi, p.S, d.Units(), d.HalfUp(), k);
    RatioOrder(M, p.S, hi, u, k, j);
    Scale10Add(p.b, p.mhi, j - 1);
  }

  /** What fits at digit j is what lies in the rounding interval. */
  lemma FitsIsInterval(d: Double, p: Problem, k: int, M: nat, j: nat)
    requires d.Finite() && SetUp(d, p, k, true) && j >= 1
    ensures Fits(p, M, j) <==> InInterval(Decimal(M, k - j + 1), d, p.incl)
  {
    LowerEnd(d, p, k, M, j);
    UpperEnd(d, p, k, M, j);
  }

  /** N * 10^q is no farther from u units than M * 10^q: twice the number is on N's side of N + M. */
  ghost predicate NoFarther(N: nat, M: nat, q: int, u: nat) {
    || N == M
    || (N < M && Decimal(N + M, q).Order(2 * u) >= 0)
    || (N > M && Decimal(N + M, q).Order(2 * u) <= 0)
  }

  lemma NoFartherIsDistance(N: nat, M: nat, q: int, d: Double)
    ensures NoFarther(N, M, q, d.Units()) <==> Off(Decimal(N, q), d) <= Off(Decimal(M, q), d)
  {
    var u := d.Units();
    var a, b, v := Decimal(N, q).Num(), Decimal(M, q).Num(), Decimal(N, q).Grid(u);
    assert Decimal(N + M, q).Order(2 * u) == Sign(a + b - 2 * v) by {
      NumAdd(N, M, q);
      Scale10Add(u, u, Pos(-q));
    }
    if N < M {
      NumMono(N, M, q);
    } else if M < N {
      NumMono(M, N, q);
    }
    HalfwayDecides(a, b, v);
  }

  lemma NumAdd(N: nat, M: nat, q: int)
    ensures Decimal(N + M, q).Num() == Decimal(N, q).Num() + Decimal(M, q).Num()
  {
    Scale10Add(N, M, Pos(q));
    LshAdd(Scale10(N, Pos(q)), Scale10(M, Pos(q)), TINY);
  }

  lemma HalfwayDecides(a: int, b: int, v: int)
    ensures a < b ==> (Distance(a, v) <= Distance(b, v) <==> a + b >= 2 * v)
    ensures a > b ==> (Distance(a, v) <= Distance(b, v) <==> a + b <= 2 * v)
  {}

  lemma NumMono(N: nat, M: nat, q: int)
    requires N < M
    ensures Decimal(N, q).Num() < Decimal(M, q).Num()
  {
    Scale10Mono(N, Pos(q), M);
    LshMono(Scale10(N, Pos(q)), TINY, Scale10(M, Pos(q)));
  }

  /** The loop's closest candidate is the closest decimal of that many places. */
  lemma CloserInLoop(d: Double, p: Problem, k: int, N: nat, M: nat, n: nat)
    requires SetUp(d, p, k, true) && n >= 1
    ensures Away(p, N, n) <= Away(p, M, n) <==> NoFarther(N, M, k - n + 1, d.Units())
  {
    HalfwayOrder(p.b, p.S, d.Units(), k, N, M, n);
    if N != M {
      SignTimes(N, M, p.S);
      HalfwayDecides(Times(N, p.S), Times(M, p.S), Scale10(p.b, n - 1));
    }
  }

  lemma HalfwayOrder(b: nat, S: nat, u: nat, k: int, N: nat, M: nat, n: nat)
    requires S > 0 && Ratio(b, S, u, k) && n >= 1
    ensures Decimal(N + M, k - n + 1).Order(2 * u) == Sign(Times(N, S) + Times(M, S) - 2 * Scale10(b, n - 1))
  {
    HalfOrder(b, S, u, k, N + M, n);
    TimesSum(N, M, S);
  }

  /** M half steps against the number. */
  lemma HalfOrder(b: nat, S: nat, u: nat, k: int, M: nat, n: nat)
    requires S > 0 && Ratio(b, S, u, k) && n >= 1
    ensures Decimal(M, k - n + 1).Order(2 * u) == Sign(Times(M, S) - 2 * Scale10(b, n - 1))
  {
    var b2 := 2 * b;
    assert Ratio(b2, S, 2 * u, k) by {
      RatioSum(b, b, S, u, u, k);
    }
    Scale10Add(b, b, n - 1);
    RatioOrder(M, S, b2, 2 * u, k, n);
  }

  /** A decimal not above another one compares no higher with anything. */
  lemma OrderBelow(x: Decimal, y: Decimal, u: int)
    requires x.q <= y.q && x.m <= Scale10(y.m, y.q - x.q)
    ensures x.Order(u) <= y.Order(u)
  {
    Rescale(y, y.q - x.q, u);
    OrderMono(x, Decimal(Scale10(y.m, y.q - x.q), x.q), u);
  }

  lemma ZeroOutside(d: Double, q: int, incl: bool)
    requires d.Finite()
    ensures !InInterval(Decimal(0, q), d, incl)
  {
    UnitsAboveHalf(d);
    Scale10Mono(0, Pos(-q), d.Units() - d.HalfDown());
  }

  /** Writing a decimal with more zeros does not move it out of or into the interval. */
  lemma RescaleInterval(x: Decimal, n: nat, d: Double, incl: bool)
    ensures InInterval(Decimal(Scale10(x.m, n), x.q - n), d, incl) <==> InInterval(x, d, incl)
  {
    Rescale(x, n, d.Units() - d.HalfDown());
    Rescale(x, n, d.Units() + d.HalfUp());
  }

  /** If a decimal below the leading power of ten is in the interval, so is that power. */
  lemma LeadingPowerInside(d: Double, k: int, x: Decimal, incl: bool)
    requires LeadingExponent(d, k) && x.q <= k && x.m <= Scale10(1, k - x.q)
    ensures InInterval(x, d, incl) ==> InInterval(Decimal(1, k), d, incl)
  {
    assert d.Units() < d.Units() + d.HalfUp() by {
      HalfPositive(d);
    }
    PowerInside(x, k, d.Units(), d.Units() - d.HalfDown(), d.Units() + d.HalfUp());
    IntervalWider(x, Decimal(1, k), d, incl);
  }

  lemma IntervalWider(x: Decimal, y: Decimal, d: Double, incl: bool)
    requires x.Order(d.Units() - d.HalfDown()) <= y.Order(d.Units() - d.HalfDown()) && y.Order(d.Units() + d.HalfUp()) < 0
    ensures InInterval(x, d, incl) ==> InInterval(y, d, incl)
  {}

  lemma PowerInside(x: Decimal, k: int, v: int, lo: int, hi: int)
    requires x.q <= k && x.m <= Scale10(1, k - x.q) && v < hi && Decimal(1, k).Order(v) <= 0
    ensures x.Order(lo) <= Decimal(1, k).Order(lo) && Decimal(1, k).Order(hi) < 0
  {
    OrderBelow(x, Decimal(1, k), lo);
    OrderUnits(Decimal(1, k), v, hi);
  }

  lemma {:induction false} Scale10Longer(m: nat, n: nat)
    requires m <= n
    ensures Scale10(1, m) <= Scale10(1, n)
  {
    Scale10Scale10(1, m, n - m);
    Scale10Grows(Scale10(1, m), n - m);
  }

  /** If nothing with fewer than n digits fits the loop, no decimal with fewer digits is in the interval. */
  lemma ShorterOutside(d: Double, p: Problem, k: int, n: nat, M: nat, q: int)
    requires d.Finite() && SetUp(d, p, k, true) && LeadingExponent(d, k)
    requires n >= 1 && NothingFitsBelow(p, n) && M < Scale10(1, n - 1)
    ensures !InInterval(Decimal(M, q), d, p.incl)
  {
    if n == 1 {
      ZeroOutside(d, q, p.incl);
    } else if q >= k - n + 2 {
      CoarseOutside(d, p, k, n, M, q);
    } else {
      FineOutside(d, p, k, n, M, q);
    }
  }

  lemma CoarseOutside(d: Double, p: Problem, k: int, n: nat, M: nat, q: int)
    requires d.Finite() && SetUp(d, p, k, true) && n >= 2 && NothingFitsBelow(p, n) && q >= k - n + 2
    ensures !InInterval(Decimal(M, q), d, p.incl)
  {
    var s := q - (k - n + 2);
    var M' := Scale10(M, s);
    assert !Fits(p, M', n - 1);
    assert !InInterval(Decimal(M', q - s), d, p.incl) by {
      FitsIsInterval(d, p, k, M', n - 1);
    }
    RescaleInterval(Decimal(M, q), s, d, p.incl);
  }

  lemma FineOutside(d: Double, p: Problem, k: int, n: nat, M: nat, q: int)
    requires d.Finite() && SetUp(d, p, k, true) && LeadingExponent(d, k)
    requires n >= 2 && NothingFitsBelow(p, n) && M < Scale10(1, n - 1) && q < k - n + 2
    ensures !InInterval(Decimal(M, q), d, p.incl)
  {
    assert !Fits(p, 1, 1);
    assert !InInterval(Decimal(1, k), d, p.incl) by {
      FitsIsInterval(d, p, k, 1, 1);
    }
    Scale10Longer(n - 1, k - q);
    LeadingPowerInside(d, k, Decimal(M, q), p.incl);
  }

  /** No decimal in the interval has fewer than n digits. */
  ghost predicate NoShorter(d: Double, n: nat, incl: bool) {
    n >= 1 && forall M: nat, q: int :: InInterval(Decimal(M, q), d, incl) ==> M >= Scale10(1, n - 1)
  }

  /** No other decimal in the interval with digits down to the same place is nearer, or as near unless this one is even. */
  ghost predicate NearestEven(x: Decimal, d: Double, incl: bool) {
    forall M: nat :: M != x.m && InInterval(Decimal(M, x.q), d, incl) ==>
      Off(x, d) < Off(Decimal(M, x.q), d) || (Off(x, d) == Off(Decimal(M, x.q), d) && x.m % 2 == 0)
  }

  /**
   * What modes 0 and 1 promise of the digits ds with decimal point position decpt, k being the
   * leading exponent: in the interval, none shorter, and nearest at the place that |ds| digits
   * reach; only the string "1" may stand for the next power of ten.
   */
  ghost predicate ShortestFor(d: Double, k: int, ds: seq<nat>, decpt: int, incl: bool) {
    && Normal(ds) && InInterval(Decimal(DigVal(ds), decpt - |ds|), d, incl) && NoShorter(d, |ds|, incl)
    && (decpt == k + 1 || (decpt == k + 2 && ds == [1]))
    && NearestEven(Decimal(Scale10(DigVal(ds), decpt - k - 1), k + 1 - |ds|), d, incl)
  }

  lemma LoopNoShorter(d: Double, p: Problem, k: int, n: nat)
    requires d.Finite() && SetUp(d, p, k, true) && LeadingExponent(d, k)
    requires n >= 1 && NothingFitsBelow(p, n)
    ensures NoShorter(d, n, p.incl)
  {
    forall M: nat, q: int | InInterval(Decimal(M, q), d, p.incl)
      ensures M >= Scale10(1, n - 1)
    {
      if M < Scale10(1, n - 1) {
        ShorterOutside(d, p, k, n, M, q);
      }
    }
  }

  lemma LoopNearest(d: Double, p: Problem, k: int, N: nat, n: nat)
    requires d.Finite() && SetUp(d, p, k, true) && n >= 1 && Closest(p, N, n) && TieEven(p, N, n)
    ensures NearestEven(Decimal(N, k + 1 - n), d, p.incl)
  {
    var q := k + 1 - n;
    forall M: nat | M != N && InInterval(Decimal(M, q), d, p.incl)
      ensures Off(Decimal(N, q), d) < Off(Decimal(M, q), d) || (Off(Decimal(N, q), d) == Off(Decimal(M, q), d) && N % 2 == 0)
    {
      FitsIsInterval(d, p, k, M, n);
      AwayIsOff(d, p, k, N, M, n);
      AwayIsOff(d, p, k, M, N, n);
    }
  }

  /** Distances in the loop compare as distances from the double. */
  lemma AwayIsOff(d: Double, p: Problem, k: int, N: nat, M: nat, n: nat)
    requires SetUp(d, p, k, true) && n >= 1
    ensures Away(p, N, n) <= Away(p, M, n) <==> Off(Decimal(N, k + 1 - n), d) <= Off(Decimal(M, k + 1 - n), d)
  {
    assert Away(p, N, n) <= Away(p, M, n) <==> NoFarther(N, M, k + 1 - n, d.Units()) by {
      CloserInLoop(d, p, k, N, M, n);
    }
    NoFartherIsDistance(N, M, k + 1 - n, d);
  }

  lemma StopInside(d: Double, p: Problem, k: int, N: nat, carry: nat, n: nat, q: int)
    requires d.Finite() && SetUp(d, p, k, true) && n >= 1 && q == k + 1 + carry - n && Fits(p, Scale10(N, carry), n)
    ensures InInterval(Decimal(N, q), d, p.incl)
  {
    FitsIsInterval(d, p, k, Scale10(N, carry), n);
    RescaleInterval(Decimal(N, q), carry, d, p.incl);
  }

  /** A stop of the loop is the shortest, nearest decimal of the double. */
  lemma LoopIsShortest(d: Double, p: Problem, k: int, ds: seq<nat>, carry: nat, decpt: int)
    requires decpt == k + 1 + carry && d.Finite() && SetUp(d, p, k, true) && LeadingExponent(d, k)
    requires Normal(ds) && carry <= 1 && (carry == 1 ==> ds == [1])
    requires Fits(p, Scale10(DigVal(ds), carry), |ds|) && NothingFitsBelow(p, |ds|)
    requires Closest(p, Scale10(DigVal(ds), carry), |ds|) && TieEven(p, Scale10(DigVal(ds), carry), |ds|)
    ensures ShortestFor(d, k, ds, decpt, p.incl)
  {
    var n, N := |ds|, DigVal(ds);
    StopInside(d, p, k, N, carry, n, decpt - n);
    assert NoShorter(d, n, p.incl) by {
      LoopNoShorter(d, p, k, n);
    }
    assert NearestEven(Decimal(Scale10(N, decpt - k - 1), k + 1 - n), d, p.incl) by {
      LoopNearest(d, p, k, Scale10(N, carry), n);
    }
  }

  // ---------------------------------------------------------------- no tie of both ends

  /** A multiple stands for the multiple. */
  lemma {:induction false} RatioTimes(c: nat, x: nat, S: nat, u: nat, k: int)
    requires Ratio(x, S, u, k)
    ensures Ratio(Times(c, x), S, Times(c, u), k)
  {
    if c > 0 {
      RatioTimes(c - 1, x, S, u, k);
      RatioSum(x, Times(c - 1, x), S, u, Times(c - 1, u), k);
    }
  }

  /** The number is as many upper gaps as its mantissa says. */
  lemma MantissaGaps(d: Double, p: Problem, k: int)
    requires d.Finite() && SetUp(d, p, k, true)
    ensures p.b == Times(2 * d.Mantissa(), p.mhi)
  {
    var c := 2 * d.Mantissa();
    RatioTimes(c, p.mhi, p.S, d.HalfUp(), k);
    UnitsAboveHalf(d);
    TimesIs(c, d.HalfUp());
    RatioMono(p.b, Times(c, p.mhi), p.S, d.Units(), Times(c, d.HalfUp()), k);
  }

  /** If a gap is one unit of a place, the number is a multiple of it. */
  lemma EndTieExact(d: Double, p: Problem, k: int, n: nat)
    requires d.Finite() && SetUp(d, p, k, true) && n >= 1 && EndTie(p, n)
    ensures Times(d.Mantissa(), p.S) == Scale10(p.b, n - 1)
  {
    var m, g := d.Mantissa(), Scale10(p.mhi, n - 1);
    MantissaGaps(d, p, k);
    Scale10Times(p.mhi, 2 * m, n - 1);
    DoubleTimes(m, g);
  }

  /** So a tie of both ends does not occur, and ties are always broken to even. */
  lemma NoEndTie(d: Double, p: Problem, k: int, N: nat, n: nat)
    requires d.Finite() && SetUp(d, p, k, true) && n >= 1 && Closest(p, N, n) && (!EndTie(p, n) ==> TieEven(p, N, n))
    ensures TieEven(p, N, n)
  {
    if EndTie(p, n) {
      EndTieExact(d, p, k, n);
      var m := d.Mantissa();
      Scale10Mono(0, n - 1, p.mlo);
      Scale10Mono(0, n - 1, p.mhi);
      assert Fits(p, m, n) && Away(p, m, n) == 0;
      ExactTie(p, N, n);
    }
  }

  /** Nothing else is as near as the number itself. */
  lemma ExactTie(p: Problem, N: nat, n: nat)
    requires p.S > 0 && n >= 1 && Away(p, N, n) == 0
    ensures TieEven(p, N, n)
  {
    forall M: nat | M != N && Away(p, M, n) == 0
      ensures false
    {
      SignTimes(M, N, p.S);
    }
  }

  lemma {:induction false} DoubleTimes(m: nat, g: int)
    ensures Times(2 * m, g) == Times(m, 2 * g)
  {
    if m > 0 {
      DoubleTimes(m - 1, g);
      TimesSum(2, 2 * (m - 1), g);
      assert Times(2, g) == g + Times(1, g);
    }
  }

  // ---------------------------------------------------------------- rounding at a place

  /** A comparison that must not fail, and may be a tie only for an even N. */
  predicate NotBelowHalf(order: int, N: nat) {
    order > 0 || (order == 0 && N % 2 == 0)
  }

  /** N * 10^q is u units rounded to a multiple of 10^q, ties to even: half a step either way does not pass the number. */
  ghost predicate NearestMultiple(N: nat, q: int, u: nat) {
    && NotBelowHalf(Decimal(2 * N + 1, q).Order(2 * u), N)
    && (N > 0 ==> NotBelowHalf(-Decimal(2 * N - 1, q).Order(2 * u), N))
  }

  lemma RoundedBounds(num: nat, S: nat, N: nat)
    requires S > 0 && N == Rounded(Nearest, num, S)
    ensures NotBelowHalf(Sign(Times(2 * N + 1, S) - 2 * num), N)
    ensures N > 0 ==> NotBelowHalf(-Sign(Times(2 * N - 1, S) - 2 * num), N)
  {
    var q, r := Quotient(num, S);
    HalfBounds(q, r, S, N);
  }

  lemma Quotient(num: nat, S: nat) returns (q: nat, r: nat)
    requires S > 0
    ensures num == Times(q, S) + r && r < S
    ensures Rounded(Nearest, num, S) == if 2 * r > S || (2 * r == S && q % 2 == 1) then q + 1 else q
  {
    q, r := num / S, num % S;
    DivModIs(num, S);
    TimesIs(q, S);
  }

  lemma HalfBounds(q: nat, r: nat, S: nat, N: nat)
    requires r < S && N == if 2 * r > S || (2 * r == S && q % 2 == 1) then q + 1 else q
    ensures NotBelowHalf(Sign(Times(2 * N + 1, S) - 2 * (Times(q, S) + r)), N)
    ensures N > 0 ==> NotBelowHalf(-Sign(Times(2 * N - 1, S) - 2 * (Times(q, S) + r)), N)
  {
    if N == q {
      OddTimes(q, S);
    } else {
      OddTimes(q + 1, S);
      TimesSum(q, 1, S);
    }
  }

  lemma OddTimes(N: nat, S: nat)
    ensures Times(2 * N + 1, S) == 2 * Times(N, S) + S
    ensures N > 0 ==> Times(2 * N - 1, S) == 2 * Times(N, S) - S
  {
    TimesSum(N, N, S);
    TimesSum(2 * N, 1, S);
    if N > 0 {
      TimesSum(2 * N - 1, 1, S);
    }
  }

  /** The loops' rounded quotient is the nearest multiple of the last place. */
  lemma RoundedIsNearest(u: nat, b: nat, S: nat, k: int, i: nat, N: nat)
    requires S > 0 && Ratio(b, S, u, k) && i >= 1
    requires N == Rounded(Nearest, Scale10(b, i - 1), S)
    ensures NearestMultiple(N, k - i + 1, u)
  {
    var num, q := Scale10(b, i - 1), k - i + 1;
    RoundedBounds(num, S, N);
    assert Decimal(2 * N + 1, q).Order(2 * u) == Sign(Times(2 * N + 1, S) - 2 * num) by {
      HalfOrder(b, S, u, k, 2 * N + 1, i);
    }
    if N > 0 {
      assert Decimal(2 * N - 1, q).Order(2 * u) == Sign(Times(2 * N - 1, S) - 2 * num) by {
        HalfOrder(b, S, u, k, 2 * N - 1, i);
      }
    }
  }

  /** The digits, read at place q or as a plain zero, are the double rounded at place q. */
  ghost predicate RoundedAt(d: Double, ds: seq<nat>, decpt: int, q: int) {
    || (ds != [0] && decpt - |ds| >= q && NearestMultiple(Scale10(DigVal(ds), decpt - |ds| - q), q, d.Units()))
    || (ds == [0] && decpt == 1 && NearestMultiple(0, q, d.Units()))
  }

  // ---------------------------------------------------------------- no tie at a first nine

  lemma {:induction false} PowerOfTwoMod5(n: nat)
    ensures Lsh(1, n) % 5 != 0
  {
    if n > 0 {
      PowerOfTwoMod5(n - 1);
    }
  }

  /** An odd number of units is never a power of ten. */
  lemma OddNotTen(m: nat, k: int)
    ensures Decimal(1, k).Order(2 * m + 1) != 0
  {
    OddNotScaled(m, Pos(k), Pos(-k), TINY);
  }

  lemma OddNotScaled(m: nat, p: nat, r: nat, t: nat)
    requires t > 0 && (p == 0 || r == 0)
    ensures Lsh(Scale10(1, p), t) != Scale10(2 * m + 1, r)
  {
    if r > 0 {
      PowerOfTwoMod5(t);
    }
  }

  /** Twenty upper half-gaps exceed the number only for a denormal of fewer than ten last places. */
  lemma TinyDouble(d: Double, p: Problem, k: int)
    requires d.Finite() && SetUp(d, p, k, true) && p.b < 20 * p.mhi
    ensures d.HalfUp() == 1 && d.Units() == 2 * d.Mantissa()
  {
    var u, h := d.Units(), d.HalfUp();
    var x, w := TwentyTimes(p.mhi, p.S, h, k);
    RatioMono(p.b, x, p.S, u, w, k);
    UnitsAboveHalf(d);
    HalfPositive(d);
    SmallMantissa(d.Mantissa(), h, u);
  }

  /** No double meets the one situation in which the shortest loop passes over a nearer candidate. */
  lemma NoNineTie(d: Double, p: Problem, k: int)
    requires d.Finite() && SetUp(d, p, k, true)
    ensures !NineTie(p)
  {
    if NineTie(p) {
      TinyDouble(d, p, k);
      var u := d.Units() + 1;
      RatioSum(p.b, p.mhi, p.S, d.Units(), 1, k);
      TimesIs(10, p.S);
      RatioOrder(10, p.S, p.b + p.mhi, u, k, 1);
      Rescale(Decimal(1, k + 1), 1, u);
      OddNotTen(d.Mantissa(), k + 1);
    }
  }

  lemma TwentyTimes(x: nat, S: nat, u: nat, k: int) returns (x': nat, u': nat)
    requires Ratio(x, S, u, k)
    ensures x' == 20 * x && u' == 20 * u && Ratio(x', S, u', k)
  {
    RatioSum(x, x, S, u, u, k);
    RatioSum(2 * x, 2 * x, S, 2 * u, 2 * u, k);
    RatioSum(4 * x, x, S, 4 * u, u, k);
    RatioSum(5 * x, 5 * x, S, 5 * u, 5 * u, k);
    RatioSum(10 * x, 10 * x, S, 10 * u, 10 * u, k);
    x', u' := 20 * x, 20 * u;
  }

  lemma SmallMantissa(m: nat, h: nat, u: nat)
    requires h > 0 && u == 2 * m * h && u < 20 * h
    ensures m < 10
  {
    if m >= 10 {
      MulLe(h, 20, 2 * m);
    }
  }
}
