/**
 * dtoa.c as a whole, without the floating-point quick path: mode selection, the small-integer
 * path, the scaling set-up and the digit loops, with what each mode promises of the double.
 */
module Dtoa {
  import opened Powers
  import opened DigitStrings
  import opened Decimals
  import opened Doubles
  import opened Bignums
  import opened DigitLoops
  import opened ShortestLoop
  import opened Scaling
  import opened DtoaBridge
  import opened SmallIntegers

  /** The mode that is carried out. */
  function EffectiveMode(mode: int): nat {
    if mode < 0 || mode > 9 then 0 else if mode > 5 then mode - 4 else mode
  }

  /** Whether a decimal halfway between two doubles counts as one of them. */
  predicate Inclusive(d: Double, mode: nat) {
    mode != 1 && d.Even()
  }

  /** The place of the last digit asked for: counted from the leading digit, or from the decimal point. */
  function LastPlace(mode: nat, ndigits: int, k: int): int {
    if mode == 2 || mode == 4 then k + 1 - (if ndigits <= 0 then 1 else ndigits) else -ndigits
  }

  /** How many digits that is. */
  function Wanted(mode: nat, ndigits: int, k: int): int {
    k + 1 - LastPlace(mode, ndigits, k)
  }

  ghost predicate DigitString(ds: seq<nat>) {
    |ds| > 0 && AllDigits(ds) && (ds[0] != 0 || ds == [0])
  }

  /** No trailing zero, but for the string "0". */
  ghost predicate Clean(ds: seq<nat>) {
    Normal(ds) || ds == [0]
  }

  /** What dtoa promises of the value in each mode, k being the exponent of the leading digit. */
  ghost predicate Kept(d: Double, mode: nat, ndigits: int, k: int, ds: seq<nat>, decpt: int) {
    match mode
    case 0 => ShortestFor(d, k, ds, decpt, d.Even())
    case 1 => ShortestFor(d, k, ds, decpt, false)
    case 2 => DigitString(ds) && RoundedAt(d, ds, decpt, LastPlace(mode, ndigits, k))
    case 3 => DigitString(ds) && RoundedAt(d, ds, decpt, LastPlace(mode, ndigits, k))
    case _ =>
      // the shortest digits if they end in time; the correctly rounded ones if nothing that ends in time is read back as d
      || ByShortest(d, mode, ndigits, k, ds, decpt)
      || (DigitString(ds) && RoundedAt(d, ds, decpt, LastPlace(mode, ndigits, k)) && NoneInTime(d, Wanted(mode, ndigits, k)))
  }

  /** The shortest string ends in time. */
  ghost predicate ByShortest(d: Double, mode: nat, ndigits: int, k: int, ds: seq<nat>, decpt: int) {
    ShortestFor(d, k, ds, decpt, d.Even()) && decpt - |ds| >= LastPlace(mode, ndigits, k) && Wanted(mode, ndigits, k) >= 1
  }

  /** No decimal of up to n digits lies in the rounding interval; without digits nothing is tried. */
  ghost predicate NoneInTime(d: Double, n: int) {
    n >= 1 ==> NoShorter(d, n + 1, d.Even())
  }

  /** The calls whose result ends in zeros: an integer below 10^15 cut off where LeavesZeros says. */
  ghost predicate ZerosLeft(d: Double, mode: nat, ndigits: int, k: int) {
    && mode >= 2 && 0 <= k <= 14 && Wanted(mode, ndigits, k) >= 1
    && exists D: nat :: IsInteger(d, D) && LeavesZeros(D, k, Wanted(mode, ndigits, k))
  }

  /** The whole promise: the value, and trailing zeros suppressed except in the calls ZerosLeft, which give all the digits wanted. */
  ghost predicate Promise(d: Double, mode: nat, ndigits: int, k: int, ds: seq<nat>, decpt: int) {
    && Kept(d, mode, ndigits, k, ds, decpt)
    && (Clean(ds) <==> !ZerosLeft(d, mode, ndigits, k))
    && (ZerosLeft(d, mode, ndigits, k) ==> |ds| == Wanted(mode, ndigits, k))
  }

  /** The digit count a mode asks for and the count to use if the estimated exponent was one too big. */
  method Limits(mode: nat, ndigits: int, k: int) returns (ilim: int, ilim1: int, leftright: bool)
    requires mode <= 5
    ensures leftright == (mode != 2 && mode != 3)
    ensures mode <= 1 ==> ilim == ilim1 == -1
    ensures mode > 1 ==> ilim == k + 1 - LastPlace(mode, ndigits, k)
    ensures mode > 1 ==> ilim1 == k - LastPlace(mode, ndigits, k - 1)
    ensures mode == 2 || mode == 4 ==> ilim >= 1
  {
    leftright := true;
    var n := ndigits;
    match mode {
      case 0 =>
        ilim, ilim1 := -1, -1;
      case 1 =>
        ilim, ilim1 := -1, -1;
      case 2 =>
        leftright := false;
        if n <= 0 { n := 1; }
        ilim, ilim1 := n, n;
      case 4 =>
        if n <= 0 { n := 1; }
        ilim, ilim1 := n, n;
      case 3 =>
        leftright := false;
        var i := n + k + 1;
        ilim, ilim1 := i, i - 1;
      case 5 =>
        var i := n + k + 1;
        ilim, ilim1 := i, i - 1;
    }
  }

  /** Below the first place asked for: nothing, or a one in that place. */
  method FewDigits(d: Double, ilim: int, more: bool, k: int, ghost b: nat, ghost S: nat) returns (ds: seq<nat>, decpt: int)
    requires ilim <= 0 && S > 0 && Ratio(b, S, d.Units(), k) && S <= b < 10 * S
    requires ilim == 0 ==> (more <==> b > 5 * S)
    ensures RoundedAt(d, ds, decpt, k + 1 - ilim) && (ds == [0] || ds == [1])
  {
    FewDigitsAre(d, ilim, more, k, b, S);
    if ilim < 0 || !more {
      // an empty string is returned as "0"
      return [0], 1;
    }
    return [1], k + 2;
  }

  lemma FewDigitsAre(d: Double, ilim: int, more: bool, k: int, b: nat, S: nat)
    requires ilim <= 0 && S > 0 && Ratio(b, S, d.Units(), k) && S <= b < 10 * S
    requires ilim == 0 ==> (more <==> b > 5 * S)
    ensures NearestMultiple(if ilim < 0 || !more then 0 else 1, k + 1 - ilim, d.Units())
  {
    var u := d.Units();
    RatioSum(b, b, S, u, u, k);
    if ilim < 0 {
      HalfStep(100, S, 2 * b, 2 * u, k, 1, 2);
      Scale10Longer(0, -ilim - 1);
      OrderBelow(Decimal(1, k + 2), Decimal(1, k + 1 - ilim), 2 * u);
    } else {
      AtMostOne(b, S, u, k, more);
    }
  }

  lemma AtMostOne(b: nat, S: nat, u: nat, k: int, more: bool)
    requires S > 0 && Ratio(2 * b, S, 2 * u, k) && b < 10 * S && (more <==> b > 5 * S)
    ensures NearestMultiple(if more then 1 else 0, k + 1, u)
  {
    HalfStep(10, S, 2 * b, 2 * u, k, 1, 1);
    HalfStep(30, S, 2 * b, 2 * u, k, 3, 1);
    assert Sign(10 * S - 2 * b) == Decimal(1, k + 1).Order(2 * u);
    assert Sign(30 * S - 2 * b) == Decimal(3, k + 1).Order(2 * u);
  }

  /** M = m * 10^n steps of 10^k against the number, as m steps of 10^(k+n). */
  lemma HalfStep(M: nat, S: nat, y: nat, u: nat, k: int, m: nat, n: nat)
    requires S > 0 && Ratio(y, S, u, k) && M == Scale10(m, n)
    ensures Sign(M * S - y) == Decimal(m, k + n).Order(u)
  {
    TimesIs(M, S);
    RatioOrder(M, S, y, u, k, 1);
    Rescale(Decimal(m, k + n), n, u);
  }

  /** Correctly rounded digits keep the promise of modes 2 and 3, and of 4 and 5 when nothing shorter is read back. */
  lemma RoundedKept(d: Double, mode: nat, ndigits: int, k: int, ds: seq<nat>, decpt: int)
    requires 2 <= mode <= 5 && DigitString(ds) && RoundedAt(d, ds, decpt, LastPlace(mode, ndigits, k))
    requires mode >= 4 ==> NoneInTime(d, Wanted(mode, ndigits, k))
    ensures Kept(d, mode, ndigits, k, ds, decpt)
  {}

  lemma LoopRoundedAt(d: Double, k: int, b: nat, S: nat, ilim: int, ds: seq<nat>, carry: nat, decpt: int, q: int)
    requires decpt == k + 1 + carry && q == k - ilim + 1
    requires S > 0 && Ratio(b, S, d.Units(), k) && ilim >= 1 && RoundedDigits(Nearest, b, S, ilim, ds, carry)
    ensures RoundedAt(d, ds, decpt, q) && DigitString(ds) && Clean(ds)
  {
    DigitsRoundedAt(d, k, b, S, ilim, ds, carry, decpt, q);
  }

  lemma DigitsRoundedAt(d: Double, k: int, b: nat, S: nat, ilim: int, ds: seq<nat>, carry: nat, decpt: int, q: int)
    requires decpt == k + 1 + carry && q == k - ilim + 1
    requires S > 0 && Ratio(b, S, d.Units(), k) && ilim >= 1 && |ds| <= ilim && ds != [0]
    requires Scale10(DigVal(ds), ilim + carry - |ds|) == Rounded(Nearest, Scale10(b, ilim - 1), S)
    ensures RoundedAt(d, ds, decpt, q)
  {
    RoundedIsNearest(d.Units(), b, S, k, ilim, Scale10(DigVal(ds), ilim + carry - |ds|));
    assert decpt - |ds| - q == ilim + carry - |ds|;
  }

  /** A stop of the shortest loop keeps the promise of modes 0, 1, 4 and 5. */
  lemma ShortestPromise(d: Double, mode: nat, ndigits: int, k: int, p: Problem, ilim: int, ds: seq<nat>, carry: nat, decpt: int)
    requires d.Finite() && mode <= 5 && mode != 2 && mode != 3 && p.incl == Inclusive(d, mode) && decpt == k + 1 + carry
    requires SetUp(d, p, k, true) && LeadingExponent(d, k) && Shortest(p, ds, carry)
    requires mode > 1 ==> |ds| <= ilim == Wanted(mode, ndigits, k)
    ensures Kept(d, mode, ndigits, k, ds, decpt)
  {
    assert ShortestFor(d, k, ds, decpt, Inclusive(d, mode)) by {
      NoNineTie(d, p, k);
      NoEndTie(d, p, k, Scale10(DigVal(ds), carry), |ds|);
      LoopIsShortest(d, p, k, ds, carry, decpt);
    }
    ShortestKept(d, mode, ndigits, k, ds, decpt);
  }

  lemma ShortestKept(d: Double, mode: nat, ndigits: int, k: int, ds: seq<nat>, decpt: int)
    requires mode <= 5 && mode != 2 && mode != 3 && ShortestFor(d, k, ds, decpt, Inclusive(d, mode))
    requires mode > 1 ==> decpt - |ds| >= LastPlace(mode, ndigits, k) && Wanted(mode, ndigits, k) >= 1
    ensures Kept(d, mode, ndigits, k, ds, decpt)
  {}

  /** The small-integer path. */
  method SmallPath(d: Double, D: nat, mode: nat, ndigits: int, k: nat, ilim: int) returns (ds: seq<nat>, decpt: int)
    requires d.Finite() && IsInteger(d, D) && k <= 14 && LeadingExponent(d, k) && mode <= 5
    requires mode <= 1 ==> ilim == -1
    requires mode > 1 ==> ilim == k + 1 - LastPlace(mode, ndigits, k)
    requires mode == 2 || mode == 4 ==> ilim >= 1
    ensures Promise(d, mode, ndigits, k, ds, decpt)
  {
    IntegerRange(d, D, k);
    if (if mode <= 1 then 0 else ndigits) < 0 && ilim <= 0 {
      ds, decpt := Few(d, mode, ndigits, k, D, Scale10(1, k), ilim);
    } else if mode <= 1 {
      ds, decpt := SmallExact(d, D, mode, ndigits, k, ilim);
    } else {
      ds, decpt := SmallRounded(d, D, mode, ndigits, k, ilim);
    }
  }

  /** The small-integer loop without a digit limit. */
  method SmallExact(d: Double, D: nat, mode: nat, ndigits: int, k: nat, ilim: int) returns (ds: seq<nat>, decpt: int)
    requires d.Finite() && IsInteger(d, D) && k <= 14 && LeadingExponent(d, k) && mode <= 1 && ilim <= 0
    requires Scale10(1, k) <= D < Scale10(1, k + 1)
    ensures Promise(d, mode, ndigits, k, ds, decpt)
  {
    var carry;
    ds, carry := SmallDigits(D, k, ilim);
    decpt := k + 1;
    ExactPromise(d, D, mode, ndigits, k, ilim, ds, decpt);
  }

  /** The small-integer loop up to ilim digits. */
  method SmallRounded(d: Double, D: nat, mode: nat, ndigits: int, k: nat, ilim: int) returns (ds: seq<nat>, decpt: int)
    requires d.Finite() && IsInteger(d, D) && k <= 14 && LeadingExponent(d, k)
    requires 2 <= mode <= 5 && ilim == k + 1 - LastPlace(mode, ndigits, k) && ilim >= 1
    requires Scale10(1, k) <= D < Scale10(1, k + 1) && Ratio(D, Scale10(1, k), d.Units(), k)
    ensures Promise(d, mode, ndigits, k, ds, decpt)
  {
    var carry;
    ds, carry := SmallDigits(D, k, ilim);
    decpt := k + 1 + carry;
    assert RoundedAt(d, ds, decpt, LastPlace(mode, ndigits, k)) by {
      DigitsRoundedAt(d, k, D, Scale10(1, k), ilim, ds, carry, decpt, LastPlace(mode, ndigits, k));
    }
    assert Kept(d, mode, ndigits, k, ds, decpt) by {
      SmallKept(d, D, mode, ndigits, k, ilim, ds, decpt);
    }
    assert Normal(ds) <==> !ZerosLeft(d, mode, ndigits, k) by {
      SmallZeros(d, D, mode, ndigits, k, ilim);
    }
    PromiseFrom(d, mode, ndigits, k, ds, decpt);
  }

  lemma PromiseFrom(d: Double, mode: nat, ndigits: int, k: int, ds: seq<nat>, decpt: int)
    requires Kept(d, mode, ndigits, k, ds, decpt) && |ds| > 0 && ds[0] != 0
    requires (Normal(ds) <==> !ZerosLeft(d, mode, ndigits, k)) && (Normal(ds) || |ds| == Wanted(mode, ndigits, k))
    ensures Promise(d, mode, ndigits, k, ds, decpt)
  {}

  lemma SmallKept(d: Double, D: nat, mode: nat, ndigits: int, k: nat, ilim: int, ds: seq<nat>, decpt: int)
    requires d.Finite() && IsInteger(d, D) && k <= 14 && LeadingExponent(d, k) && D < Scale10(1, k + 1)
    requires 2 <= mode <= 5 && ilim == Wanted(mode, ndigits, k) && ilim >= 1 && |ds| <= ilim
    requires DigitString(ds) && RoundedAt(d, ds, decpt, LastPlace(mode, ndigits, k))
    requires Exact(D, k, ilim) ==> Normal(ds) && decpt == k + 1 && |ds| <= k + 1 && After(D, Scale10(1, k), ds, 0, |ds|)
    ensures Kept(d, mode, ndigits, k, ds, decpt)
  {
    if mode >= 4 && Exact(D, k, ilim) {
      ExactPromise(d, D, mode, ndigits, k, ilim, ds, decpt);
    } else {
      if mode >= 4 {
        SmallEnough(D, k);
        IntegerNoShorter(d, D, k, ilim, d.Even());
      }
      RoundedKept(d, mode, ndigits, k, ds, decpt);
    }
  }

  lemma SmallZeros(d: Double, D: nat, mode: nat, ndigits: int, k: nat, ilim: int)
    requires IsInteger(d, D) && k <= 14 && mode >= 2 && ilim == Wanted(mode, ndigits, k) && ilim >= 1
    ensures ZerosLeft(d, mode, ndigits, k) <==> LeavesZeros(D, k, ilim)
  {
    if ZerosLeft(d, mode, ndigits, k) {
      var D': nat :| IsInteger(d, D') && LeavesZeros(D', k, Wanted(mode, ndigits, k));
      LshCancel(D, D', TINY);
    }
  }

  /** No digit, or one digit above the place asked for. */
  method Few(d: Double, mode: nat, ndigits: int, k: int, b: nat, S: nat, ilim: int) returns (ds: seq<nat>, decpt: int)
    requires 2 <= mode <= 5 && ilim == k + 1 - LastPlace(mode, ndigits, k) && ilim <= 0
    requires S > 0 && Ratio(b, S, d.Units(), k) && S <= b < 10 * S
    ensures Promise(d, mode, ndigits, k, ds, decpt) && Clean(ds)
  {
    ds, decpt := FewDigits(d, ilim, b > 5 * S, k, b, S);
    FewPromise(d, mode, ndigits, k, ilim, ds, decpt);
  }

  lemma IntegerRange(d: Double, D: nat, k: nat)
    requires IsInteger(d, D) && LeadingExponent(d, k)
    ensures Scale10(1, k) <= D < Scale10(1, k + 1) && Ratio(D, Scale10(1, k), d.Units(), k)
  {
    IntegerRatio(d, D, k);
    RatioLeading(d, D, Scale10(1, k), k);
  }

  lemma FewPromise(d: Double, mode: nat, ndigits: int, k: int, ilim: int, ds: seq<nat>, decpt: int)
    requires 2 <= mode <= 5 && ilim == k + 1 - LastPlace(mode, ndigits, k) && ilim <= 0
    requires RoundedAt(d, ds, decpt, k + 1 - ilim) && (ds == [0] || ds == [1])
    ensures Promise(d, mode, ndigits, k, ds, decpt) && Clean(ds)
  {}

  lemma ExactPromise(d: Double, D: nat, mode: nat, ndigits: int, k: nat, ilim: int, ds: seq<nat>, decpt: int)
    requires d.Finite() && IsInteger(d, D) && k <= 14 && LeadingExponent(d, k) && mode <= 5 && mode != 2 && mode != 3
    requires D < Scale10(1, k + 1) && Normal(ds) && |ds| <= k + 1 && After(D, Scale10(1, k), ds, 0, |ds|)
    requires decpt == k + 1 && (mode >= 4 ==> |ds| <= ilim == Wanted(mode, ndigits, k))
    ensures Kept(d, mode, ndigits, k, ds, decpt)
  {
    assert ShortestFor(d, k, ds, decpt, Inclusive(d, mode)) by {
      SmallEnough(D, k);
      ExactIsShortest(d, D, k, ds, Inclusive(d, mode));
    }
  }

  lemma SmallEnough(D: nat, k: nat)
    requires k <= 14 && D < Scale10(1, k + 1)
    ensures D < 0x20_0000_0000_0000
  {
    Scale10Longer(k + 1, 15);
    Scale10Scale10(1, 5, 5);
    Scale10Scale10(1, 10, 5);
    assert Scale10(1, 5) == 100000;
    Scale10Is(100000, 5);
    assert Pow10(5) == 100000;
    Scale10Is(Scale10(1, 10), 5);
  }

  /** The bignum path: set-up, the digit limit for the corrected exponent, and the digit loop. */
  method BignumPath(d: Double, mode: nat, ndigits: int, k0: int, kCheck: bool, ilim0: int, ilim1: int, leftright: bool, ghost k: int)
    returns (ds: seq<nat>, decpt: int)
    requires d.Finite() && LeadingExponent(d, k) && Estimate(d, k0) && (!kCheck ==> LeadingExponent(d, k0)) && mode <= 5
    requires leftright == (mode != 2 && mode != 3)
    requires mode <= 1 ==> ilim0 == ilim1 == -1
    requires mode > 1 ==> ilim0 == k0 + 1 - LastPlace(mode, ndigits, k0)
    requires mode > 1 ==> ilim1 == k0 - LastPlace(mode, ndigits, k0 - 1)
    ensures Kept(d, mode, ndigits, k, ds, decpt) && Clean(ds)
  {
    var p, kk, n := ScaleSetup(d, k0, kCheck, leftright, Inclusive(d, mode));
    LeadingUnique(d, k, kk);
    var ilim := if kk < k0 then ilim1 else ilim0;
    ds, decpt := BignumDigits(d, mode, ndigits, kk, p, ilim, leftright, n);
  }

  method BignumDigits(d: Double, mode: nat, ndigits: int, k: int, p: Problem, ilim: int, leftright: bool, ghost n: nat)
    returns (ds: seq<nat>, decpt: int)
    requires d.Finite() && LeadingExponent(d, k) && SetUp(d, p, k, leftright) && mode <= 5
    requires Aligned(p.S, n) && p.S <= p.b < 10 * p.S && p.incl == Inclusive(d, mode)
    requires leftright == (mode != 2 && mode != 3)
    requires if mode <= 1 then ilim == -1 else ilim == k + 1 - LastPlace(mode, ndigits, k)
    ensures Kept(d, mode, ndigits, k, ds, decpt) && Clean(ds)
  {
    if ilim <= 0 && (mode == 3 || mode == 5) {
      ds, decpt := Few(d, mode, ndigits, k, p.b, p.S, ilim);
    } else if leftright {
      ds, decpt := LeftRight(d, mode, ndigits, k, p, ilim, n);
    } else {
      ds, decpt := Fixed(d, mode, ndigits, k, p.b, p.S, ilim, n);
    }
  }

  /** The fixed-count loop. */
  method Fixed(d: Double, mode: nat, ndigits: int, k: int, b: nat, S: nat, ilim: int, ghost n: nat)
    returns (ds: seq<nat>, decpt: int)
    requires 2 <= mode <= 3 && ilim == k + 1 - LastPlace(mode, ndigits, k) && ilim >= 1
    requires S > 0 && Ratio(b, S, d.Units(), k) && Aligned(S, n) && S <= b < 10 * S
    ensures Kept(d, mode, ndigits, k, ds, decpt) && Clean(ds)
  {
    var carry;
    ds, carry := FixedDigits(b, S, ilim, n);
    decpt := k + 1 + carry;
    assert RoundedAt(d, ds, decpt, LastPlace(mode, ndigits, k)) by {
      LoopRoundedAt(d, k, b, S, ilim, ds, carry, decpt, LastPlace(mode, ndigits, k));
    }
    RoundedKept(d, mode, ndigits, k, ds, decpt);
  }

  /** The shortest loop, with or without a digit limit. */
  method LeftRight(d: Double, mode: nat, ndigits: int, k: int, p: Problem, ilim: int, ghost n: nat)
    returns (ds: seq<nat>, decpt: int)
    requires d.Finite() && LeadingExponent(d, k) && SetUp(d, p, k, true) && mode <= 5 && mode != 2 && mode != 3
    requires Aligned(p.S, n) && p.S <= p.b < 10 * p.S && p.incl == Inclusive(d, mode)
    requires if mode <= 1 then ilim == -1 else ilim == k + 1 - LastPlace(mode, ndigits, k) && ilim >= 1
    ensures Kept(d, mode, ndigits, k, ds, decpt) && Clean(ds)
  {
    var carry, stopped;
    ds, carry, stopped := ShortestDigits(p, ilim, n);
    decpt := k + 1 + carry;
    if stopped {
      ShortestPromise(d, mode, ndigits, k, p, ilim, ds, carry, decpt);
    } else {
      CutPromise(d, mode, ndigits, k, p, ilim, ds, carry, decpt);
    }
  }

  /** The shortest loop cut off at ilim digits. */
  lemma CutPromise(d: Double, mode: nat, ndigits: int, k: int, p: Problem, ilim: int, ds: seq<nat>, carry: nat, decpt: int)
    requires d.Finite() && 4 <= mode <= 5 && p.incl == d.Even() && decpt == k + 1 + carry
    requires SetUp(d, p, k, true) && LeadingExponent(d, k) && ilim == Wanted(mode, ndigits, k) && ilim >= 1
    requires NothingFitsBelow(p, ilim + 1) && RoundedDigits(Nearest, p.b, p.S, ilim, ds, carry)
    ensures Kept(d, mode, ndigits, k, ds, decpt)
  {
    assert NoneInTime(d, ilim) by {
      LoopNoShorter(d, p, k, ilim + 1);
    }
    assert RoundedAt(d, ds, decpt, LastPlace(mode, ndigits, k)) by {
      LoopRoundedAt(d, k, p.b, p.S, ilim, ds, carry, decpt, LastPlace(mode, ndigits, k));
    }
    RoundedKept(d, mode, ndigits, k, ds, decpt);
  }

  /** An integer is at least one, so its estimated exponent is not negative. */
  lemma IntegerExponent(d: Double, D: nat, k: int)
    requires d.Finite() && IsInteger(d, D) && LeadingExponent(d, k)
    ensures k >= 0
  {
    UnitsAboveHalf(d);
    if k < 0 {
      Scale10Longer(0, -k - 1);
      OrderBelow(Decimal(1, k + 1), Decimal(1, 0), d.Units());
      if D > 1 {
        LshMono(1, TINY, D);
      }
    }
  }

  lemma IntegerFrom(d: Double, b: nat, be: int)
    requires be >= 0 && be >= d.Exponent() - TINY && d.Mantissa() == Lsh(b, be - d.Exponent() + TINY)
    ensures IsInteger(d, Lsh(b, be))
  {
    LshLsh(b, be, TINY);
    LshLsh(b, be - d.Exponent() + TINY, d.Exponent());
  }

  lemma SmallExponent(d: Double, D: nat, k: int, kCheck: bool)
    requires d.Finite() && IsInteger(d, D) && Estimate(d, k) && k <= 14
    requires !kCheck ==> LeadingExponent(d, k)
    requires kCheck ==> k < 0 || k > 22
    ensures k >= 0 && !kCheck
  {
    if LeadingExponent(d, k) {
      IntegerExponent(d, D, k);
    } else {
      IntegerExponent(d, D, k - 1);
    }
  }

  /** The odd part of an integer has no negative exponent. */
  lemma IntegerOddPart(d: Double, b: nat, be: int, D: nat)
    requires b % 2 == 1 && be >= d.Exponent() - TINY && d.Mantissa() == Lsh(b, be - d.Exponent() + TINY)
    requires IsInteger(d, D)
    ensures be >= 0
  {
    if be < 0 {
      LshLsh(b, be - d.Exponent() + TINY, d.Exponent());
      LshLsh(D, -be, be + TINY);
      LshCancel(b, Lsh(D, -be), be + TINY);
    }
  }

  /** Where the small-integer path is not taken, it would not have left zeros. */
  lemma NotSmall(d: Double, b: nat, be: int, kk: int, kCheck: bool, mode: nat, ndigits: int, k: int)
    requires b % 2 == 1 && be >= d.Exponent() - TINY && d.Mantissa() == Lsh(b, be - d.Exponent() + TINY)
    requires LeadingExponent(d, k) && Estimate(d, kk) && (!kCheck ==> LeadingExponent(d, kk)) && (kCheck ==> kk < 0 || kk > 22)
    requires be < 0 || kk > 14
    ensures !ZerosLeft(d, mode, ndigits, k)
  {
    if ZerosLeft(d, mode, ndigits, k) {
      var D: nat :| IsInteger(d, D) && LeavesZeros(D, k, Wanted(mode, ndigits, k));
      IntegerOddPart(d, b, be, D);
      LeadingUnique(d, k, if LeadingExponent(d, kk) then kk else kk - 1);
    }
  }

  /** A double has one leading exponent. */
  lemma LeadingUnique(d: Double, k: int, l: int)
    requires LeadingExponent(d, k) && LeadingExponent(d, l)
    ensures k == l
  {
    if k < l {
      OrderBelow(Decimal(1, k + 1), Decimal(1, l), d.Units());
    } else if l < k {
      OrderBelow(Decimal(1, l + 1), Decimal(1, k), d.Units());
    }
  }

  /** Every finite double has one. */
  lemma LeadingExists(d: Double) returns (k: int)
    requires d.Finite()
    ensures LeadingExponent(d, k)
  {
    UnitsAboveHalf(d);
    var u := d.Units();
    TenAboveTwo(u, TINY);
    AboveCount(u);
    k := LeadingFrom(d, -TINY, u);
  }

  lemma {:induction false} TenAboveTwo(u: nat, n: nat)
    requires u > 0
    ensures Lsh(1, n) <= Scale10(u, n)
  {
    if n > 0 {
      TenAboveTwo(u, n - 1);
    }
  }

  lemma {:induction false} AboveCount(n: nat)
    ensures n < Scale10(1, n)
  {
    if n > 0 {
      AboveCount(n - 1);
    }
  }

  /** The search upwards from a power of ten that is not above the double. */
  lemma {:induction false} LeadingFrom(d: Double, q: int, top: nat) returns (k: int)
    requires Decimal(1, q).Order(d.Units()) <= 0 && q <= top && d.Units() < Scale10(1, top)
    ensures LeadingExponent(d, k)
    decreases top - q
  {
    if Decimal(1, q + 1).Order(d.Units()) > 0 {
      k := q;
    } else {
      if q == top {
        LshGrows(Scale10(1, top + 1), TINY);
      }
      k := LeadingFrom(d, q + 1, top);
    }
  }

  /**
   * dtoa on a finite double that is not zero. k is its leading exponent, kEst the floating-point
   * estimate of it, trusted to be right or one too big.
   */
  method Convert(d: Double, mode0: int, ndigits: int, kEst: int, ghost k: int) returns (ds: seq<nat>, decpt: int)
    requires d.Finite() && LeadingExponent(d, k) && (kEst == k || kEst == k + 1)
    ensures 0 <= mode0 <= 5 ==> Promise(d, mode0, ndigits, k, ds, decpt)
    ensures 6 <= mode0 <= 9 ==> Promise(d, mode0 - 4, ndigits, k, ds, decpt)
    ensures mode0 < 0 || mode0 > 9 ==> Promise(d, 0, ndigits, k, ds, decpt)
  {
    var b, be, bbits := D2b(d);
    var kk, kCheck := CorrectEstimate(d, kEst);
    var mode := EffectiveMode(mode0);
    var ilim, ilim1, leftright := Limits(mode, ndigits, kk);
    if be >= 0 && kk <= 14 {
      var D := Lsh(b, be);
      IntegerFrom(d, b, be);
      SmallExponent(d, D, kk, kCheck);
      LeadingUnique(d, k, kk);
      ds, decpt := SmallPath(d, D, mode, ndigits, kk, ilim);
      return;
    }
    ds, decpt := BignumPath(d, mode, ndigits, kk, kCheck, ilim, ilim1, leftright, k);
    NotSmall(d, b, be, kk, kCheck, mode, ndigits, k);
  }

  /** In exactly those calls the string ends in a zero. */
  lemma ZerosTrail(d: Double, mode: nat, ndigits: int, k: int, ds: seq<nat>, decpt: int)
    requires Promise(d, mode, ndigits, k, ds, decpt)
    ensures |ds| > 0 && (ZerosLeft(d, mode, ndigits, k) <==> ds[|ds| - 1] == 0 && ds != [0])
  {}

  /**
   * Trailing zeros are not always suppressed: 1005 to three digits in mode 2. The quick path meets
   * a tie there and leaves the call to the small-integer path.
   */
  lemma TrailingZeroExample(d: Double)
    requires d == Double(1032, 0xf_6800_0000_0000)
    ensures d.Finite() && IsInteger(d, 1005) && LeadingExponent(d, 3) && ZerosLeft(d, 2, 3, 3)
  {
    assert d.Mantissa() == 1005 * 0x800_0000_0000 && d.Exponent() + 43 == TINY;
    TwoToFortyThree();
    IntegerDouble(d, 1005, 43, 0x800_0000_0000);
    CutAtTie(d, 3);
  }

  lemma TwoToFortyThree()
    ensures Lsh(1, 43) == 0x800_0000_0000
  {
    LshConstants();
    LshLsh(1, 43, 9);
    LshIs(Lsh(1, 43), 9);
    assert Pow2(9) == 512;
  }

  lemma IntegerDouble(d: Double, D: nat, e: nat, t: nat)
    requires t == Lsh(1, e) && d.Mantissa() == D * t && d.Exponent() + e == TINY
    ensures IsInteger(d, D)
  {
    LshIs(D, e);
    LshIs(1, e);
    LshLsh(D, e, d.Exponent());
  }

  lemma CutAtTie(d: Double, k: nat)
    requires IsInteger(d, 1005) && k == 3
    ensures LeadingExponent(d, k) && ZerosLeft(d, 2, 3, k)
  {
    assert Scale10(1, k) == 1000 && Scale10(1005, 2) == 100500;
    IntegerRatio(d, 1005, k);
    RatioLeading(d, 1005, Scale10(1, k), k);
    assert LeavesZeros(1005, k, Wanted(2, 3, k));
  }

  /** Mode 0 prints the shortest decimal that is read back as the same double. */
  lemma ModeZeroRoundTrip(d: Double, ds: seq<nat>, decpt: int, ndigits: int, k: int)
    requires d.Finite() && Promise(d, 0, ndigits, k, ds, decpt)
    ensures ReadsBack(Decimal(DigVal(ds), decpt - |ds|), d)
    ensures forall M: nat, q: int :: ReadsBack(Decimal(M, q), d) ==> M >= Scale10(1, |ds| - 1)
  {
    IntervalIsReadsBack(Decimal(DigVal(ds), decpt - |ds|), d);
    forall M: nat, q: int | ReadsBack(Decimal(M, q), d)
      ensures M >= Scale10(1, |ds| - 1)
    {
      IntervalIsReadsBack(Decimal(M, q), d);
    }
  }

  /** Two doubles never print alike in mode 0 or 1. */
  lemma DistinctDoublesPrintApart(d: Double, w: Double, mode: nat, ds: seq<nat>, decpt: int, n: int, m: int, k: int, l: int)
    requires d.Finite() && w.Finite() && mode <= 1
    requires Promise(d, mode, n, k, ds, decpt) && Promise(w, mode, m, l, ds, decpt)
    ensures d == w
  {
    var x := Decimal(DigVal(ds), decpt - |ds|);
    InclusiveEnough(x, d, mode);
    InclusiveEnough(x, w, mode);
    EvenMantissa(d);
    EvenMantissa(w);
    if d != w {
      assert Off(x, d) < Off(x, w) || (Off(x, d) == Off(x, w) && d.Even());
      assert Off(x, w) < Off(x, d) || (Off(x, w) == Off(x, d) && w.Even());
      if Above(w, d) {
        NoEvenTie(x, d, w);
      } else {
        NoEvenTie(x, w, d);
      }
    }
  }

  lemma InclusiveEnough(x: Decimal, d: Double, mode: nat)
    requires d.Finite() && mode <= 1 && InInterval(x, d, Inclusive(d, mode))
    ensures ReadsBack(x, d)
  {
    IntervalIsReadsBack(x, d);
  }

  lemma BetweenIsNearer(x: int, a: int, b: int, c: int)
    requires a < b < c && Distance(x, a) == Distance(x, c)
    ensures Distance(x, b) < Distance(x, a)
  {}

  /** A decimal as near to one double as to another lies between neighbours, and those are not both even. */
  lemma NoEvenTie(x: Decimal, lo: Double, hi: Double)
    requires lo.Finite() && hi.Finite() && Above(hi, lo) && ReadsBack(x, lo) && lo.Even() && hi.Even()
    ensures Off(x, lo) != Off(x, hi)
  {
    var s := BetweenEvens(lo, hi);
    GridStrict(x, lo.Units(), s.Units());
    GridStrict(x, s.Units(), hi.Units());
    if Off(x, lo) == Off(x, hi) {
      BetweenIsNearer(x.Num(), x.Grid(lo.Units()), x.Grid(s.Units()), x.Grid(hi.Units()));
    }
  }

  /** Between two even doubles there is another one. */
  lemma BetweenEvens(lo: Double, hi: Double) returns (s: Double)
    requires lo.Finite() && hi.Finite() && Above(hi, lo) && lo.Even() && hi.Even()
    ensures s.Candidate() && s != lo && lo.Units() < s.Units() < hi.Units()
  {
    s := Succ(lo);
    EvensApart(lo, hi);
    SuccIs(lo);
    HalfPositive(lo);
    GapUp(hi, s);
    HalfPositive(s);
  }

  lemma EvensApart(lo: Double, hi: Double)
    requires lo.Finite() && hi.Finite() && Above(hi, lo) && lo.Even() && hi.Even()
    ensures Above(hi, Succ(lo)) && Succ(lo).Candidate()
  {}

  lemma GridStrict(x: Decimal, u: int, w: int)
    requires u < w
    ensures x.Grid(u) < x.Grid(w)
  {
    Scale10Mono(u, Pos(-x.q), w);
  }

  // ---------------------------------------------------------------- small path against bignum path

  /** There is only one correctly rounded multiple. */
  lemma NearestUnique(N: nat, M: nat, q: int, u: nat)
    requires NearestMultiple(N, q, u) && NearestMultiple(M, q, u)
    ensures N == M
  {
    if N < M {
      NearestNotBelow(N, M, q, u);
    } else if M < N {
      NearestNotBelow(M, N, q, u);
    }
  }

  lemma NearestNotBelow(N: nat, M: nat, q: int, u: nat)
    requires N < M && NearestMultiple(N, q, u)
    ensures !NearestMultiple(M, q, u)
  {
    if N + 1 < M {
      NumMono(2 * N + 1, 2 * M - 1, q);
    }
  }

  lemma SameRounding(d: Double, D: nat, b: nat, S: nat, k: nat, ilim: nat, N: nat, M: nat)
    requires IsInteger(d, D) && ilim >= 1 && S > 0 && Ratio(b, S, d.Units(), k)
    requires N == Rounded(Nearest, Scale10(b, ilim - 1), S) && M == Rounded(Nearest, Scale10(D, ilim - 1), Scale10(1, k))
    ensures N == M
  {
    IntegerRatio(d, D, k);
    RoundedIsNearest(d.Units(), b, S, k, ilim, N);
    RoundedIsNearest(d.Units(), D, Scale10(1, k), k, ilim, M);
    NearestUnique(N, M, k - ilim + 1, d.Units());
  }

  /**
   * For an integer double both paths give the same decimal at every digit count; the strings are
   * the same unless the small path leaves trailing zeros.
   */
  lemma SmallPathRefinesBignum(d: Double, D: nat, b: nat, S: nat, k: nat, ilim: nat,
                               big: seq<nat>, carry: nat, small: seq<nat>, carry': nat)
    requires d.Finite() && IsInteger(d, D) && ilim >= 1
    requires S > 0 && Ratio(b, S, d.Units(), k) && RoundedDigits(Nearest, b, S, ilim, big, carry)
    requires |small| <= ilim && (Normal(small) <==> !LeavesZeros(D, k, ilim))
    requires Scale10(DigVal(small), ilim + carry' - |small|) == Rounded(Nearest, Scale10(D, ilim - 1), Scale10(1, k))
    ensures Scale10(DigVal(big), ilim + carry - |big|) == Scale10(DigVal(small), ilim + carry' - |small|)
    ensures !LeavesZeros(D, k, ilim) <==> big == small && carry == carry'
  {
    var N, M := Scale10(DigVal(big), ilim + carry - |big|), Scale10(DigVal(small), ilim + carry' - |small|);
    SameRounding(d, D, b, S, k, ilim, N, M);
    if Normal(small) {
      NormalUnique(big, small, ilim + carry - |big|, ilim + carry' - |small|);
    }
  }
}
