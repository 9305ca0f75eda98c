/**
 * The left-to-right loop of dtoa.c (modes 0, 1, 4 and 5): digits are produced until the string
 * so far, or the next one up, lies between the neighbours' midpoints.
 */
module ShortestLoop {
  import opened Powers
  import opened Bignums
  import opened DigitStrings
  import opened DigitLoops
  import opened Decimals

  /**
   * What the scaling set-up hands to the loop: the number is b / S in units of 10^k, the half-gaps
   * to the neighbours are mlo / S and mhi / S, and incl says whether the midpoints themselves count.
   */
  datatype Problem = Problem(b: nat, S: nat, mlo: nat, mhi: nat, incl: bool) {
    ghost predicate Valid() {
      S <= b < 10 * S && 0 < mlo <= mhi
    }
  }

  ghost predicate Inside(x: int, b: int, lo: int, hi: int, incl: bool) {
    if incl then b - lo <= x <= b + hi else b - lo < x < b + hi
  }

  /** M units of 10^(k - j + 1) lie in the rounding interval; such a number has about j digits. */
  ghost predicate Fits(p: Problem, M: nat, j: nat)
    requires j >= 1
  {
    Inside(Times(M, p.S), Scale10(p.b, j - 1), Scale10(p.mlo, j - 1), Scale10(p.mhi, j - 1), p.incl)
  }

  ghost predicate NothingFitsBelow(p: Problem, n: nat) {
    forall j, M: nat :: 1 <= j < n ==> !Fits(p, M, j)
  }

  /** How far M units are from the number. */
  ghost function Away(p: Problem, M: nat, j: nat): nat
    requires j >= 1
  {
    Distance(Times(M, p.S), Scale10(p.b, j - 1))
  }

  /** No other candidate with as many digits is nearer to the number. */
  ghost predicate Closest(p: Problem, N: nat, n: nat)
    requires n >= 1
  {
    forall M: nat :: Fits(p, M, n) ==> Away(p, N, n) <= Away(p, M, n)
  }

  /** If another candidate is as near, the chosen one is even. */
  ghost predicate TieEven(p: Problem, N: nat, n: nat)
    requires n >= 1
  {
    forall M: nat :: Fits(p, M, n) && M != N && Away(p, M, n) == Away(p, N, n) ==> N % 2 == 0
  }

  /** The only ties that are not broken to even: both ends of the interval are candidates. */
  ghost predicate EndTie(p: Problem, n: nat)
    requires n >= 1
  {
    p.incl && 2 * Scale10(p.mlo, n - 1) == p.S && 2 * Scale10(p.mhi, n - 1) == p.S
  }

  /** The two stopping tests: the digits so far, or those plus one, are close enough. */
  predicate Low(r: nat, mlo: nat, incl: bool) {
    r < mlo || (r == mlo && incl)
  }

  predicate High(r: nat, mhi: nat, S: nat, incl: bool) {
    S < r + mhi || (S == r + mhi && incl)
  }

  ghost predicate At(p: Problem, N: nat, r: nat, j: nat, mlo: nat, mhi: nat) {
    && 1 <= j && Remainder(p.b, p.S, N, r, j)
    && mlo == Scale10(p.mlo, j - 1) && mhi == Scale10(p.mhi, j - 1) && 0 < mlo <= mhi
  }

  lemma FitsIff(p: Problem, N: nat, r: nat, j: nat, mlo: nat, mhi: nat)
    requires At(p, N, r, j, mlo, mhi)
    ensures Fits(p, N, j) <==> Low(r, mlo, p.incl)
    ensures Fits(p, N + 1, j) <==> High(r, mhi, p.S, p.incl)
  {}

  lemma {:induction false} TimesMono(m: nat, n: nat, s: nat)
    requires m <= n
    ensures Times(m, s) <= Times(n, s)
  {
    TimesSum(m, n - m, s);
  }

  lemma NoneFits(p: Problem, N: nat, r: nat, j: nat, mlo: nat, mhi: nat, M: nat)
    requires At(p, N, r, j, mlo, mhi)
    requires !Low(r, mlo, p.incl) && !High(r, mhi, p.S, p.incl)
    ensures !Fits(p, M, j)
  {
    FitsIff(p, N, r, j, mlo, mhi);
    if M <= N {
      TimesMono(M, N, p.S);
    } else {
      TimesMono(N + 1, M, p.S);
    }
  }

  lemma ClosestIs(p: Problem, N: nat, r: nat, j: nat, mlo: nat, mhi: nat, up: bool)
    requires At(p, N, r, j, mlo, mhi)
    requires if up then High(r, mhi, p.S, p.incl) else Low(r, mlo, p.incl)
    ensures Closest(p, if up then N + 1 else N, j)
            <==> if up then 2 * r >= p.S || !Low(r, mlo, p.incl) else 2 * r <= p.S || !High(r, mhi, p.S, p.incl)
  {
    FitsIff(p, N, r, j, mlo, mhi);
    var chosen := if up then N + 1 else N;
    assert Fits(p, 2 * N + 1 - chosen, j) ==
           if up then Low(r, mlo, p.incl) else High(r, mhi, p.S, p.incl);
    forall M: nat | Fits(p, M, j)
      ensures if up then M <= N ==> Low(r, mlo, p.incl) else M > N ==> High(r, mhi, p.S, p.incl)
      ensures Away(p, M, j) >= if M <= N then r else p.S - r
    {
      if M <= N {
        TimesMono(M, N, p.S);
      } else {
        TimesMono(N + 1, M, p.S);
      }
    }
  }

  lemma TieIs(p: Problem, N: nat, r: nat, j: nat, mlo: nat, mhi: nat, up: bool)
    requires At(p, N, r, j, mlo, mhi)
    requires 2 * r == p.S && Low(r, mlo, p.incl) && High(r, mhi, p.S, p.incl) ==> (up <==> N % 2 == 1)
    requires if up then r > 0 && High(r, mhi, p.S, p.incl) else Low(r, mlo, p.incl)
    ensures TieEven(p, if up then N + 1 else N, j)
  {
    FitsIff(p, N, r, j, mlo, mhi);
    var chosen := if up then N + 1 else N;
    forall M: nat | M != chosen && Away(p, M, j) == Away(p, chosen, j)
      ensures M == 2 * N + 1 - chosen && 2 * r == p.S
    {
      Equidistant(p, N, r, j, M, chosen);
    }
  }

  lemma Equidistant(p: Problem, N: nat, r: nat, j: nat, M: nat, chosen: nat)
    requires j >= 1 && Remainder(p.b, p.S, N, r, j) && (chosen == N || chosen == N + 1) && M != chosen
    requires Away(p, M, j) == Away(p, chosen, j) && (chosen == N + 1 ==> r > 0)
    ensures M == 2 * N + 1 - chosen && 2 * r == p.S
  {
    if M < N {
      TimesMono(M, N - 1, p.S);
    } else if M > N + 1 {
      TimesMono(N + 2, M, p.S);
    }
  }

  /**
   * The one way to pass over a nearer candidate: the first digit is a nine, the number plus its
   * upper half-gap is exactly the next power of ten, and the nine itself was in the interval and nearer.
   * If nothing was left after the nine, unlike zeros save it when S has one word.
   */
  ghost predicate NineTie(p: Problem) {
    && p.incl && 9 * p.S <= p.b && p.b + p.mhi == 10 * p.S
    && p.b - 9 * p.S <= p.mlo && 2 * (p.b - 9 * p.S) < p.S
    && !UnlikeZeros(p.b - 9 * p.S, 0, p.S)
  }

  /**
   * cmp of a remainder of quorem with a difference: a zero remainder has no word when S has one,
   * a zero difference has one word always, and cmp takes the shorter for the smaller.
   */
  predicate UnlikeZeros(r: nat, delta: nat, S: nat) {
    r == 0 && delta == 0 && S < 0x1_0000_0000
  }

  function CmpDifference(r: nat, delta: nat, S: nat): int {
    if UnlikeZeros(r, delta, S) then -1 else Sign(r - delta)
  }

  /** What a stop guarantees of the digits out and their carry. */
  ghost predicate Shortest(p: Problem, out: seq<nat>, carry: nat) {
    && Normal(out) && carry <= 1 && (carry == 1 ==> out == [1])
    && var N := Scale10(DigVal(out), carry);
    && Fits(p, N, |out|) && NothingFitsBelow(p, |out|) && (Closest(p, N, |out|) <==> !NineTie(p))
    && (!NineTie(p) && !EndTie(p, |out|) ==> TieEven(p, N, |out|))
  }

  /** A nine is raised because the next one up is the upper end of the interval. */
  predicate NineAtEnd(p: Problem, dig: nat, r: nat, mhi: nat) {
    dig == 9 && p.S == r + mhi && p.incl && !UnlikeZeros(r, 0, p.S)
  }

  /** Both candidates are equally near, and not the ends of the interval. */
  predicate BothEndsOff(p: Problem, r: nat, mlo: nat, mhi: nat) {
    2 * r == p.S && Low(r, mlo, p.incl) && High(r, mhi, p.S, p.incl) && !(p.incl && r == mlo == mhi)
  }

  /** The stopping tests of one iteration and the choice between the digit and the next one up. */
  method Decide(p: Problem, dig: nat, r: nat, mlo: nat, mhi: nat) returns (stop: bool, up: bool)
    requires 0 < mlo <= mhi && p.S > 0
    ensures stop <==> Low(r, mlo, p.incl) || High(r, mhi, p.S, p.incl)
    ensures stop && up ==> High(r, mhi, p.S, p.incl)
    ensures stop && !up ==> Low(r, mlo, p.incl) && (2 * r <= p.S || !High(r, mhi, p.S, p.incl))
    ensures stop && up && 2 * r < p.S && Low(r, mlo, p.incl) ==> NineAtEnd(p, dig, r, mhi)
    ensures NineAtEnd(p, dig, r, mhi) ==> stop && up
    ensures stop && BothEndsOff(p, r, mlo, mhi) ==> (up <==> dig % 2 == 1)
  {
    var j := Sign(r - mlo);
    var delta := p.S - mhi;
    var j1 := if delta < 0 then 1 else CmpDifference(r, delta, p.S);
    if j1 == 0 && p.incl {
      if dig == 9 {
        return true, true;
      }
      return true, j > 0;
    }
    if j < 0 || (j == 0 && p.incl) {
      if r == 0 {
        return true, false;
      }
      if j1 > 0 {
        j1 := Sign(2 * r - p.S);
        return true, j1 > 0 || (j1 == 0 && dig % 2 == 1);
      }
      return true, false;
    }
    if j1 > 0 {
      return true, true;
    }
    return false, false;
  }

  /** After the first digit the tests failed one digit earlier, so a carry or a final zero is impossible. */
  ghost predicate FailedBefore(p: Problem, b: nat, i: nat, mlo: nat, mhi: nat) {
    i > 1 ==> !Low(b, mlo, p.incl) && !High(b, mhi, 10 * p.S, p.incl)
  }

  lemma LastDigitSafe(p: Problem, b: nat, i: nat, mlo: nat, mhi: nat, dig: nat, r: nat)
    requires FailedBefore(p, b, i, mlo, mhi) && i > 1
    requires b == Times(dig, p.S) + r && r < p.S && dig <= 9
    ensures dig == 9 ==> !High(r, mhi, p.S, p.incl)
    ensures dig == 0 ==> !Low(r, mlo, p.incl)
  {
    TimesIs(9, p.S);
  }

  lemma NineTieOnlyFirst(p: Problem, b: nat, i: nat, mlo: nat, mhi: nat, dig: nat, r: nat)
    requires p.Valid() && i >= 1 && mlo == Scale10(p.mlo, i - 1) && mhi == Scale10(p.mhi, i - 1)
    requires FailedBefore(p, b, i, mlo, mhi) && (i == 1 ==> b == p.b)
    requires b == Times(dig, p.S) + r && r < p.S && dig <= 9
    requires i > 1 ==> !Fits(p, 10, 1)
    ensures NineAtEnd(p, dig, r, mhi) && 2 * r < p.S && Low(r, mlo, p.incl) <==> NineTie(p)
  {
    TimesIs(9, p.S);
    TimesIs(10, p.S);
    if i == 1 && 9 * p.S <= b {
      if dig < 9 {
        TimesMono(dig, 8, p.S);
        TimesIs(8, p.S);
      }
    }
  }

  /** What Decide guarantees of a stop. */
  ghost predicate Decided(p: Problem, dig: nat, r: nat, mlo: nat, mhi: nat, up: bool) {
    && (if up then High(r, mhi, p.S, p.incl) else Low(r, mlo, p.incl))
    && (!up ==> 2 * r <= p.S || !High(r, mhi, p.S, p.incl))
    && (up && 2 * r < p.S && Low(r, mlo, p.incl) ==> NineAtEnd(p, dig, r, mhi))
    && (NineAtEnd(p, dig, r, mhi) ==> up)
    && (BothEndsOff(p, r, mlo, mhi) ==> (up <==> dig % 2 == 1))
  }

  /** A stop fits, and is closest but for the tie at a nine. */
  lemma StopFits(p: Problem, N: nat, b: nat, r: nat, i: nat, mlo: nat, mhi: nat, up: bool, dig: nat)
    requires p.Valid() && At(p, N, r, i, mlo, mhi) && b == Times(dig, p.S) + r && dig <= 9
    requires FailedBefore(p, b, i, mlo, mhi) && (i == 1 ==> b == p.b) && NothingFitsBelow(p, i)
    requires Decided(p, dig, r, mlo, mhi, up)
    ensures var M := if up then N + 1 else N; Fits(p, M, i) && (Closest(p, M, i) <==> !NineTie(p))
    ensures !NineTie(p) && up ==> r > 0
  {
    FitsIff(p, N, r, i, mlo, mhi);
    ClosestIs(p, N, r, i, mlo, mhi, up);
    assert NineAtEnd(p, dig, r, mhi) && 2 * r < p.S && Low(r, mlo, p.incl) <==> NineTie(p) by {
      NineTieOnlyFirst(p, b, i, mlo, mhi, dig, r);
    }
  }

  /** Ties are broken to even. */
  lemma StopTie(p: Problem, N: nat, r: nat, i: nat, mlo: nat, mhi: nat, up: bool, dig: nat)
    requires At(p, N, r, i, mlo, mhi) && N % 2 == dig % 2 && Decided(p, dig, r, mlo, mhi, up)
    ensures !EndTie(p, i) && (up ==> r > 0) ==> TieEven(p, if up then N + 1 else N, i)
  {
    if !EndTie(p, i) && (up ==> r > 0) {
      TieIs(p, N, r, i, mlo, mhi, up);
    }
  }

  /** Only a first nine is raised, and a final zero always is. */
  lemma StopDigit(p: Problem, b: nat, r: nat, i: nat, mlo: nat, mhi: nat, up: bool, dig: nat)
    requires p.Valid() && 0 < mlo <= mhi && FailedBefore(p, b, i, mlo, mhi) && (i <= 1 ==> b == p.b)
    requires b == Times(dig, p.S) + r && r < p.S && dig <= 9 && Decided(p, dig, r, mlo, mhi, up)
    ensures (i > 1 && dig == 9 ==> !up) && (dig == 0 ==> up)
  {
    if i > 1 {
      LastDigitSafe(p, b, i, mlo, mhi, dig, r);
    }
  }

  /** The loop invariant, before the i-th digit. */
  ghost predicate Running(p: Problem, ds: seq<nat>, b: nat, i: nat, mlo: nat, mhi: nat) {
    && Before(p.b, p.S, ds, b, i)
    && mlo == Scale10(p.mlo, i - 1) && mhi == Scale10(p.mhi, i - 1) && 0 < mlo <= mhi
    && FailedBefore(p, b, i, mlo, mhi) && NothingFitsBelow(p, i)
  }

  lemma KeepRunning(p: Problem, ds: seq<nat>, r: nat, i: nat, mlo: nat, mhi: nat)
    requires After(p.b, p.S, ds, r, i) && At(p, DigVal(ds), r, i, mlo, mhi)
    requires !Low(r, mlo, p.incl) && !High(r, mhi, p.S, p.incl) && NothingFitsBelow(p, i + 1)
    ensures Running(p, ds, 10 * r, i + 1, 10 * mlo, 10 * mhi)
  {
    Continue(p.b, p.S, ds, r, i);
  }

  /**
   * The loop; ilim <= 0 means no digit limit (modes 0 and 1). It stops at the first digit position
   * where some decimal lies in the rounding interval, or rounds at ilim digits when none does.
   */
  method ShortestDigits(p: Problem, ilim: int, ghost n: nat) returns (out: seq<nat>, carry: nat, stopped: bool)
    requires p.Valid() && Aligned(p.S, n)
    ensures stopped ==> Shortest(p, out, carry) && (ilim > 0 ==> |out| <= ilim)
    ensures ilim <= 0 ==> stopped
    ensures !stopped ==> NothingFitsBelow(p, ilim + 1) && RoundedDigits(Nearest, p.b, p.S, ilim, out, carry)
  {
    var ds, b, i, mlo, mhi := [], p.b, 1, p.mlo, p.mhi;
    while true
      invariant ilim > 0 ==> i <= ilim
      invariant Running(p, ds, b, i, mlo, mhi)
      decreases p.S - mlo
    {
      var dig, r := NextDigit(p.b, p.S, ds, b, i, n);
      ds := ds + [dig];
      var stop, up := Decide(p, dig, r, mlo, mhi);
      if stop {
        out, carry := Stop(p, ds, b, r, i, mlo, mhi, up);
        stopped := true;
        return;
      }
      NothingFitsHere(p, DigVal(ds), r, i, mlo, mhi);
      KeepRunning(p, ds, r, i, mlo, mhi);
      if i == ilim {
        out, carry := Finish(Nearest, ds, r, p.S, p.b, ilim);
        stopped := false;
        return;
      }
      b, mlo, mhi, i := 10 * r, 10 * mlo, 10 * mhi, i + 1;
    }
  }

  /** The stop at digit i: the last digit is stored. */
  method Stop(p: Problem, ds: seq<nat>, b: nat, r: nat, i: nat, mlo: nat, mhi: nat, up: bool) returns (out: seq<nat>, carry: nat)
    requires p.Valid() && After(p.b, p.S, ds, r, i) && At(p, DigVal(ds), r, i, mlo, mhi)
    requires b == Times(ds[|ds| - 1], p.S) + r && Decided(p, ds[|ds| - 1], r, mlo, mhi, up)
    requires FailedBefore(p, b, i, mlo, mhi) && (i == 1 ==> b == p.b) && NothingFitsBelow(p, i)
    ensures Shortest(p, out, carry) && |out| == i
  {
    ghost var dig := ds[|ds| - 1];
    StopFits(p, DigVal(ds), b, r, i, mlo, mhi, up, dig);
    LastDigitParity(ds);
    StopTie(p, DigVal(ds), r, i, mlo, mhi, up, dig);
    StopDigit(p, b, r, i, mlo, mhi, up, dig);
    out, carry := LastDigit(ds, up);
  }

  lemma NothingFitsHere(p: Problem, N: nat, r: nat, i: nat, mlo: nat, mhi: nat)
    requires At(p, N, r, i, mlo, mhi) && NothingFitsBelow(p, i)
    requires !Low(r, mlo, p.incl) && !High(r, mhi, p.S, p.incl)
    ensures NothingFitsBelow(p, i + 1)
  {
    forall M: nat
      ensures !Fits(p, M, i)
    {
      NoneFits(p, N, r, i, mlo, mhi, M);
    }
  }

  /** Stores the final digit, or the one above it; a nine can only be raised when it is the first digit. */
  method LastDigit(ds: seq<nat>, up: bool) returns (out: seq<nat>, carry: nat)
    requires |ds| > 0 && AllDigits(ds) && ds[0] != 0
    requires |ds| > 1 && ds[|ds| - 1] == 9 ==> !up
    requires ds[|ds| - 1] == 0 ==> up
    ensures Normal(out) && carry <= 1 && (carry == 1 ==> out == [1]) && |out| == |ds|
    ensures Scale10(DigVal(out), carry) == if up then DigVal(ds) + 1 else DigVal(ds)
  {
    if up {
      var last := |ds| - 1;
      if ds[last] == 9 {
        out, carry := RoundUp(ds);
      } else {
        out, carry := ds[..last] + [ds[last] + 1], 0;
        Increment(ds, |ds|);
        assert ds[..|ds|] == ds;
      }
    } else {
      out, carry := ds, 0;
    }
  }
}
