/**
 * The digit loops of dtoa.c and gdtoa.c that generate a fixed number of digits on bignums, with
 * rounding to nearest or in a given direction.
 * A conversion starts from b / S in [1, 10); i digits leave a remainder below S.
 */
module DigitLoops {
  import opened Powers
  import opened Bignums
  import opened DigitStrings

  /** N is what i digits of b0 / S amount to, r is what they leave over. */
  ghost predicate Remainder(b0: nat, S: nat, N: nat, r: nat, i: nat)
    requires i >= 1
  {
    Scale10(b0, i - 1) == Times(N, S) + r && r < S
  }

  lemma RemainderStep(b0: nat, S: nat, N: nat, r: nat, i: nat, dig: nat, r': nat)
    requires i >= 1 && Remainder(b0, S, N, r, i)
    requires 10 * r == Times(dig, S) + r' && r' < S
    ensures Remainder(b0, S, 10 * N + dig, r', i + 1)
  {
    TimesTen(N, S);
    TimesSum(10 * N, dig, S);
  }

  /** State before the i-th digit: b is b0, or ten times the remainder of the digits so far. */
  ghost predicate Before(b0: nat, S: nat, ds: seq<nat>, b: nat, i: nat) {
    && 1 <= i == |ds| + 1 && AllDigits(ds) && b < 10 * S
    && (i == 1 ==> b == b0 >= S)
    && (i > 1 ==> ds[0] != 0 && exists r: nat :: b == 10 * r && Remainder(b0, S, DigVal(ds), r, i - 1))
  }

  /** State after the i-th digit. */
  ghost predicate After(b0: nat, S: nat, ds: seq<nat>, r: nat, i: nat) {
    && 1 <= i == |ds| && AllDigits(ds) && ds[0] != 0
    && Remainder(b0, S, DigVal(ds), r, i)
  }

  /** One digit more: dig is the next digit and r the new remainder. */
  lemma DigitStep(b0: nat, S: nat, ds: seq<nat>, b: nat, i: nat, dig: nat, r: nat)
    requires Before(b0, S, ds, b, i) && b == Times(dig, S) + r && r < S && dig <= 9
    ensures After(b0, S, ds + [dig], r, i)
  {
    DigValPush(ds, dig);
    if i > 1 {
      var r0: nat :| b == 10 * r0 && Remainder(b0, S, DigVal(ds), r0, i - 1);
      RemainderStep(b0, S, DigVal(ds), r0, i - 1, dig, r);
    } else {
      assert ds == [];
    }
  }

  /** One quorem of a digit loop. */
  method NextDigit(b0: nat, S: nat, ds: seq<nat>, b: nat, i: nat, ghost n: nat) returns (dig: nat, r: nat)
    requires Aligned(S, n) && Before(b0, S, ds, b, i)
    ensures After(b0, S, ds + [dig], r, i)
    ensures dig <= 9 && b == Times(dig, S) + r
  {
    dig, r := QuoremValue(b, S, n);
    DigitStep(b0, S, ds, b, i, dig, r);
  }

  lemma Continue(b0: nat, S: nat, ds: seq<nat>, r: nat, i: nat)
    requires After(b0, S, ds, r, i)
    ensures Before(b0, S, ds, 10 * r, i + 1)
  {}

  // ---------------------------------------------------------------- rounding

  /** How gdtoa rounds a magnitude: rdir = 0 to nearest, 1 up, 2 down. */
  datatype Direction = Nearest | Up | Down

  /** The correctly rounded quotient num / den; ties go to the even quotient. */
  function Rounded(dir: Direction, num: nat, den: nat): nat
    requires den > 0
  {
    var q, r := num / den, num % den;
    match dir
    case Down => q
    case Up => if r > 0 then q + 1 else q
    case Nearest => if 2 * r > den || (2 * r == den && q % 2 == 1) then q + 1 else q
  }

  /** The decision the loops take from the last digit and the remainder. */
  predicate RoundsUp(dir: Direction, r: nat, S: nat, dig: nat) {
    match dir
    case Down => false
    case Up => r != 0
    case Nearest => 2 * r > S || (2 * r == S && dig % 2 == 1)
  }

  lemma RoundedIs(dir: Direction, b0: nat, S: nat, ds: seq<nat>, r: nat, i: nat)
    requires S > 0 && After(b0, S, ds, r, i)
    ensures Rounded(dir, Scale10(b0, i - 1), S)
            == DigVal(ds) + if RoundsUp(dir, r, S, ds[|ds| - 1]) then 1 else 0
  {
    LastDigitMod(ds);
    RoundedFrom(dir, Scale10(b0, i - 1), S, DigVal(ds), r, ds[|ds| - 1]);
  }

  lemma RoundedFrom(dir: Direction, x: nat, S: nat, q: nat, r: nat, dig: nat)
    requires x == Times(q, S) + r && r < S && q % 10 == dig
    ensures Rounded(dir, x, S) == q + if RoundsUp(dir, r, S, dig) then 1 else 0
  {
    QuotientFrom(x, S, q, r);
  }

  lemma QuotientFrom(x: nat, S: nat, q: nat, r: nat)
    requires x == Times(q, S) + r && r < S
    ensures x / S == q && x % S == r
  {
    TimesIs(q, S);
    DivModUnique(x, S, q, r);
  }

  lemma {:induction false} TimesScale10(N: nat, S: nat, n: nat)
    ensures Scale10(Times(N, S), n) == Times(Scale10(N, n), S)
  {
    if n > 0 {
      TimesScale10(N, S, n - 1);
      TimesTen(Scale10(N, n - 1), S);
    }
  }

  /** When the digits come out even, more digits would all be zero. */
  lemma RoundedExact(dir: Direction, b0: nat, S: nat, ds: seq<nat>, i: nat, ilim: nat)
    requires S > 0 && After(b0, S, ds, 0, i) && i <= ilim
    ensures Rounded(dir, Scale10(b0, ilim - 1), S) == Scale10(DigVal(ds), ilim - i)
  {
    var N := DigVal(ds);
    Scale10Scale10(b0, i - 1, ilim - i);
    TimesScale10(N, S, ilim - i);
    QuotientFrom(Scale10(b0, ilim - 1), S, Scale10(N, ilim - i), 0);
  }

  /** out, with its carry, is b0 / S correctly rounded to ilim digits, with no zero at either end. */
  ghost predicate RoundedDigits(dir: Direction, b0: nat, S: nat, ilim: nat, out: seq<nat>, carry: nat)
    requires S > 0 && ilim >= 1
  {
    && Normal(out) && |out| <= ilim && carry <= 1 && (carry == 1 ==> out == [1])
    && Scale10(DigVal(out), ilim + carry - |out|) == Rounded(dir, Scale10(b0, ilim - 1), S)
  }

  /** The tail shared by the fixed loops: carry ripple or zero chopping. */
  method Finish(dir: Direction, ds: seq<nat>, r: nat, S: nat, ghost b0: nat, ghost ilim: nat)
    returns (out: seq<nat>, carry: nat)
    requires S > 0 && After(b0, S, ds, r, ilim)
    ensures RoundedDigits(dir, b0, S, ilim, out, carry)
  {
    RoundedIs(dir, b0, S, ds, r, ilim);
    if RoundsUp(dir, r, S, ds[|ds| - 1]) {
      out, carry := RoundUp(ds);
    } else {
      out := TrimZeros(ds);
      carry := 0;
    }
  }

  /** dtoa.c, modes 2 and 3 on bignums: ilim digits, rounded half to even, stopping early when exact. */
  method FixedDigits(b0: nat, S: nat, ilim: nat, ghost n: nat) returns (out: seq<nat>, carry: nat)
    requires Aligned(S, n) && S <= b0 < 10 * S && ilim >= 1
    ensures S > 0 && RoundedDigits(Nearest, b0, S, ilim, out, carry)
  {
    var ds, b, i := [], b0, 1;
    while true
      invariant i <= ilim && Before(b0, S, ds, b, i) && (i > 1 ==> b > 0)
      decreases ilim - i
    {
      var dig, r := NextDigit(b0, S, ds, b, i, n);
      ds := ds + [dig];
      if r == 0 {
        RoundedExact(Nearest, b0, S, ds, i, ilim);
        return ds, 0;
      }
      if i >= ilim {
        out, carry := Finish(Nearest, ds, r, S, b0, ilim);
        return;
      }
      Continue(b0, S, ds, r, i);
      b, i := 10 * r, i + 1;
    }
  }

  /** gdtoa.c, fixed digits on bignums: always ilim digits, then rounded in the given direction. */
  method DirectedDigits(dir: Direction, b0: nat, S: nat, ilim: nat, ghost n: nat) returns (out: seq<nat>, carry: nat)
    requires Aligned(S, n) && S <= b0 < 10 * S && ilim >= 1
    ensures S > 0 && RoundedDigits(dir, b0, S, ilim, out, carry)
  {
    var ds, b, i := [], b0, 1;
    while true
      invariant i <= ilim && Before(b0, S, ds, b, i)
      decreases ilim - i
    {
      var dig, r := NextDigit(b0, S, ds, b, i, n);
      ds := ds + [dig];
      if i >= ilim {
        out, carry := Finish(dir, ds, r, S, b0, ilim);
        return;
      }
      Continue(b0, S, ds, r, i);
      b, i := 10 * r, i + 1;
    }
  }
}
