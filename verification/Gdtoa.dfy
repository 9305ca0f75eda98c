/**
 * gdtoa.c, fixed digits: the string is the magnitude itself rounded down, up or to nearest at the
 * requested place, whatever b and S stand for it.
 */
module Gdtoa {
  import opened Powers
  import opened DigitStrings
  import opened Decimals
  import opened DigitLoops
  import opened Scaling
  import opened DtoaBridge
  import opened Dtoa

  /** N * 10^q is u units rounded to a multiple of 10^q in the given direction. */
  ghost predicate DirectedMultiple(dir: Direction, N: nat, q: int, u: nat) {
    match dir
    case Nearest => NearestMultiple(N, q, u)
    case Down => Decimal(N, q).Order(u) <= 0 && Decimal(N + 1, q).Order(u) > 0
    case Up => Decimal(N, q).Order(u) >= 0 && (N > 0 ==> Decimal(N - 1, q).Order(u) < 0)
  }

  /** The rounded quotient is the rounded magnitude. */
  lemma RoundedIsDirected(dir: Direction, u: nat, b: nat, S: nat, k: int, i: nat, N: nat)
    requires S > 0 && Ratio(b, S, u, k) && i >= 1 && N == Rounded(dir, Scale10(b, i - 1), S)
    ensures DirectedMultiple(dir, N, k - i + 1, u)
  {
    var num := Scale10(b, i - 1);
    match dir {
      case Nearest =>
        RoundedIsNearest(u, b, S, k, i, N);
      case Down =>
        QuotientSteps(num, S, N);
        RatioOrder(N, S, b, u, k, i);
        RatioOrder(N + 1, S, b, u, k, i);
      case Up =>
        CeilingSteps(num, S, N);
        RatioOrder(N, S, b, u, k, i);
        if N > 0 {
          RatioOrder(N - 1, S, b, u, k, i);
        }
    }
  }

  lemma CeilingSteps(num: nat, S: nat, N: nat)
    requires S > 0 && N == Rounded(Up, num, S)
    ensures num <= Times(N, S) && (N > 0 ==> Times(N - 1, S) < num)
  {
    var q := num / S;
    QuotientSteps(num, S, q);
    if N == q && N > 0 {
      TimesSum(N - 1, 1, S);
    }
  }

  lemma QuotientSteps(num: nat, S: nat, q: nat)
    requires S > 0 && q == num / S
    ensures num == Times(q, S) + num % S < Times(q + 1, S)
  {
    DivModIs(num, S);
    TimesIs(q, S);
    TimesSum(q, 1, S);
  }

  /** There is only one. */
  lemma DirectedUnique(dir: Direction, N: nat, M: nat, q: int, u: nat)
    requires DirectedMultiple(dir, N, q, u) && DirectedMultiple(dir, M, q, u)
    ensures N == M
  {
    if dir.Nearest? {
      NearestUnique(N, M, q, u);
    } else if N < M {
      OrderMono(Decimal(N + 1, q), Decimal(M, q), u);
      OrderMono(Decimal(N, q), Decimal(M - 1, q), u);
    } else if M < N {
      OrderMono(Decimal(M + 1, q), Decimal(N, q), u);
      OrderMono(Decimal(M, q), Decimal(N - 1, q), u);
    }
  }

  /** What the digits of DirectedDigits are worth at the last place asked for. */
  lemma DigitsDirected(dir: Direction, u: nat, b: nat, S: nat, k: int, ilim: nat, ds: seq<nat>, carry: nat)
    requires S > 0 && Ratio(b, S, u, k) && ilim >= 1 && RoundedDigits(dir, b, S, ilim, ds, carry)
    ensures DirectedMultiple(dir, Scale10(DigVal(ds), ilim + carry - |ds|), k - ilim + 1, u)
  {
    RoundedIsDirected(dir, u, b, S, k, ilim, Scale10(DigVal(ds), ilim + carry - |ds|));
  }

  /** The string depends on the magnitude only, so with rounding to nearest it is that of dtoa's loop. */
  lemma SameDigits(dir: Direction, u: nat, k: int, ilim: nat, b: nat, S: nat, ds: seq<nat>, carry: nat,
                   b': nat, S': nat, ds': seq<nat>, carry': nat)
    requires S > 0 && S' > 0 && ilim >= 1 && Ratio(b, S, u, k) && Ratio(b', S', u, k)
    requires RoundedDigits(dir, b, S, ilim, ds, carry) && RoundedDigits(dir, b', S', ilim, ds', carry')
    ensures ds == ds' && carry == carry'
  {
    var n, n' := ilim + carry - |ds|, ilim + carry' - |ds'|;
    SameRounded(dir, u, k, ilim, b, S, Scale10(DigVal(ds), n), b', S', Scale10(DigVal(ds'), n'));
    NormalUnique(ds, ds', n, n');
  }

  lemma SameRounded(dir: Direction, u: nat, k: int, ilim: nat, b: nat, S: nat, N: nat, b': nat, S': nat, M: nat)
    requires S > 0 && S' > 0 && ilim >= 1 && Ratio(b, S, u, k) && Ratio(b', S', u, k)
    requires N == Rounded(dir, Scale10(b, ilim - 1), S) && M == Rounded(dir, Scale10(b', ilim - 1), S')
    ensures N == M
  {
    var q := k - ilim + 1;
    RoundedIsDirected(dir, u, b, S, k, ilim, N);
    RoundedIsDirected(dir, u, b', S', k, ilim, M);
    DirectedUnique(dir, N, M, q, u);
  }
}
