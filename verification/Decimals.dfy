/**
 * Exact comparison of decimals m * 10^q with binary magnitudes counted in units of 2^-1075,
 * half of the smallest positive double. Both sides are brought to one integer grid.
 */
module Decimals {
  import opened Powers
  import opened DigitStrings

  /** The unit is 2^-TINY. */
  const TINY: int := 1075

  /** The positive part. */
  function Pos(q: int): nat {
    if q > 0 then q else 0
  }

  datatype Decimal = Decimal(m: nat, q: int) {
    /** The decimal on its own grid, whose spacing is 10^min(q, 0) units. */
    function Num(): nat {
      Lsh(Scale10(m, Pos(q)), TINY)
    }

    /** u units on the grid of this decimal. */
    function Grid(u: int): int {
      Scale10(u, Pos(-q))
    }

    /** Negative, zero or positive as the decimal is below, equal to or above u units. */
    function Order(u: int): int {
      Sign(Num() - Grid(u))
    }
  }

  function Sign(x: int): int {
    if x < 0 then -1 else if x > 0 then 1 else 0
  }

  ghost function Distance(x: int, y: int): nat {
    if x <= y then y - x else x - y
  }

  lemma SignLsh(x: int, y: int, n: nat)
    ensures Sign(Lsh(x, n) - Lsh(y, n)) == Sign(x - y)
  {
    if x < y {
      LshMono(x, n, y);
    } else if y < x {
      LshMono(y, n, x);
    }
  }

  lemma SignScale10(x: int, y: int, n: nat)
    ensures Sign(Scale10(x, n) - Scale10(y, n)) == Sign(x - y)
  {
    if x < y {
      Scale10Mono(x, n, y);
    } else if y < x {
      Scale10Mono(y, n, x);
    }
  }

  lemma SignTimes(m: nat, n: nat, s: nat)
    requires s > 0
    ensures Sign(Times(m, s) - Times(n, s)) == Sign(m - n)
  {
    TimesIs(m, s);
    TimesIs(n, s);
    MulCancel(s, m, n);
    MulCancel(s, n, m);
  }

  lemma {:induction false} LshScale10(x: int, a: nat, n: nat)
    ensures Lsh(Scale10(x, n), a) == Scale10(Lsh(x, a), n)
  {
    if n > 0 {
      LshScale10(x, a, n - 1);
      LshTen(Scale10(x, n - 1), a);
    }
  }

  lemma {:induction false} LshTen(x: int, a: nat)
    ensures Lsh(10 * x, a) == 10 * Lsh(x, a)
  {
    if a > 0 {
      LshTen(x, a - 1);
    }
  }

  /** m * 10^p * 2^1075 against u * 10^r. */
  function OrderAt(m: nat, u: int, p: nat, r: nat): int {
    Sign(Lsh(Scale10(m, p), TINY) - Scale10(u, r))
  }

  lemma OrderShift(m: nat, u: int, p: nat, r: nat, t: nat)
    ensures OrderAt(m, u, p + t, r + t) == OrderAt(m, u, p, r)
  {
    SignScale10(Lsh(Scale10(m, p), TINY), Scale10(u, r), t);
    LshScale10(Scale10(m, p), TINY, t);
    Scale10Scale10(m, p, t);
    Scale10Scale10(u, r, t);
  }

  /** The order depends only on the difference of the two scales. */
  lemma OrderSame(m: nat, u: int, p: nat, r: nat, p': nat, r': nat)
    requires p + r' == p' + r
    ensures OrderAt(m, u, p, r) == OrderAt(m, u, p', r')
  {
    OrderShift(m, u, p, r, r');
    OrderShift(m, u, p', r', r);
  }

  /** Writing a decimal with n more zeros does not change how it compares. */
  lemma Rescale(x: Decimal, n: nat, u: int)
    ensures Decimal(Scale10(x.m, n), x.q - n).Order(u) == x.Order(u)
  {
    var q := x.q - n;
    Scale10Scale10(x.m, n, Pos(q));
    OrderSame(x.m, u, n + Pos(q), Pos(-q), Pos(x.q), Pos(-x.q));
  }

  lemma OrderMono(x: Decimal, y: Decimal, u: int)
    requires x.q == y.q && x.m <= y.m
    ensures x.Order(u) <= y.Order(u)
  {
    var p := Pos(x.q);
    if x.m < y.m {
      Scale10Mono(x.m, p, y.m);
      LshMono(Scale10(x.m, p), TINY, Scale10(y.m, p));
    }
  }

  lemma OrderUnits(x: Decimal, u: int, w: int)
    requires u <= w
    ensures x.Order(u) >= x.Order(w)
    ensures u < w && x.Order(w) == 0 ==> x.Order(u) > 0
    ensures u < w && x.Order(u) == 0 ==> x.Order(w) < 0
  {
    if u < w {
      Scale10Mono(u, Pos(-x.q), w);
    }
  }
}
