/**
 * Positive IEEE doubles by their exponent and fraction fields, the midpoints to their neighbours,
 * and what it means for a decimal to be read back as a given double.
 */
module Doubles {
  import opened Powers
  import opened DigitStrings
  import opened Decimals

  datatype Double = Double(ex: nat, fr: nat) {
    /** A finite double that is not zero. */
    predicate Finite() {
      ex <= 2046 && fr < 0x10_0000_0000_0000 && (ex > 0 || fr > 0)
    }

    /** What rounding can yield: zero, a finite double, or the overflow threshold 2^1024. */
    predicate Candidate() {
      fr < 0x10_0000_0000_0000 && (ex <= 2046 || (ex == 2047 && fr == 0))
    }

    function Mantissa(): nat {
      if ex > 0 then 0x10_0000_0000_0000 + fr else fr
    }

    function Exponent(): nat {
      if ex > 0 then ex else 1
    }

    /** The magnitude in units of 2^-1075. */
    function Units(): nat {
      Lsh(Mantissa(), Exponent())
    }

    /** Half the distance to the next double up. */
    function HalfUp(): nat {
      Lsh(1, Exponent() - 1)
    }

    /** Half the distance to the next double down, which is smaller below a normalised power of two. */
    function HalfDown(): nat {
      if fr == 0 && ex >= 2 then Lsh(1, ex - 2) else HalfUp()
    }

    predicate Even() {
      fr % 2 == 0
    }
  }

  ghost predicate Above(w: Double, d: Double) {
    w.ex > d.ex || (w.ex == d.ex && w.fr > d.fr)
  }

  lemma {:induction false} LshExp(t: nat, m: nat, u: nat, n: nat)
    requires t <= u && m <= n
    ensures Lsh(t, m) <= Lsh(u, n)
  {
    if t < u {
      LshMono(t, m, u);
    }
    LshLsh(u, m, n - m);
    LshGrows(Lsh(u, m), n - m);
  }

  /** With the same exponent, a larger mantissa is at least one last place away. */
  lemma SameExponent(m: nat, n: nat, e: nat)
    requires m < n
    ensures Lsh(m, e) + Lsh(1, e) <= Lsh(n, e)
  {
    LshAdd(m, 1, e);
    LshExp(m + 1, e, n, e);
  }

  /** A mantissa below 2f with a smaller exponent against a mantissa of at least f. */
  lemma SmallerExponent(f: nat, m: nat, e: nat, n: nat, e': nat)
    requires m < 2 * f && f <= n && e < e'
    ensures Lsh(m, e) + Lsh(1, e) <= Lsh(n, e')
    ensures Lsh(m, e) + Lsh(1, e' - 1) <= Lsh(n, e')
    ensures f < n ==> Lsh(m, e) + Lsh(1, e') <= Lsh(n, e')
  {
    SameExponent(m, 2 * f, e);
    SameExponent(m, 2 * f, e' - 1);
    LshExp(2 * f, e, 2 * f, e' - 1);
    LshExp(m, e, m, e' - 1);
    LshLsh(f, 1, e' - 1);
    LshExp(f, e', n, e');
    if f < n {
      SameExponent(f, n, e');
    }
  }

  /** No double lies strictly between a double and the points two half-gaps away. */
  lemma GapUp(w: Double, d: Double)
    requires w.Candidate() && d.Candidate() && Above(w, d)
    ensures d.Units() + 2 * d.HalfUp() <= w.Units()
  {
    UnitInLastPlace(d);
    if w.Exponent() == d.Exponent() {
      SameExponent(d.Mantissa(), w.Mantissa(), d.Exponent());
    } else {
      SmallerExponent(0x10_0000_0000_0000, d.Mantissa(), d.Exponent(), w.Mantissa(), w.Exponent());
    }
  }

  lemma GapDown(w: Double, d: Double)
    requires w.Candidate() && d.Candidate() && Above(d, w)
    ensures w.Units() + 2 * d.HalfDown() <= d.Units()
  {
    UnitInLastPlace(d);
    if w.Exponent() == d.Exponent() {
      SameExponent(w.Mantissa(), d.Mantissa(), d.Exponent());
      HalfPositive(d);
    } else {
      SmallerExponent(0x10_0000_0000_0000, w.Mantissa(), w.Exponent(), d.Mantissa(), d.Exponent());
    }
  }

  /** The next double up and down. */
  function Succ(d: Double): Double {
    if d.fr + 1 == 0x10_0000_0000_0000 then Double(d.ex + 1, 0) else Double(d.ex, d.fr + 1)
  }

  function Pred(d: Double): Double
    requires d.Finite()
  {
    if d.fr == 0 then Double(d.ex - 1, 0xF_FFFF_FFFF_FFFF) else Double(d.ex, d.fr - 1)
  }

  /** Crossing into the next exponent: 2f last places of the lower one are f of the upper one. */
  lemma NextExponent(f: nat, e: nat)
    ensures Lsh(2 * f, e) == Lsh(f, e + 1)
    ensures f > 0 ==> Lsh(2 * f - 1, e) == Lsh(f, e + 1) - Lsh(1, e)
  {
    LshLsh(f, 1, e);
    LshAdd(2 * f, 1, e);
  }

  /** Twice the half-gap is one unit in the last place. */
  lemma UnitInLastPlace(d: Double)
    ensures 2 * d.HalfUp() == Lsh(1, d.Exponent())
    ensures 2 * d.HalfDown() == if d.fr == 0 && d.ex >= 2 then Lsh(1, d.ex - 1) else Lsh(1, d.Exponent())
  {}

  lemma SuccIs(d: Double)
    requires d.Finite()
    ensures Succ(d).Candidate() && Succ(d) != d && Succ(d).Units() == d.Units() + 2 * d.HalfUp()
  {
    UnitInLastPlace(d);
    var f, e := 0x10_0000_0000_0000, d.Exponent();
    if d.fr + 1 == f && d.ex > 0 {
      NextExponent(f, e);
      assert d.Mantissa() == 2 * f - 1;
    } else {
      LshAdd(d.Mantissa(), 1, e);
    }
  }

  lemma PredIs(d: Double)
    requires d.Finite()
    ensures Pred(d).Candidate() && Pred(d) != d && Pred(d).Units() == d.Units() - 2 * d.HalfDown()
  {
    UnitInLastPlace(d);
    var f, e := 0x10_0000_0000_0000, d.Exponent();
    if d.fr == 0 && d.ex >= 2 {
      NextExponent(f, e - 1);
      assert Pred(d).Mantissa() == 2 * f - 1;
    } else {
      assert Pred(d).Mantissa() == d.Mantissa() - 1 && Pred(d).Exponent() == e;
      LshAdd(d.Mantissa(), 1, e);
    }
  }

  /** The distance of x from the double w, on the grid of x. */
  ghost function Off(x: Decimal, w: Double): nat {
    Distance(x.Num(), x.Grid(w.Units()))
  }

  /** x is rounded to d: d is nearest, and even when another double is as near. */
  ghost predicate ReadsBack(x: Decimal, d: Double) {
    forall w: Double :: w.Candidate() && w != d ==>
      Off(x, d) < Off(x, w) || (Off(x, d) == Off(x, w) && d.Mantissa() % 2 == 0)
  }

  /** The last bit of the fraction is the last bit of the mantissa. */
  lemma EvenMantissa(d: Double)
    ensures d.Even() <==> d.Mantissa() % 2 == 0
  {}

  /** x lies between the midpoints to the neighbours of d; incl says whether they belong. */
  ghost predicate InInterval(x: Decimal, d: Double, incl: bool) {
    var lo, hi := x.Order(d.Units() - d.HalfDown()), x.Order(d.Units() + d.HalfUp());
    if incl then lo >= 0 && hi <= 0 else lo > 0 && hi < 0
  }

  lemma HalfPositive(d: Double)
    ensures 0 < d.HalfDown() <= d.HalfUp()
  {
    if d.fr == 0 && d.ex >= 2 {
      LshExp(1, d.ex - 2, 1, d.ex - 1);
    }
  }

  /** The grid keeps distances: h units away on one side, 2h at least on the other. */
  lemma GridMidpoint(x: Decimal, v: int, h: int)
    requires h > 0
    ensures x.Grid(h) > 0
    ensures x.Grid(v + h) == x.Grid(v) + x.Grid(h) && x.Grid(v + 2 * h) == x.Grid(v) + 2 * x.Grid(h)
    ensures x.Grid(v - h) == x.Grid(v) - x.Grid(h) && x.Grid(v - 2 * h) == x.Grid(v) - 2 * x.Grid(h)
  {
    var n := Pos(-x.q);
    Scale10Add(v, h, n);
    Scale10Add(v + h, h, n);
    Scale10Add(v - h, h, n);
    Scale10Add(v - 2 * h, h, n);
  }

  lemma GridMono(x: Decimal, u: int, w: int)
    requires u <= w
    ensures x.Grid(u) <= x.Grid(w)
  {
    if u < w {
      Scale10Mono(u, Pos(-x.q), w);
    }
  }

  /** On one grid: x within the half-gaps up and down of v is nearer to v than to a w two half-gaps away. */
  lemma NearerInside(x: int, v: int, up: int, down: int, w: int, even: bool)
    requires up > 0 && down > 0 && (w >= v + 2 * up || w <= v - 2 * down)
    requires if even then v - down <= x <= v + up else v - down < x < v + up
    ensures Distance(x, v) < Distance(x, w) || (Distance(x, v) == Distance(x, w) && even)
  {}

  /** The same for a decimal on its grid, given the order with the two midpoints. */
  lemma NearerOnGrid(x: Decimal, v: int, up: int, down: int, w: int, even: bool)
    requires up > 0 && down > 0 && (w >= v + 2 * up || w <= v - 2 * down)
    requires var lo, hi := x.Order(v - down), x.Order(v + up);
             if even then lo >= 0 && hi <= 0 else lo > 0 && hi < 0
    ensures var n := x.Num(); var a, b := Distance(n, x.Grid(v)), Distance(n, x.Grid(w)); a < b || (a == b && even)
  {
    GridMidpoint(x, v, up);
    GridMidpoint(x, v, down);
    if w >= v + 2 * up {
      GridMono(x, v + 2 * up, w);
    } else {
      GridMono(x, w, v - 2 * down);
    }
    NearerInside(x.Num(), x.Grid(v), x.Grid(up), x.Grid(down), x.Grid(w), even);
  }

  lemma InsideReadsBack(x: Decimal, d: Double, w: Double)
    requires d.Finite() && w.Candidate() && w != d && InInterval(x, d, d.Even())
    ensures Off(x, d) < Off(x, w) || (Off(x, d) == Off(x, w) && d.Even())
  {
    HalfPositive(d);
    if Above(w, d) {
      GapUp(w, d);
    } else {
      GapDown(w, d);
    }
    NearerOnGrid(x, d.Units(), d.HalfUp(), d.HalfDown(), w.Units(), d.Even());
  }

  lemma NotNearerOutside(x: int, v: int, up: int, down: int, w: int, even: bool)
    requires up > 0 && down > 0 && w == if x > v then v + 2 * up else v - 2 * down
    requires !(if even then v - down <= x <= v + up else v - down < x < v + up)
    ensures !(Distance(x, v) < Distance(x, w) || (Distance(x, v) == Distance(x, w) && even))
  {}

  lemma NotNearerOnGrid(x: Decimal, v: int, up: int, down: int, w: int, even: bool)
    requires up > 0 && down > 0 && w == if x.Num() > x.Grid(v) then v + 2 * up else v - 2 * down
    requires var lo, hi := x.Order(v - down), x.Order(v + up);
             !(if even then lo >= 0 && hi <= 0 else lo > 0 && hi < 0)
    ensures var n := x.Num(); var a, b := Distance(n, x.Grid(v)), Distance(n, x.Grid(w)); !(a < b || (a == b && even))
  {
    GridMidpoint(x, v, up);
    GridMidpoint(x, v, down);
    NotNearerOutside(x.Num(), x.Grid(v), x.Grid(up), x.Grid(down), x.Grid(w), even);
  }

  lemma OutsideNotReadBack(x: Decimal, d: Double)
    requires d.Finite() && !InInterval(x, d, d.Even())
    ensures !ReadsBack(x, d)
  {
    EvenMantissa(d);
    HalfPositive(d);
    var w := if x.Num() > x.Grid(d.Units()) then Succ(d) else Pred(d);
    assert w.Candidate() && w != d && w.Units() == if x.Num() > x.Grid(d.Units())
      then d.Units() + 2 * d.HalfUp() else d.Units() - 2 * d.HalfDown() by {
      SuccIs(d);
      PredIs(d);
    }
    NotNearerOnGrid(x, d.Units(), d.HalfUp(), d.HalfDown(), w.Units(), d.Even());
  }

  /** The rounding interval is exactly the set of decimals that are read back as d. */
  lemma IntervalIsReadsBack(x: Decimal, d: Double)
    requires d.Finite()
    ensures InInterval(x, d, d.Even()) <==> ReadsBack(x, d)
  {
    EvenMantissa(d);
    if InInterval(x, d, d.Even()) {
      forall w: Double | w.Candidate() && w != d
        ensures Off(x, d) < Off(x, w) || (Off(x, d) == Off(x, w) && d.Even())
      {
        InsideReadsBack(x, d, w);
      }
    } else {
      OutsideNotReadBack(x, d);
    }
  }
}
