/**
 * fmod.c: the remainder by shift and subtract on IEEE bit patterns, for any fraction width P and
 * exponent width E; fmod is P = 52, E = 11 and fmodf is P = 23, E = 8. Words have 1 + E + P bits.
 */
module Fmod {
  import opened Powers

  datatype Format = Format(P: nat, E: nat) {
    predicate Valid() {
      P >= 1 && E >= 2
    }

    /** The exponent field of infinities and NaNs. */
    function Top(): nat {
      Lsh(1, E) - 1
    }

    /** The number of bits of a word. */
    function Width(): nat {
      1 + E + P
    }
  }

  /** A pattern without its sign, by its two fields. */
  datatype Fields = Fields(ex: nat, fr: nat) {
    ghost predicate Fit(f: Format) {
      ex <= f.Top() && fr < Lsh(1, f.P)
    }

    ghost predicate Finite(f: Format) {
      Fit(f) && ex < f.Top()
    }

    function Pattern(f: Format): nat {
      Lsh(ex, f.P) + fr
    }

    /** The magnitude in units of the smallest subnormal. */
    function Magnitude(f: Format): nat {
      if ex == 0 then fr else Lsh(Lsh(1, f.P) + fr, ex - 1)
    }
  }

  /** The word w has sign s and fields x. */
  ghost predicate Represents(f: Format, w: nat, s: int, x: Fields) {
    0 <= s <= 1 && x.Fit(f) && w == Lsh(s, f.E + f.P) + x.Pattern(f)
  }

  datatype Result = NaN | Bits(w: nat)

  /** Magnitudes are ordered as the patterns are. */
  lemma MagnitudeMono(f: Format, x: Fields, y: Fields)
    requires x.Fit(f) && y.Fit(f) && x.Pattern(f) < y.Pattern(f)
    ensures x.Magnitude(f) < y.Magnitude(f)
  {
    var P := f.P;
    if x.ex > y.ex {
      LshLe(y.ex + 1, P, x.ex);
      LshAdd(y.ex, 1, P);
    } else if x.ex == y.ex {
      if x.ex > 0 {
        LshMono(Lsh(1, P) + x.fr, x.ex - 1, Lsh(1, P) + y.fr);
      }
    } else {
      HigherExponent(P, x, y, f);
    }
  }

  lemma HigherExponent(P: nat, x: Fields, y: Fields, f: Format)
    requires P == f.P && x.fr < Lsh(1, P) && x.ex < y.ex
    ensures x.Magnitude(f) < y.Magnitude(f)
  {
    LshLe(Lsh(1, P), y.ex - 1, Lsh(1, P) + y.fr);
    if x.ex == 0 {
      LshGrows(Lsh(1, P), y.ex - 1);
    } else {
      LshMono(Lsh(1, P) + x.fr, x.ex - 1, Lsh(1, P + 1));
      LshLsh(1, P + 1, x.ex - 1);
      LshLsh(1, P, y.ex - 1);
      LshLonger(P + x.ex, P + y.ex - 1);
    }
  }

  /** The scale that keeps every exponent of the algorithm non-negative. */
  function Scale(f: Format): nat {
    2 * f.P + 2
  }

  /** A mantissa u with exponent e is worth u * 2^(e-1) units; here times 2^Scale. */
  function Scaled(f: Format, u: int, e: int): int
    requires e - 1 + Scale(f) >= 0
  {
    Lsh(u, e - 1 + Scale(f))
  }

  /** The counting loop for a subnormal: how far its fraction is from the implicit bit. */
  method CountShift(f: Format, fr: nat) returns (t: nat)
    requires f.Valid() && 0 < fr < Lsh(1, f.P)
    ensures Lsh(1, f.P) <= Lsh(fr, t + 1) < Lsh(1, f.P + 1) && t < f.P
  {
    var i := Lsh(fr, f.E + 1);
    t := 0;
    LshTop(fr, f, 0);
    while i < Lsh(1, f.E + f.P)
      invariant i == Lsh(fr, f.E + 1 + t) && Lsh(fr, t) < Lsh(1, f.P)
      decreases Lsh(1, f.P) - Lsh(fr, t)
    {
      LshTop(fr, f, t);
      i := 2 * i;
      t := t + 1;
    }
    LshTop(fr, f, t);
    if t >= f.P {
      LshLonger(f.P, t);
      LshLe(1, t, fr);
    }
  }

  /** The word i has its top bit clear exactly when one more shift keeps the fraction below the implicit bit. */
  lemma LshTop(fr: nat, f: Format, t: nat)
    ensures Lsh(fr, f.E + 1 + t) < Lsh(1, f.E + f.P) <==> Lsh(fr, t + 1) < Lsh(1, f.P)
  {
    LshLsh(fr, t + 1, f.E);
    LshLsh(1, f.P, f.E);
    if Lsh(fr, t + 1) < Lsh(1, f.P) {
      LshMono(Lsh(fr, t + 1), f.E, Lsh(1, f.P));
    } else {
      LshLe(Lsh(1, f.P), f.E, Lsh(fr, t + 1));
    }
  }

  /** Shifting the whole word left by more than its sign drops the sign and leaves the shifted fraction. */
  method ShiftOut(f: Format, w: nat, t: nat, ghost s: int, ghost x: Fields) returns (u: nat)
    requires f.Valid() && Represents(f, w, s, x) && x.ex == 0 && Lsh(x.fr, t + 1) < Lsh(1, f.P + 1)
    ensures u == Lsh(x.fr, t + 1)
  {
    var W := f.Width();
    var hi, lo := SplitBits(Lsh(w, t + 1), W);
    assert w == Lsh(s, W - 1) + x.fr;
    SignOut(s, x.fr, t, W);
    LshLonger(f.P + 1, W);
    LowPart(Lsh(s, t), Lsh(x.fr, t + 1), hi, lo, W);
    u := lo;
  }

  lemma SignOut(s: int, fr: int, t: nat, W: nat)
    requires W >= 1
    ensures Lsh(Lsh(s, W - 1) + fr, t + 1) == Lsh(Lsh(s, t), W) + Lsh(fr, t + 1)
  {
    LshAdd(Lsh(s, W - 1), fr, t + 1);
    LshLsh(s, W - 1, t + 1);
    LshLsh(s, t, W);
  }

  lemma LowPart(a: int, b: int, c: int, d: int, n: nat)
    requires Lsh(a, n) + b == Lsh(c, n) + d && 0 <= b < Lsh(1, n) && 0 <= d < Lsh(1, n)
    ensures b == d && a == c
  {
    LshAdd(a, c, n);
    if a > c {
      LshLe(1, n, a - c);
    } else if a < c {
      LshAdd(c, a, n);
      LshLe(1, n, c - a);
    }
  }

  /** The mantissa with its implicit bit and the exponent, which a subnormal makes zero or negative. */
  method Normalise(f: Format, w: nat, x: Fields, ghost s: int) returns (u: nat, e: int)
    requires f.Valid() && Represents(f, w, s, x) && x.Finite(f) && x.Magnitude(f) > 0
    ensures Lsh(1, f.P) <= u < Lsh(1, f.P + 1) && 1 - f.P <= e <= x.ex
    ensures Scaled(f, u, e) == Lsh(x.Magnitude(f), Scale(f))
  {
    if x.ex == 0 {
      var t: int := CountShift(f, x.fr);
      e := -t;
      u := ShiftOut(f, w, -e, s, x);
      LshLsh(x.fr, t + 1, e - 1 + Scale(f));
    } else {
      u, e := Lsh(1, f.P) + x.fr, x.ex;
      LshLsh(u, e - 1, Scale(f));
    }
  }

  /** a is c copies of y and a rest. */
  ghost predicate Rest(a: int, y: int, rest: int) {
    exists c: nat :: a == Times(c, y) + rest
  }

  /** Subtracting y shifted by n takes 2^n copies out. */
  lemma RestSubtract(a: int, y: nat, rest: int, n: nat)
    requires Rest(a, y, rest)
    ensures Rest(a, y, rest - Lsh(y, n))
  {
    var c: nat :| a == Times(c, y) + rest;
    TimesLsh(1, y, n);
    TimesIs(1, y);
    TimesSum(c, Lsh(1, n), y);
    var c': nat := c + Lsh(1, n);
    assert a == Times(c', y) + (rest - Lsh(y, n));
  }

  lemma RestIsMod(a: nat, y: nat, rest: nat)
    requires Rest(a, y, rest) && rest < y
    ensures a % y == rest
  {
    var c: nat :| a == Times(c, y) + rest;
    TimesIs(c, y);
    DivModUnique(a, y, c, rest);
  }

  /** A remainder of shifted numbers is the shifted remainder. */
  lemma ModLsh(a: nat, y: nat, n: nat)
    requires y > 0
    ensures Lsh(y, n) > 0 && Lsh(a, n) % Lsh(y, n) == Lsh(a % y, n)
  {
    var q, r := a / y, a % y;
    DivModIs(a, y);
    TimesIs(q, y);
    LshAdd(Times(q, y), r, n);
    LshTimes(q, y, n);
    LshMono(r, n, y);
    assert Lsh(a, n) == Times(q, Lsh(y, n)) + Lsh(r, n);
    RestIsMod(Lsh(a, n), Lsh(y, n), Lsh(r, n));
  }

  /** The difference of two words with wrap-around, whose top bit is the borrow. */
  method WordSub(f: Format, u: nat, v: nat) returns (i: nat)
    requires f.Valid() && u < Lsh(1, f.P + 2) && v < Lsh(1, f.P + 2)
    ensures i < Lsh(1, f.E + f.P) <==> u >= v
    ensures u >= v ==> i == u - v
  {
    LshLonger(f.P + 2, f.E + f.P);
    i := if u >= v then u - v else u - v + Lsh(1, f.Width());
  }

  /**
   * The long division: ex comes down to ey one step at a time; a result of zero is what the source
   * returns early.
   */
  method Divide(f: Format, ux: nat, ex: int, uy: nat, ey: int, ghost a: nat, ghost y: nat) returns (u: nat)
    requires f.Valid() && 1 - f.P <= ey <= ex
    requires Lsh(1, f.P) <= ux < Lsh(1, f.P + 1) && Lsh(1, f.P) <= uy < Lsh(1, f.P + 1)
    requires a == Scaled(f, ux, ex) && y == Scaled(f, uy, ey)
    ensures u < uy && y > 0 && Scaled(f, u, ey) == a % y
  {
    var e := ex;
    u := ux;
    ghost var K := ey - 1 + Scale(f);
    assert a == Times(0, y) + Lsh(u, K + (e - ey));
    while e > ey
      invariant ey <= e && u < 2 * uy
      invariant Rest(a, y, Lsh(u, K + (e - ey)))
    {
      var i := WordSub(f, u, uy);
      if i < Lsh(1, f.E + f.P) {
        SubtractShifted(a, y, u, uy, K, e - ey);
        if i == 0 {
          DivideDone(a, y, 0, uy, K);
          return 0;
        }
        u := i;
      }
      LshLsh(u, 1, K + (e - ey - 1));
      u := 2 * u;
      e := e - 1;
    }
    var i := WordSub(f, u, uy);
    if i < Lsh(1, f.E + f.P) {
      SubtractShifted(a, y, u, uy, K, 0);
      u := i;
    }
    DivideDone(a, y, u, uy, K);
  }

  lemma SubtractShifted(a: int, y: nat, u: nat, uy: nat, K: nat, n: nat)
    requires y == Lsh(uy, K) && Rest(a, y, Lsh(u, K + n))
    ensures Rest(a, y, Lsh(u - uy, K + n))
  {
    RestSubtract(a, y, Lsh(u, K + n), n);
    LshLsh(uy, K, n);
    LshAdd(u, uy, K + n);
  }

  lemma DivideDone(a: nat, y: nat, u: nat, uy: nat, K: nat)
    requires uy > 0 && y == Lsh(uy, K) && u < uy && (Rest(a, y, Lsh(u, K)) || (u == 0 && Rest(a, y, 0)))
    ensures y > 0 && Lsh(u, K) == a % y
  {
    LshMono(u, K, uy);
    RestIsMod(a, y, Lsh(u, K));
  }

  /** Brings the remainder back to a mantissa with its implicit bit. */
  method Renormalise(f: Format, u0: nat, e0: int, ghost m: nat) returns (u: nat, e: int)
    requires f.Valid() && 0 < u0 < Lsh(1, f.P + 1) && e0 >= 1 - f.P && m > 0
    requires Scaled(f, u0, e0) == Lsh(m, Scale(f))
    ensures Lsh(1, f.P) <= u < Lsh(1, f.P + 1) && 1 - f.P <= e <= e0
    ensures Scaled(f, u, e) == Lsh(m, Scale(f))
  {
    u, e := u0, e0;
    while u < Lsh(1, f.P)
      invariant 0 < u < Lsh(1, f.P + 1) && 1 - f.P <= e <= e0
      invariant Scaled(f, u, e) == Lsh(m, Scale(f))
      decreases e + f.P
    {
      ExponentAbove(f, u, e, m);
      LshLsh(u, 1, e - 2 + Scale(f));
      u, e := 2 * u, e - 1;
    }
  }

  lemma ExponentAbove(f: Format, u: nat, e: int, m: nat)
    requires m > 0 && 0 < u < Lsh(1, f.P) && e >= 1 - f.P && Scaled(f, u, e) == Lsh(m, Scale(f))
    ensures e >= 2 - f.P
  {
    if e == 1 - f.P {
      var n := e - 1 + Scale(f);
      LshMono(u, n, Lsh(1, f.P));
      LshLsh(1, f.P, n);
      LshLe(1, Scale(f), m);
    }
  }

  /** The fields of the result: a normal number, or a subnormal whose dropped bits are all zero. */
  method Pack(f: Format, u: nat, e: int, ghost m: nat) returns (r: Fields)
    requires f.Valid() && Lsh(1, f.P) <= u < Lsh(1, f.P + 1) && 1 - f.P <= e < f.Top()
    requires Scaled(f, u, e) == Lsh(m, Scale(f))
    ensures r.Finite(f) && r.Magnitude(f) == m
  {
    if e > 0 {
      r := Fields(e, u - Lsh(1, f.P));
      LshLsh(u, e - 1, Scale(f));
      LshCancel(Lsh(u, e - 1), m, Scale(f));
    } else {
      var hi, lo := SplitBits(u, -e + 1);
      ExactShift(f, u, e, m, hi, lo);
      r := Fields(0, hi);
    }
  }

  lemma ExactShift(f: Format, u: nat, e: int, m: nat, hi: int, lo: int)
    requires 1 - f.P <= e <= 0 && u < Lsh(1, f.P + 1) && Scaled(f, u, e) == Lsh(m, Scale(f))
    requires u == Lsh(hi, -e + 1) + lo && 0 <= lo < Lsh(1, -e + 1)
    ensures lo == 0 && hi == m && m < Lsh(1, f.P)
  {
    var s, n := -e + 1, e - 1 + Scale(f);
    LshLsh(m, s, n);
    LshCancel(u, Lsh(m, s), n);
    LshAdd(m, hi, s);
    if m > hi {
      LshLe(1, s, m - hi);
    } else if m < hi {
      LshLe(m - hi, s, -1);
      LshAdd(0, 1, s);
    }
    LshLsh(m, 1, s - 1);
    LshGrows(Lsh(m, 1), s - 1);
  }

  /** Takes a word apart. */
  method Unpack(f: Format, w: nat) returns (s: int, x: Fields)
    requires f.Valid() && w < Lsh(1, f.Width())
    ensures Represents(f, w, s, x)
  {
    var a, ex, fr;
    s, a := SplitBits(w, f.E + f.P);
    ex, fr := SplitBits(a, f.P);
    x := Fields(ex, fr);
    LshLsh(1, f.E, f.P);
    if s >= 2 {
      LshLe(2, f.E + f.P, s);
      LshLsh(1, 1, f.E + f.P);
    }
    if ex > f.Top() {
      LshLe(Lsh(1, f.E), f.P, ex);
    }
  }

  /**
   * fmod on bit patterns. The result has the sign of x and its magnitude is exactly |x| mod |y|;
   * an infinite y leaves x as it is; a zero or NaN y, or an x that is not finite, gives NaN.
   */
  method Remainder(f: Format, wx: nat, wy: nat, ghost sx: int, ghost x: Fields, ghost sy: int, ghost y: Fields) returns (r: Result)
    requires f.Valid() && Represents(f, wx, sx, x) && Represents(f, wy, sy, y)
    ensures r.NaN? <==> x.ex == f.Top() || y == Fields(0, 0) || (y.ex == f.Top() && y.fr != 0)
    ensures r.Bits? && y.ex == f.Top() ==> r.w == wx
    ensures r.Bits? && y.ex < f.Top() ==>
      y.Magnitude(f) > 0 && exists z: Fields :: Represents(f, r.w, sx, z) && z.Finite(f) && z.Magnitude(f) == x.Magnitude(f) % y.Magnitude(f)
  {
    WordBound(f, wx, sx, x);
    WordBound(f, wy, sy, y);
    var s, a := Unpack(f, wx);
    var s', b := Unpack(f, wy);
    RepresentsOne(f, wx, sx, x, s, a);
    RepresentsOne(f, wy, sy, y, s', b);
    PatternZero(f, b);
    if b.Pattern(f) == 0 || (b.ex == f.Top() && b.fr != 0) || a.ex == f.Top() {
      r := NaN;
      return;
    }
    MagnitudePositive(f, b);
    if a.Pattern(f) <= b.Pattern(f) {
      if a.Pattern(f) == b.Pattern(f) {
        PatternInjective(f, a, b);
        DivModUnique(a.Magnitude(f), b.Magnitude(f), 1, 0);
        r := Bits(Lsh(s, f.E + f.P));
        assert Represents(f, r.w, sx, Fields(0, 0));
        return;
      }
      MagnitudeMono(f, a, b);
      DivModUnique(a.Magnitude(f), b.Magnitude(f), 0, a.Magnitude(f));
      r := Bits(wx);
      return;
    }
    SmallerExponentField(f, b, a);
    var fields := LongDivision(f, wx, a, wy, b, s, s');
    r := Bits(Lsh(s, f.E + f.P) + fields.Pattern(f));
    assert Represents(f, r.w, sx, fields);
  }

  lemma WordBound(f: Format, w: nat, s: int, x: Fields)
    requires Represents(f, w, s, x)
    ensures w < Lsh(1, f.Width())
  {
    PatternBound(f, x);
    LshLe(s, f.E + f.P, 1);
  }

  /** A word has one sign and one pair of fields. */
  lemma RepresentsOne(f: Format, w: nat, s: int, x: Fields, t: int, y: Fields)
    requires Represents(f, w, s, x) && Represents(f, w, t, y)
    ensures s == t && x == y
  {
    PatternBound(f, x);
    PatternBound(f, y);
    LowPart(s, x.Pattern(f), t, y.Pattern(f), f.E + f.P);
    PatternInjective(f, x, y);
  }

  lemma PatternBound(f: Format, x: Fields)
    requires x.Fit(f)
    ensures x.Pattern(f) < Lsh(1, f.E + f.P)
  {
    LshLe(x.ex + 1, f.P, Lsh(1, f.E));
    LshAdd(x.ex, 1, f.P);
    LshLsh(1, f.E, f.P);
  }

  lemma PatternZero(f: Format, y: Fields)
    ensures y.Pattern(f) == 0 <==> y.ex == 0 && y.fr == 0
  {
    var a := Lsh(y.ex, f.P);
    assert a > 0 || y.ex == 0;
  }

  lemma MagnitudePositive(f: Format, y: Fields)
    requires y != Fields(0, 0)
    ensures y.Magnitude(f) > 0
  {
    if y.ex > 0 {
      LshLonger(0, f.P);
    }
  }

  lemma PatternInjective(f: Format, x: Fields, y: Fields)
    requires x.Fit(f) && y.Fit(f) && x.Pattern(f) == y.Pattern(f)
    ensures x == y
  {
    if x.ex < y.ex {
      LshLe(x.ex + 1, f.P, y.ex);
      LshAdd(x.ex, 1, f.P);
    } else if y.ex < x.ex {
      LshLe(y.ex + 1, f.P, x.ex);
      LshAdd(y.ex, 1, f.P);
    }
  }

  /** |x| > |y|, both finite and y not zero. */
  method LongDivision(f: Format, wx: nat, x: Fields, wy: nat, y: Fields, ghost sx: int, ghost sy: int) returns (r: Fields)
    requires f.Valid() && Represents(f, wx, sx, x) && Represents(f, wy, sy, y)
    requires x.Finite(f) && y.Fit(f) && y != Fields(0, 0) && x.Pattern(f) > y.Pattern(f)
    ensures r.Finite(f) && y.Magnitude(f) > 0 && r.Magnitude(f) == x.Magnitude(f) % y.Magnitude(f)
  {
    LshLonger(2, f.E);
    MagnitudePositive(f, y);
    MagnitudeMono(f, y, x);
    SmallerExponentField(f, y, x);
    var ux, ex := Normalise(f, wx, x, sx);
    var uy, ey := Normalise(f, wy, y, sy);
    ghost var K, X, Y := Scale(f), x.Magnitude(f), y.Magnitude(f);
    ExponentOrder(f, ux, ex, uy, ey, X, Y);
    ModLsh(X, Y, K);
    ghost var m := X % Y;
    var u := Divide(f, ux, ex, uy, ey, Lsh(X, K), Lsh(Y, K));
    if u == 0 {
      LshCancel(m, 0, K);
      return Fields(0, 0);
    }
    var e;
    u, e := Renormalise(f, u, ey, m);
    r := Pack(f, u, e, m);
  }

  lemma SmallerExponentField(f: Format, y: Fields, x: Fields)
    requires y.Fit(f) && x.Fit(f) && y.Pattern(f) < x.Pattern(f)
    ensures y.ex <= x.ex
  {
    if y.ex > x.ex {
      LshLe(x.ex + 1, f.P, y.ex);
      LshAdd(x.ex, 1, f.P);
    }
  }

  /** A larger number has no smaller normalised exponent. */
  lemma ExponentOrder(f: Format, ux: nat, ex: int, uy: nat, ey: int, X: nat, Y: nat)
    requires 1 - f.P <= ex && 1 - f.P <= ey && Y < X
    requires ux < Lsh(1, f.P + 1) && Lsh(1, f.P) <= uy
    requires Scaled(f, ux, ex) == Lsh(X, Scale(f)) && Scaled(f, uy, ey) == Lsh(Y, Scale(f))
    ensures ey <= ex
  {
    LshMono(Y, Scale(f), X);
    if ex < ey {
      var a, b := ex - 1 + Scale(f), ey - 1 + Scale(f);
      LshMono(ux, a, Lsh(1, f.P + 1));
      LshLe(Lsh(1, f.P), b, uy);
      LshLsh(1, f.P + 1, a);
      LshLsh(1, f.P, b);
      LshLonger(f.P + 1 + a, f.P + b);
    }
  }
}
