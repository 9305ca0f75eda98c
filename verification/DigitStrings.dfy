/** Decimal digit strings: their value, the carry ripple and the zero chopping of the conversions. */
module DigitStrings {
  import opened Powers

  /** x * 10^n. */
  function Scale10(x: int, n: nat): (r: int)
    ensures (x > 0 ==> r > 0) && (x == 0 ==> r == 0)
  {
    if n == 0 then x else 10 * Scale10(x, n - 1)
  }

  lemma {:induction false} Scale10Grows(x: nat, n: nat)
    ensures x <= Scale10(x, n)
  {
    if n > 0 {
      Scale10Grows(x, n - 1);
    }
  }

  lemma {:induction false} Scale10Add(x: int, y: int, n: nat)
    ensures Scale10(x + y, n) == Scale10(x, n) + Scale10(y, n)
  {
    if n > 0 {
      Scale10Add(x, y, n - 1);
    }
  }

  lemma {:induction false} Scale10Scale10(x: int, m: nat, n: nat)
    ensures Scale10(Scale10(x, m), n) == Scale10(x, m + n)
  {
    if n > 0 {
      Scale10Scale10(x, m, n - 1);
    }
  }

  lemma {:induction false} Scale10Mono(x: int, n: nat, y: int)
    requires x < y
    ensures Scale10(x, n) < Scale10(y, n)
  {
    if n > 0 {
      Scale10Mono(x, n - 1, y);
    }
  }

  lemma {:induction false} Scale10Is(x: int, n: nat)
    ensures Scale10(x, n) == x * Pow10(n)
  {
    if n > 0 {
      Scale10Is(x, n - 1);
      MulAssoc(10, x, Pow10(n - 1));
    }
  }

  lemma {:induction false} Scale10Times(x: int, q: nat, n: nat)
    ensures Scale10(Times(q, x), n) == Times(q, Scale10(x, n))
  {
    if q > 0 {
      Scale10Times(x, q - 1, n);
      Scale10Add(x, Times(q - 1, x), n);
    }
  }

  ghost predicate AllDigits(ds: seq<nat>) {
    forall i :: 0 <= i < |ds| ==> ds[i] <= 9
  }

  /** What the conversions return: no leading and no trailing zero. */
  ghost predicate Normal(ds: seq<nat>) {
    |ds| > 0 && AllDigits(ds) && ds[0] != 0 && ds[|ds| - 1] != 0
  }

  /** The digits read as one integer. */
  function DigVal(ds: seq<nat>): nat {
    if |ds| == 0 then 0 else 10 * DigVal(ds[..|ds| - 1]) + ds[|ds| - 1]
  }

  lemma DigValPush(ds: seq<nat>, d: nat)
    ensures DigVal(ds + [d]) == 10 * DigVal(ds) + d
  {
    assert (ds + [d])[..|ds|] == ds;
  }

  lemma LastDigitMod(ds: seq<nat>)
    requires |ds| > 0 && ds[|ds| - 1] <= 9
    ensures DigVal(ds) % 10 == ds[|ds| - 1]
  {}

  lemma LastDigitParity(ds: seq<nat>)
    requires |ds| > 0
    ensures DigVal(ds) % 2 == ds[|ds| - 1] % 2
  {
    EvenPlus(5 * DigVal(ds[..|ds| - 1]), ds[|ds| - 1]);
  }

  lemma EvenPlus(h: int, x: int)
    ensures (2 * h + x) % 2 == x % 2
  {}

  lemma {:induction false} DigValBound(ds: seq<nat>)
    requires AllDigits(ds)
    ensures DigVal(ds) < Scale10(1, |ds|)
    ensures |ds| > 0 && ds[0] != 0 ==> Scale10(1, |ds| - 1) <= DigVal(ds)
  {
    if |ds| > 0 {
      DigValBound(ds[..|ds| - 1]);
    }
  }

  /** Two zero-free-ended strings denoting the same number are the same string with the same exponent. */
  lemma {:induction false} NormalUnique(a: seq<nat>, b: seq<nat>, m: nat, n: nat)
    requires Normal(a) && Normal(b) && Scale10(DigVal(a), m) == Scale10(DigVal(b), n)
    ensures a == b && m == n
    decreases |a| + m
  {
    if m > 0 && n > 0 {
      NormalUnique(a, b, m - 1, n - 1);
    } else if m == 0 && n == 0 {
      SameValue(a, b);
    } else if m > 0 {
      NoFactorTen(b, Scale10(DigVal(a), m - 1));
    } else {
      NoFactorTen(a, Scale10(DigVal(b), n - 1));
    }
  }

  lemma NoFactorTen(a: seq<nat>, x: int)
    requires Normal(a)
    ensures DigVal(a) != 10 * x
  {
    var n := |a| - 1;
    LastOfTen(DigVal(a[..n]), x, a[n]);
  }

  lemma LastOfTen(p: int, x: int, last: int)
    requires 1 <= last <= 9
    ensures 10 * p + last != 10 * x
  {}

  lemma {:induction false} SameValue(a: seq<nat>, b: seq<nat>)
    requires AllDigits(a) && AllDigits(b) && DigVal(a) == DigVal(b)
    requires (|a| > 0 ==> a[0] != 0) && (|b| > 0 ==> b[0] != 0)
    ensures a == b
  {
    DigValBound(a);
    DigValBound(b);
    if |a| > 0 && |b| > 0 {
      var m, n := |a| - 1, |b| - 1;
      Positive(a);
      Positive(b);
      SameValue(a[..m], b[..n]);
      assert a == a[..m] + [a[m]] && b == b[..n] + [b[n]];
    } else if |a| > 0 {
      Positive(a);
    } else if |b| > 0 {
      Positive(b);
    }
  }

  lemma Positive(a: seq<nat>)
    requires AllDigits(a) && |a| > 0 && a[0] != 0
    ensures DigVal(a) > 0
  {
    DigValBound(a);
  }

  /** A last digit that completes to ten (with c added) or to zero moves into the scale. */
  lemma ShorterPrefix(ds: seq<nat>, s: nat, c: nat, n: nat)
    requires 0 < s <= |ds| && c <= 1 && ds[s - 1] == 9 * c
    ensures Scale10(DigVal(ds[..s]) + c, n) == Scale10(DigVal(ds[..s - 1]) + c, n + 1)
  {
    assert ds[..s][..s - 1] == ds[..s - 1];
    Scale10Scale10(DigVal(ds[..s - 1]) + c, 1, n);
  }

  /** The first s digits plus c, moved up, are the whole plus c. */
  ghost predicate Shortened(ds: seq<nat>, s: nat, c: nat)
    requires s <= |ds|
  {
    Scale10(DigVal(ds[..s]) + c, |ds| - s) == DigVal(ds) + c
  }

  lemma ShortenStep(ds: seq<nat>, s: nat, c: nat)
    requires 0 < s <= |ds| && c <= 1 && ds[s - 1] == 9 * c && Shortened(ds, s, c)
    ensures Shortened(ds, s - 1, c)
  {
    ShorterPrefix(ds, s, c, |ds| - s);
  }

  lemma Increment(ds: seq<nat>, s: nat)
    requires 0 < s <= |ds|
    ensures DigVal(ds[..s - 1] + [ds[s - 1] + 1]) == DigVal(ds[..s]) + 1
  {
    DigValPush(ds[..s - 1], ds[s - 1] + 1);
    assert ds[..s][..s - 1] == ds[..s - 1];
  }

  /**
   * roundoff: drops trailing nines and adds one to the digit before them; when every digit is
   * a nine the result is "1" and the decimal exponent grows (carry == 1).
   */
  method RoundUp(ds: seq<nat>) returns (out: seq<nat>, carry: nat)
    requires |ds| > 0 && AllDigits(ds) && ds[0] != 0
    ensures Normal(out) && carry <= 1 && |out| <= |ds|
    ensures carry == 1 <==> forall i :: 0 <= i < |ds| ==> ds[i] == 9
    ensures carry == 1 ==> out == [1]
    ensures Scale10(DigVal(out), |ds| + carry - |out|) == DigVal(ds) + 1
  {
    var s := SkipNines(ds);
    if s == 0 {
      return [1], 1;
    }
    out := Raise(ds, s);
    carry := 0;
  }

  /** Steps back over trailing nines. */
  method SkipNines(ds: seq<nat>) returns (s: nat)
    ensures s <= |ds| && (s > 0 ==> ds[s - 1] != 9) && forall i :: s <= i < |ds| ==> ds[i] == 9
    ensures Shortened(ds, s, 1)
  {
    s := |ds|;
    assert ds[..s] == ds;
    while s > 0 && ds[s - 1] == 9
      invariant 0 <= s <= |ds| && Shortened(ds, s, 1)
      invariant forall i :: s <= i < |ds| ==> ds[i] == 9
    {
      ShortenStep(ds, s, 1);
      s := s - 1;
    }
  }

  /** The first s digits with the last of them raised. */
  method Raise(ds: seq<nat>, s: nat) returns (out: seq<nat>)
    requires 0 < s <= |ds| && AllDigits(ds) && ds[0] != 0 && ds[s - 1] < 9
    ensures Normal(out) && |out| == s && DigVal(out) == DigVal(ds[..s]) + 1
  {
    out := ds[..s - 1] + [ds[s - 1] + 1];
    Increment(ds, s);
  }

  /** trimzeros: drops trailing zeros. */
  method TrimZeros(ds: seq<nat>) returns (out: seq<nat>)
    requires |ds| > 0 && AllDigits(ds) && ds[0] != 0
    ensures Normal(out) && |out| <= |ds|
    ensures Scale10(DigVal(out), |ds| - |out|) == DigVal(ds)
  {
    var s := |ds|;
    assert ds[..s] == ds;
    while ds[s - 1] == 0
      invariant 1 <= s <= |ds| && Shortened(ds, s, 0)
      decreases s
    {
      ShortenStep(ds, s, 0);
      s := s - 1;
    }
    out := ds[..s];
  }
}
