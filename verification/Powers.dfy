/**
 * Powers of two and ten, shifts, repeated addition, and the few facts about products and
 * quotients that the other modules share. Each unfolding multiplies by a literal.
 */
module Powers {

  function Pow2(e: nat): nat {
    if e == 0 then 1 else 2 * Pow2(e - 1)
  }

  function Pow10(e: nat): nat {
    if e == 0 then 1 else 10 * Pow10(e - 1)
  }

  lemma {:induction false} Pow2Pos(e: nat)
    ensures Pow2(e) > 0
  {
    if e > 0 {
      Pow2Pos(e - 1);
    }
  }

  /** t shifted left by n bits. */
  function Lsh(t: int, n: nat): (r: int)
    ensures (t > 0 ==> r > 0) && (t == 0 ==> r == 0)
  {
    if n == 0 then t else 2 * Lsh(t, n - 1)
  }

  lemma {:induction false} LshGrows(t: nat, n: nat)
    ensures t <= Lsh(t, n)
  {
    if n > 0 {
      LshGrows(t, n - 1);
    }
  }

  lemma {:induction false} LshAdd(t: int, u: int, n: nat)
    ensures Lsh(t + u, n) == Lsh(t, n) + Lsh(u, n)
    ensures Lsh(t - u, n) == Lsh(t, n) - Lsh(u, n)
  {
    if n > 0 {
      LshAdd(t, u, n - 1);
    }
  }

  lemma {:induction false} LshLsh(t: int, m: nat, n: nat)
    ensures Lsh(Lsh(t, m), n) == Lsh(t, m + n)
  {
    if n > 0 {
      LshLsh(t, m, n - 1);
    }
  }

  lemma {:induction false} LshMono(t: int, n: nat, u: int)
    requires t < u
    ensures Lsh(t, n) < Lsh(u, n)
  {
    if n > 0 {
      LshMono(t, n - 1, u);
    }
  }

  lemma LshLe(t: int, n: nat, u: int)
    requires t <= u
    ensures Lsh(t, n) <= Lsh(u, n)
  {
    if t < u {
      LshMono(t, n, u);
    }
  }

  lemma {:induction false} LshIs(t: int, n: nat)
    ensures Lsh(t, n) == t * Pow2(n)
  {
    if n > 0 {
      LshIs(t, n - 1);
      MulAssoc(2, t, Pow2(n - 1));
    }
  }

  lemma Lsh32(t: int)
    ensures Lsh(t, 32) == 0x1_0000_0000 * t
  {
    LshIs(t, 32);
    Pow2Word();
  }

  lemma {:induction false} LshLonger(m: nat, n: nat)
    requires m <= n
    ensures 0 < Lsh(1, m) <= Lsh(1, n)
  {
    LshLsh(1, m, n - m);
    LshGrows(Lsh(1, m), n - m);
  }

  lemma {:induction false} LshTimes(q: nat, t: int, n: nat)
    ensures Lsh(Times(q, t), n) == Times(q, Lsh(t, n))
  {
    if q > 0 {
      LshTimes(q - 1, t, n);
      LshAdd(t, Times(q - 1, t), n);
    }
  }

  /** t moved up by n 32-bit words; Shl(1, n) is the n-th power of the word base. */
  function Shl(t: int, n: nat): (r: int)
    ensures (t >= 0 ==> r >= 0) && (t == 0 ==> r == 0)
  {
    Lsh(t, 32 * n)
  }

  lemma ShlMono(t: int, n: nat, u: int)
    requires t <= u
    ensures Shl(t, n) <= Shl(u, n)
  {
    if t < u {
      LshMono(t, 32 * n, u);
    }
  }

  lemma ShlLonger(m: nat, n: nat)
    requires m <= n
    ensures 0 < Shl(1, m) <= Shl(1, n)
  {
    LshLonger(32 * m, 32 * n);
  }

  lemma ShlAdd(t: int, u: int, n: nat)
    ensures Shl(t + u, n) == Shl(t, n) + Shl(u, n)
    ensures Shl(t - u, n) == Shl(t, n) - Shl(u, n)
  {
    LshAdd(t, u, 32 * n);
  }

  lemma ShlUp(t: int, n: nat)
    ensures Shl(0x1_0000_0000 * t, n) == Shl(t, n + 1)
  {
    Lsh32(t);
    LshLsh(t, 32, 32 * n);
  }

  lemma ShlTimes(q: nat, t: int, n: nat)
    ensures Shl(Times(q, t), n) == Times(q, Shl(t, n))
  {
    LshTimes(q, t, 32 * n);
  }

  lemma ShlShl(t: int, m: nat, n: nat)
    ensures Shl(Shl(t, m), n) == Shl(t, m + n)
  {
    LshLsh(t, 32 * m, 32 * n);
  }

  lemma {:induction false} Pow2Mono(m: nat, n: nat)
    requires m <= n
    ensures 0 < Pow2(m) <= Pow2(n)
  {
    if n > 0 {
      Pow2Mono(if m < n then m else m - 1, n - 1);
    }
  }

  lemma {:induction false} Pow2Add(m: nat, n: nat)
    ensures Pow2(m + n) == Pow2(m) * Pow2(n)
  {
    if m > 0 {
      Pow2Add(m - 1, n);
      MulAssoc(2, Pow2(m - 1), Pow2(n));
    }
  }

  lemma Pow2Word()
    ensures Pow2(8) == 0x100 && Pow2(24) == 0x100_0000 && Pow2(32) == 0x1_0000_0000
  {
    assert Pow2(8) == 256;
    Pow2Add(8, 8);
    Pow2Add(16, 8);
    Pow2Add(16, 16);
  }

  lemma LshConstants()
    ensures Lsh(1, 27) == 0x800_0000 && Lsh(1, 28) == 0x1000_0000
    ensures Lsh(1, 52) == 0x10_0000_0000_0000 && Lsh(1, 53) == 0x20_0000_0000_0000
  {
    Pow2Word();
    Lsh32(1);
    LshIs(1, 24);
    LshLsh(1, 24, 28);
    assert Lsh(1, 25) == 2 * Lsh(1, 24);
    assert Lsh(1, 26) == 2 * Lsh(1, 25);
    assert Lsh(1, 27) == 2 * Lsh(1, 26);
    LshLsh(1, 28, 24);
    LshIs(Lsh(1, 28), 24);
  }

  lemma MulAssoc(a: int, x: int, y: int)
    ensures a * (x * y) == (a * x) * y == x * (a * y)
  {}

  lemma MulDist(a: int, x: int, y: int)
    ensures a * (x + y) == a * x + a * y
    ensures a * (x - y) == a * x - a * y
  {}

  lemma MulLe(a: nat, x: int, y: int)
    requires x <= y
    ensures a * x <= a * y
  {}

  lemma MulLt(a: nat, x: int, y: int)
    requires x < y && a > 0
    ensures a * x < a * y
  {}

  /** A positive factor can be cancelled. */
  lemma MulCancel(a: nat, x: int, y: int)
    requires a > 0
    ensures a * x < a * y <==> x < y
    ensures a * x == a * y <==> x == y
  {
    if x < y {
      MulLt(a, x, y);
    } else if y < x {
      MulLt(a, y, x);
    }
  }

  lemma MulSmall(k: int, d: int)
    requires d > 0 && -d < k * d < d
    ensures k == 0
  {
    if k >= 1 {
      MulLe(d, 1, k);
    } else if k <= -1 {
      MulLe(d, k, -1);
    }
  }

  lemma DivModIs(a: int, d: int)
    requires d > 0
    ensures a == (a / d) * d + a % d && 0 <= a % d < d
  {}

  /** Quotient and remainder are the only pair with a remainder in range. */
  lemma DivModUnique(a: int, d: int, q: int, r: int)
    requires d > 0 && 0 <= r < d && a == q * d + r
    ensures a / d == q && a % d == r
  {
    DivModIs(a, d);
    var q', r' := a / d, a % d;
    MulDist(d, q', q);
    MulSmall(q' - q, d);
  }

  /** Repeated addition: the product by a small factor, unfolded one addend at a time. */
  function Times(q: nat, s: int): (r: int)
    ensures (s >= 0 ==> r >= 0) && (s == 0 ==> r == 0)
  {
    if q == 0 then 0 else s + Times(q - 1, s)
  }

  lemma {:induction false} TimesIs(q: nat, s: int)
    ensures Times(q, s) == q * s
  {
    if q > 0 {
      TimesIs(q - 1, s);
      MulDist(s, q - 1, 1);
    }
  }

  lemma {:induction false} TimesAdd(q: nat, s: int, t: int)
    ensures Times(q, s + t) == Times(q, s) + Times(q, t)
  {
    if q > 0 {
      TimesAdd(q - 1, s, t);
    }
  }

  lemma {:induction false} TimesSum(m: nat, n: nat, s: int)
    ensures Times(m + n, s) == Times(m, s) + Times(n, s)
  {
    if m > 0 {
      TimesSum(m - 1, n, s);
    }
  }

  lemma {:induction false} TimesTen(m: nat, s: int)
    ensures Times(10 * m, s) == 10 * Times(m, s)
  {
    if m > 0 {
      TimesTen(m - 1, s);
      TimesSum(10, 10 * (m - 1), s);
      TimesIs(10, s);
    }
  }

  /** The high part above s bits and the s low bits. */
  method SplitBits(v: int, s: nat) returns (hi: int, lo: int)
    requires v >= 0
    ensures v == Lsh(hi, s) + lo && 0 <= lo < Lsh(1, s) && hi >= 0
  {
    Pow2Pos(s);
    hi, lo := v / Pow2(s), v % Pow2(s);
    DivModIs(v, Pow2(s));
    LshIs(hi, s);
    LshIs(1, s);
    QuotientNotNegative(v, Pow2(s), hi, lo);
  }

  lemma QuotientNotNegative(v: nat, d: nat, hi: int, lo: int)
    requires v == hi * d + lo && lo < d
    ensures hi >= 0
  {
    if hi < 0 {
      MulLe(d, hi, -1);
    }
  }

  /** A shift can be cancelled. */
  lemma LshCancel(t: int, u: int, n: nat)
    requires Lsh(t, n) == Lsh(u, n)
    ensures t == u
  {
    if t < u {
      LshMono(t, n, u);
    } else if u < t {
      LshMono(u, n, t);
    }
  }

  lemma {:induction false} TimesLsh(N: nat, S: nat, n: nat)
    ensures Lsh(Times(N, S), n) == Times(Lsh(N, n), S)
  {
    if n > 0 {
      TimesLsh(N, S, n - 1);
      TimesSum(Lsh(N, n - 1), Lsh(N, n - 1), S);
    }
  }
}
