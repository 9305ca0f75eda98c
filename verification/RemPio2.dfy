/**
 * The argument reduction of __rem_pio2_large.c up to its recomputation test. The doubles of the
 * source hold integers below 2^53 or dyadic fractions, so every step is exact and is modelled on
 * integers: a fraction is counted in units of 2^-W, where W = 24 * jz - q0.
 */
module RemPio2 {
  import opened Powers
  import opened Decimals

  ghost predicate Chunks(s: seq<int>) {
    forall i :: 0 <= i < |s| ==> 0 <= s[i] < 0x100_0000
  }

  /** 24-bit chunks, least significant first, as one number. */
  ghost function Val24(s: seq<int>): int {
    if |s| == 0 then 0 else Val24(s[..|s| - 1]) + Lsh(s[|s| - 1], 24 * (|s| - 1))
  }

  lemma Val24Push(s: seq<int>, i: nat)
    requires i < |s|
    ensures Val24(s[..i + 1]) == Val24(s[..i]) + Lsh(s[i], 24 * i)
  {
    assert s[..i + 1][..i] == s[..i];
  }

  lemma {:induction false} Val24Bound(s: seq<int>)
    requires Chunks(s)
    ensures 0 <= Val24(s) < Lsh(1, 24 * |s|)
  {
    if |s| > 0 {
      var n := |s| - 1;
      Val24Bound(s[..n]);
      ChunkBound(s[n], n);
    }
  }

  lemma ChunkBound(c: int, n: nat)
    requires 0 <= c < 0x100_0000
    ensures 0 <= Lsh(c, 24 * n) && Lsh(c, 24 * n) + Lsh(1, 24 * n) <= Lsh(1, 24 * (n + 1))
  {
    Lsh24(1, n);
    LshAdd(c, 1, 24 * n);
    LshLe(c + 1, 24 * n, 0x100_0000);
  }

  lemma Lsh24(t: int, n: nat)
    ensures Lsh(0x100_0000 * t, 24 * n) == Lsh(t, 24 * (n + 1))
  {
    Pow2Word();
    LshIs(t, 24);
    LshLsh(t, 24, 24 * n);
  }

  // ---------------------------------------------------------------- products

  /** The chunk of 2/pi at index t, zero before the table. */
  function Entry(table: seq<nat>, t: int): nat {
    if 0 <= t < |table| then table[t] else 0
  }

  /** The coefficient of 2^(e0 - 24(m+1)) in the product: all x[j] * table[t] with j + t = m. */
  function Conv(x: seq<nat>, table: seq<nat>, m: int, j: nat): nat
    requires j <= |x|
  {
    if j == 0 then 0 else Conv(x, table, m, j - 1) + x[j - 1] * Entry(table, m - (j - 1))
  }

  lemma {:induction false} ConvBound(x: seq<nat>, table: seq<nat>, m: int, j: nat)
    requires j <= |x| && Chunks(x) && Chunks(table)
    ensures Conv(x, table, m, j) <= j * 0xFFFF_FE00_0001
  {
    if j > 0 {
      ConvBound(x, table, m, j - 1);
      ProductBound(x[j - 1], Entry(table, m - (j - 1)));
    }
  }

  lemma ProductBound(a: nat, b: nat)
    requires a <= 0xFF_FFFF && b <= 0xFF_FFFF
    ensures a * b <= 0xFFFF_FE00_0001
  {
    MulLe(a, b, 0xFF_FFFF);
  }

  /** Where the product starts: the terms before jv are multiples of 8 and are skipped. */
  function SkippedTerms(e0: int): nat {
    if e0 - 3 < 24 then 0 else (e0 - 3) / 24
  }

  lemma FirstExponent(e0: int)
    ensures var q0 := e0 - 24 * (SkippedTerms(e0) + 1); q0 <= 2 && (SkippedTerms(e0) > 0 ==> q0 >= -21)
  {}

  /** f and q of the source: the first jk + 1 coefficients from jv on. */
  method Products(x: seq<nat>, table: seq<nat>, jv: nat, jk: nat) returns (q: array<int>)
    requires 1 <= |x| <= 3 && Chunks(x) && Chunks(table) && jv + jk < |table|
    ensures fresh(q) && q.Length == jk + 1
    ensures forall i :: 0 <= i <= jk ==> q[i] == Conv(x, table, jv + i, |x|) && 0 <= q[i] < 0x4_0000_0000_0000
  {
    var jx := |x| - 1;
    var f := new nat[jx + jk + 1];
    var j := jv - jx;
    for i := 0 to jx + jk + 1
      invariant j == jv - jx + i
      invariant forall m :: 0 <= m < i ==> f[m] == Entry(table, jv - jx + m)
    {
      f[i] := Entry(table, j);
      j := j + 1;
    }
    q := new int[jk + 1];
    for i := 0 to jk + 1
      invariant fresh(q) && forall m :: 0 <= m < jx + jk + 1 ==> f[m] == Entry(table, jv - jx + m)
      invariant forall m :: 0 <= m < i ==> q[m] == Conv(x, table, jv + m, |x|) && 0 <= q[m] < 0x4_0000_0000_0000
    {
      var fw := 0;
      for l := 0 to jx + 1
        invariant fw == Conv(x, table, jv + i, l)
      {
        fw := fw + x[l] * f[jx + i - l];
      }
      ConvBound(x, table, jv + i, |x|);
      q[i] := fw;
    }
  }

  /** sum of q[m] * 2^(24(jz - m)) for m from j to jz. */
  ghost function Tail(q: seq<int>, j: nat, jz: nat): int
    requires jz < |q|
    decreases jz + 1 - j
  {
    if j > jz then 0 else Lsh(q[j], 24 * (jz - j)) + Tail(q, j + 1, jz)
  }

  /** The distilled chunks and the leading part make up the coefficients so far. */
  lemma DistillStep(q: seq<int>, j: nat, jz: nat, z: int, fw: int, v: int, d: int)
    requires 1 <= j <= jz < |q| && z == 0x100_0000 * fw + d
    requires Lsh(z, 24 * (jz - j)) + v == Tail(q, j, jz)
    ensures Lsh(q[j - 1] + fw, 24 * (jz - j + 1)) + (v + Lsh(d, 24 * (jz - j))) == Tail(q, j - 1, jz)
  {
    var i := jz - j;
    LshAdd(0x100_0000 * fw, d, 24 * i);
    Lsh24(fw, i);
    LshAdd(q[j - 1], fw, 24 * (i + 1));
  }

  /**
   * Breaks q into 24-bit chunks from the low end. The leading part z and the chunks together are
   * worth exactly the coefficients, and everything fits the types of the source.
   */
  method Distill(q: array<int>, jz: nat, iq: array<int>) returns (z: int)
    requires jz < q.Length && jz <= iq.Length && q != iq
    requires forall m :: 0 <= m <= jz ==> 0 <= q[m] < 0x4_0000_0000_0000
    modifies iq
    ensures Chunks(iq[..jz]) && 0 <= z < 0x8_0000_0000_0000
    ensures Lsh(z, 24 * jz) + Val24(iq[..jz]) == Tail(q[..], 0, jz)
  {
    ghost var qs := q[..];
    z := q[jz];
    var i, j := 0, jz;
    while j > 0
      invariant 0 <= j && i == jz - j && q[..] == qs && 0 <= z < 0x8_0000_0000_0000
      invariant Chunks(iq[..i])
      invariant Lsh(z, 24 * i) + Val24(iq[..i]) == Tail(qs, j, jz)
    {
      var fw := z / 0x100_0000;
      assert 0 <= fw < 0x8000_0000;  // the int32_t cast is exact
      ghost var v := Val24(iq[..i]);
      iq[i] := z - 0x100_0000 * fw;
      DistillStep(qs, j, jz, z, fw, v, z - 0x100_0000 * fw);
      DistillPush(iq[..], i, v);
      assert iq[..i + 1] == iq[..][..i + 1];
      z := q[j - 1] + fw;
      i, j := i + 1, j - 1;
    }
  }

  lemma DistillPush(s: seq<int>, i: nat, v: int)
    requires i < |s| && v == Val24(s[..i])
    ensures Val24(s[..i + 1]) == v + Lsh(s[i], 24 * i)
  {
    Val24Push(s, i);
  }

  // ---------------------------------------------------------------- integer part and nearest integer

  /** z in units of 2^-s, reduced modulo 8 and split into its integer and its fraction. */
  method TrimInteger(v: int, s: nat) returns (n: int, zi: int, ghost c: int)
    requires v >= 0
    ensures v == Lsh(8 * c + n, s) + zi && 0 <= n < 8 && 0 <= zi < Lsh(1, s)
  {
    var hi, rem := SplitBits(v, s + 3);
    c := hi;
    n, zi := SplitBits(rem, s);
    TrimIs(hi, rem, n, zi, s);
  }

  lemma TrimIs(c: int, rem: int, n: int, zi: int, s: nat)
    requires rem == Lsh(n, s) + zi && 0 <= zi && rem < Lsh(1, s + 3)
    ensures Lsh(c, s + 3) + rem == Lsh(8 * c + n, s) + zi && n < 8
  {
    Lsh3(c);
    Lsh3(1);
    LshLsh(c, 3, s);
    LshLsh(1, 3, s);
    LshAdd(8 * c, n, s);
    if n >= 8 {
      LshLe(8, s, n);
    }
  }

  lemma Lsh3(t: int)
    ensures Lsh(t, 3) == 8 * t
  {
    assert Lsh(t, 1) == 2 * t;
    assert Lsh(t, 2) == 2 * Lsh(t, 1);
  }

  /** What the fraction is worth in units of 2^-W: z and the chunks. */
  ghost function Fraction(zi: int, iq: seq<int>): int {
    Lsh(zi, 24 * |iq|) + Val24(iq)
  }

  /** Scaling z by 2^q0 and splitting it keeps its value against the chunks. */
  lemma LeadingValue(z: int, q0: int, jz: nat, s: nat, m: int, zi: int)
    requires jz >= 1 && q0 <= 2 && s == Pos(-q0) && Lsh(z, Pos(q0)) == Lsh(m, s) + zi && 0 <= zi < Lsh(1, s)
    ensures Lsh(z, 24 * jz) == Lsh(m, 24 * jz - q0) + Lsh(zi, 24 * jz)
  {
    if q0 >= 0 {
      LshLsh(z, q0, 24 * jz - q0);
    } else {
      LshAdd(Lsh(m, s), zi, 24 * jz);
      LshLsh(m, s, 24 * jz);
    }
  }

  /** Taking the top q0 bits out of the leading chunk moves them into the integer. */
  lemma TopBits(s: seq<int>, top: int, i: int, q0: int)
    requires |s| >= 1 && 1 <= q0 <= 2 && s[|s| - 1] == top + Lsh(i, 24 - q0)
    ensures Val24(s) == Val24(s[|s| - 1 := top]) + Lsh(i, 24 * |s| - q0)
  {
    var n := |s| - 1;
    var t := s[n := top];
    assert t[..n] == s[..n];
    LshAdd(top, Lsh(i, 24 - q0), 24 * n);
    LshLsh(i, 24 - q0, 24 * n);
  }

  /** A number of chunks against half of 2^(24n - q0) is decided by the leading chunk. */
  lemma TopDecides(s: seq<int>, q0: nat)
    requires |s| >= 1 && Chunks(s) && q0 <= 2
    ensures s[|s| - 1] < Lsh(1, 24 - q0) ==> Val24(s) < Lsh(1, 24 * |s| - q0)
    ensures s[|s| - 1] >= Lsh(1, 23 - q0) <==> Val24(s) >= Lsh(1, 24 * |s| - q0 - 1)
  {
    var n := |s| - 1;
    Val24Bound(s[..n]);
    LeadDecides(s[n], Val24(s[..n]), n, 24 - q0);
    LeadDecides(s[n], Val24(s[..n]), n, 23 - q0);
  }

  lemma LeadDecides(top: int, low: int, n: nat, w: nat)
    requires 0 <= low < Lsh(1, 24 * n)
    ensures top < Lsh(1, w) <==> low + Lsh(top, 24 * n) < Lsh(1, 24 * n + w)
  {
    LshLsh(1, w, 24 * n);
    if top < Lsh(1, w) {
      LshLe(top + 1, 24 * n, Lsh(1, w));
      LshAdd(top, 1, 24 * n);
    } else {
      LshLe(Lsh(1, w), 24 * n, top);
    }
  }

  /** The value of the product so far, in units of 2^-W. */
  ghost function Total(z: int, iq: seq<int>): int {
    Lsh(z, 24 * |iq|) + Val24(iq)
  }

  /** The fraction and whether it is at least one half, for a negative q0. */
  lemma HalfBySmallQ0(iq: seq<int>, zi: int, s: nat)
    requires s >= 1 && Chunks(iq) && 0 <= zi < Lsh(1, s)
    ensures 0 <= Fraction(zi, iq) < Lsh(1, 24 * |iq| + s)
    ensures 2 * zi >= Lsh(1, s) <==> 2 * Fraction(zi, iq) >= Lsh(1, 24 * |iq| + s)
  {
    Val24Bound(iq);
    LeadDecides(zi, Val24(iq), |iq|, s);
    LeadDecides(zi, Val24(iq), |iq|, s - 1);
    LshLe(0, 24 * |iq|, zi);
  }

  /**
   * "compute n": the integer part modulo 8, the remaining fraction, and the flag that is set when
   * the fraction is at least one half.
   */
  method IntegerPart(z: int, q0: int, jz: nat, iq: array<int>) returns (n: int, zi: int, ih: int, ghost c: int)
    requires 1 <= jz <= iq.Length && q0 <= 2 && z >= 0 && Chunks(iq[..jz])
    modifies iq
    ensures Chunks(iq[..jz]) && 0 <= zi < Lsh(1, Pos(-q0)) && 0 <= ih <= 2 && (ih == 2 ==> q0 < 0)
    ensures old(Total(z, iq[..jz])) == Lsh(8 * c + n, 24 * jz - q0) + Fraction(zi, iq[..jz])
    ensures 0 <= Fraction(zi, iq[..jz]) < Lsh(1, 24 * jz - q0)
    ensures ih > 0 <==> 2 * Fraction(zi, iq[..jz]) >= Lsh(1, 24 * jz - q0)
    ensures q0 < 0 && ih > 0 ==> ih == 2
    ensures q0 > 0 ==> iq[jz - 1] < Lsh(1, 24 - q0)
  {
    var s := Pos(-q0);
    n, zi, c := TrimInteger(Lsh(z, Pos(q0)), s);
    LeadingValue(z, q0, jz, s, 8 * c + n, zi);
    ih := 0;
    if q0 > 0 {
      n, ih := TakeTop(q0, jz, iq, n, z, c);
    } else if q0 == 0 {
      ih := TopFlag(jz, iq);
    } else {
      HalfBySmallQ0(iq[..jz], zi, s);
      if 2 * zi >= Lsh(1, s) {
        ih := 2;
      }
    }
  }

  /** The case q0 = 0: the flag is the top bit of the leading chunk. */
  method TopFlag(jz: nat, iq: array<int>) returns (ih: int)
    requires 1 <= jz <= iq.Length && Chunks(iq[..jz])
    ensures 0 <= ih <= 1 && (ih > 0 <==> 2 * Val24(iq[..jz]) >= Lsh(1, 24 * jz))
    ensures 0 <= Val24(iq[..jz]) < Lsh(1, 24 * jz)
  {
    ghost var now := iq[..jz];
    assert iq[jz - 1] == now[jz - 1];
    Lsh24(1, 0);
    TopDecides(now, 0);
    Val24Bound(now);
    var rest;
    ih, rest := SplitBits(iq[jz - 1], 23);
    TopBitFlag(iq[jz - 1], ih, rest, 24);
  }

  /** The bit below the top of a w-bit value, as the flag. */
  lemma TopBitFlag(v: int, ih: int, lo: int, w: nat)
    requires w >= 1 && 0 <= v < Lsh(1, w) && v == Lsh(ih, w - 1) + lo && 0 <= lo < Lsh(1, w - 1) && ih >= 0
    ensures ih <= 1 && (ih > 0 <==> v >= Lsh(1, w - 1))
  {
    if ih >= 2 {
      LshLe(2, w - 1, ih);
      LshLsh(1, 1, w - 1);
    }
  }

  /** The case q0 > 0: the integer part reaches q0 bits into the leading chunk. */
  method TakeTop(q0: int, jz: nat, iq: array<int>, n0: int, ghost z: int, ghost c: int) returns (n: int, ih: int)
    requires 1 <= jz <= iq.Length && 1 <= q0 <= 2 && Chunks(iq[..jz])
    requires Lsh(z, 24 * jz) == Lsh(8 * c + n0, 24 * jz - q0)
    modifies iq
    ensures Chunks(iq[..jz]) && 0 <= ih <= 1 && iq[jz - 1] < Lsh(1, 24 - q0)
    ensures old(Total(z, iq[..jz])) == Lsh(8 * c + n, 24 * jz - q0) + Val24(iq[..jz])
    ensures 0 <= Val24(iq[..jz]) < Lsh(1, 24 * jz - q0)
    ensures ih > 0 <==> 2 * Val24(iq[..jz]) >= Lsh(1, 24 * jz - q0)
  {
    ghost var was := iq[..jz];
    var i, top := SplitBits(iq[jz - 1], 24 - q0);
    n := n0 + i;
    TopBits(was, top, i, q0);
    LshAdd(8 * c + n0, i, 24 * jz - q0);
    LshLe(0, 24 - q0, i);
    iq[jz - 1] := top;
    ghost var now := iq[..jz];
    assert now == was[jz - 1 := top];
    ih := TakeFlag(top, q0, now);
  }

  /** The flag after the integer bits have been taken. */
  method TakeFlag(top: int, q0: int, ghost now: seq<int>) returns (ih: int)
    requires |now| >= 1 && Chunks(now) && now[|now| - 1] == top && 1 <= q0 <= 2 && 0 <= top < Lsh(1, 24 - q0)
    ensures 0 <= ih <= 1 && 0 <= Val24(now) < Lsh(1, 24 * |now| - q0)
    ensures ih > 0 <==> 2 * Val24(now) >= Lsh(1, 24 * |now| - q0)
  {
    TopDecides(now, q0);
    Val24Bound(now);
    var rest;
    ih, rest := SplitBits(top, 23 - q0);
    TopBitFlag(top, ih, rest, 24 - q0);
  }

  // ---------------------------------------------------------------- complement

  /** After i chunks of the complement: still all zero, or 2^(24i) minus the old value. */
  ghost predicate Complemented(was: seq<int>, now: seq<int>, i: nat, carry: int)
    requires i <= |was| == |now|
  {
    && Chunks(now) && now[i..] == was[i..]
    && if carry == 0 then Val24(was[..i]) == 0 && Val24(now[..i]) == 0
       else carry == 1 && Val24(was[..i]) > 0 && Val24(now[..i]) == Lsh(1, 24 * i) - Val24(was[..i])
  }

  lemma ComplementStep(was: seq<int>, now: seq<int>, i: nat, carry: int, c: int, carry': int)
    requires i < |was| == |now| && Chunks(was) && Complemented(was, now, i, carry)
    requires if carry == 0 then (if was[i] == 0 then c == 0 && carry' == 0 else c == 0x100_0000 - was[i] && carry' == 1)
             else c == 0xFF_FFFF - was[i] && carry' == 1
    ensures Complemented(was, now[i := c], i + 1, carry')
  {
    var next := now[i := c];
    assert next[..i] == now[..i] && next[i + 1..] == now[i..][1..] == was[i + 1..];
    Val24Push(next, i);
    Val24Push(was, i);
    Val24Bound(was[..i]);
    ChunkComplement(was[i], i);
  }

  lemma ChunkComplement(j: int, i: nat)
    requires 0 <= j < 0x100_0000
    ensures Lsh(0x100_0000 - j, 24 * i) == Lsh(1, 24 * (i + 1)) - Lsh(j, 24 * i)
    ensures Lsh(0xFF_FFFF - j, 24 * i) == Lsh(1, 24 * (i + 1)) - Lsh(j, 24 * i) - Lsh(1, 24 * i)
    ensures j > 0 ==> Lsh(j, 24 * i) > 0
  {
    Lsh24(1, i);
    LshAdd(0x100_0000, j, 24 * i);
    LshAdd(0x100_0000 - j, 1, 24 * i);
  }

  /** "compute 1-q" over the chunks; the carry tells whether any of them was not zero. */
  method ComplementChunks(jz: nat, iq: array<int>) returns (carry: int)
    requires jz <= iq.Length && Chunks(iq[..jz])
    modifies iq
    ensures Complemented(old(iq[..jz]), iq[..jz], jz, carry)
  {
    ghost var was := iq[..jz];
    carry := 0;
    var i := 0;
    while i < jz
      invariant 0 <= i <= jz && Complemented(was, iq[..jz], i, carry)
    {
      ghost var now := iq[..jz];
      assert iq[i] == now[i..][0] == was[i..][0] == was[i];
      var j := iq[i];
      ghost var c := if carry != 0 then 0xFF_FFFF - j else if j != 0 then 0x100_0000 - j else 0;
      ComplementStep(was, now, i, carry, c, if carry != 0 || j != 0 then 1 else 0);
      if carry == 0 {
        if j != 0 {
          carry := 1;
          iq[i] := 0x100_0000 - j;
        }
      } else {
        iq[i] := 0xFF_FFFF - j;
      }
      assert iq[..jz] == now[i := c];
      i := i + 1;
    }
  }

  lemma LshSmall(k: int, n: nat)
    requires -Lsh(1, n) < Lsh(k, n) < Lsh(1, n)
    ensures k == 0
  {
    if k >= 1 {
      LshLe(1, n, k);
    } else if k <= -1 {
      LshLe(k, n, -1);
      LshAdd(0, 1, n);
    }
  }

  /** Masking the leading chunk to 24 - q0 bits turns 2^(24n) - v into 2^(24n - q0) - v. */
  lemma MaskedComplement(s: seq<int>, top: int, hi: int, q0: int, v: int)
    requires |s| >= 1 && Chunks(s) && 1 <= q0 <= 2 && s[|s| - 1] == top + Lsh(hi, 24 - q0)
    requires 0 <= top < Lsh(1, 24 - q0) && top < 0x100_0000
    requires Val24(s) == Lsh(1, 24 * |s|) - v && 0 < v < Lsh(1, 24 * |s| - q0)
    ensures Val24(s[|s| - 1 := top]) == Lsh(1, 24 * |s| - q0) - v
  {
    var t := s[|s| - 1 := top];
    MaskedBound(t, q0);
    TopBits(s, top, hi, q0);
    SameResidue(Val24(t), v, hi, q0, 24 * |s| - q0);
  }

  lemma MaskedBound(t: seq<int>, q0: nat)
    requires |t| >= 1 && Chunks(t) && q0 <= 2 && t[|t| - 1] < Lsh(1, 24 - q0)
    ensures 0 <= Val24(t) < Lsh(1, 24 * |t| - q0)
  {
    Val24Bound(t);
    TopDecides(t, q0);
  }

  /** Two numbers below 2^W that are congruent modulo 2^W are equal. */
  lemma SameResidue(t: int, v: int, hi: int, q0: nat, W: nat)
    requires t + Lsh(hi, W) == Lsh(1, W + q0) - v && 0 <= t < Lsh(1, W) && 0 < v < Lsh(1, W)
    ensures t == Lsh(1, W) - v
  {
    var k := Lsh(1, q0) - hi - 1;
    LshLsh(1, q0, W);
    LshAdd(Lsh(1, q0), hi, W);
    LshAdd(Lsh(1, q0) - hi, 1, W);
    LshSmall(k, W);
  }

  lemma ComplementedAll(was: seq<int>, now: seq<int>, carry: int)
    requires |was| == |now| && Complemented(was, now, |was|, carry)
    ensures Chunks(now)
    ensures if carry == 0 then Val24(was) == Val24(now) == 0
            else carry == 1 && Val24(was) > 0 && Val24(now) == Lsh(1, 24 * |was|) - Val24(was)
  {
    assert was[..|was|] == was && now[..|was|] == now;
  }

  /** The switch on q0: keeps 24 - q0 bits of the leading chunk. */
  method MaskTop(q0: int, jz: nat, iq: array<int>, ghost v: int)
    requires 1 <= jz <= iq.Length && 1 <= q0 <= 2 && Chunks(iq[..jz])
    requires Val24(iq[..jz]) == Lsh(1, 24 * jz) - v && 0 < v < Lsh(1, 24 * jz - q0)
    modifies iq
    ensures Chunks(iq[..jz]) && Val24(iq[..jz]) == Lsh(1, 24 * jz - q0) - v
  {
    ghost var now := iq[..jz];
    assert iq[jz - 1] == now[jz - 1];
    var hi, top := SplitBits(iq[jz - 1], 24 - q0);
    LshLe(0, 24 - q0, hi);
    MaskedComplement(now, top, hi, q0, v);
    assert Chunks(now[jz - 1 := top]);
    iq[jz - 1] := top;
    assert iq[..jz] == now[jz - 1 := top];
  }

  /** The complement of the fraction: one minus it, in place. */
  method Complement(q0: int, jz: nat, zi0: int, ih: int, iq: array<int>) returns (zi: int)
    requires 1 <= jz <= iq.Length && q0 <= 2 && Chunks(iq[..jz])
    requires 0 <= zi0 < Lsh(1, Pos(-q0)) && (ih == 2 <==> q0 < 0)
    requires 0 < Fraction(zi0, iq[..jz]) < Lsh(1, 24 * jz - q0)
    modifies iq
    ensures Chunks(iq[..jz]) && Fraction(zi, iq[..jz]) == Lsh(1, 24 * jz - q0) - old(Fraction(zi0, iq[..jz]))
  {
    ghost var was := iq[..jz];
    if ih == 2 {
      var carry := ComplementChunks(jz, iq);
      ComplementedAll(was, iq[..jz], carry);
      zi := ComplementTop(zi0, Pos(-q0), carry, was, iq[..jz]);
    } else {
      FractionOfChunks(was);
      ComplementLow(q0, jz, iq);
      FractionOfChunks(iq[..jz]);
      zi := zi0;
    }
  }

  /** Without a fraction in z, only the chunks are complemented, and masked for a positive q0. */
  method ComplementLow(q0: int, jz: nat, iq: array<int>)
    requires 1 <= jz <= iq.Length && 0 <= q0 <= 2 && Chunks(iq[..jz]) && 0 < Val24(iq[..jz]) < Lsh(1, 24 * jz - q0)
    modifies iq
    ensures Chunks(iq[..jz]) && Val24(iq[..jz]) == Lsh(1, 24 * jz - q0) - old(Val24(iq[..jz]))
  {
    ghost var was := iq[..jz];
    var carry := ComplementChunks(jz, iq);
    ComplementedAll(was, iq[..jz], carry);
    if q0 > 0 {
      MaskTop(q0, jz, iq, Val24(was));
    }
  }

  lemma FractionOfChunks(s: seq<int>)
    ensures Fraction(0, s) == Val24(s)
  {}

  /** The part of z that lies below one, complemented with the carry from the chunks. */
  method ComplementTop(zi0: int, s: nat, carry: int, ghost was: seq<int>, ghost now: seq<int>) returns (zi: int)
    requires |was| == |now|
    requires if carry == 0 then Val24(was) == Val24(now) == 0
             else carry == 1 && Val24(now) == Lsh(1, 24 * |was|) - Val24(was)
    ensures Fraction(zi, now) == Lsh(1, 24 * |was| + s) - Fraction(zi0, was)
  {
    zi := Lsh(1, s) - zi0;
    if carry != 0 {
      zi := zi - 1;
    }
    ComplementLeading(zi0, s, |was|, carry);
  }

  lemma ComplementLeading(zi: int, s: nat, jz: nat, carry: int)
    requires carry == 0 || carry == 1
    ensures Lsh(Lsh(1, s) - zi - carry, 24 * jz)
            == Lsh(1, 24 * jz + s) - Lsh(zi, 24 * jz) - if carry == 1 then Lsh(1, 24 * jz) else 0
  {
    LshLsh(1, s, 24 * jz);
    LshAdd(Lsh(1, s), zi, 24 * jz);
    LshAdd(Lsh(1, s) - zi, carry, 24 * jz);
  }

  /** The integer part, rounded up with the complemented fraction when the fraction is at least one half. */
  method NearestInteger(z: int, q0: int, jz: nat, iq: array<int>) returns (n: int, zi: int, ih: int, ghost c: int)
    requires 1 <= jz <= iq.Length && q0 <= 2 && z >= 0 && Chunks(iq[..jz])
    modifies iq
    ensures Chunks(iq[..jz]) && 0 <= 2 * Fraction(zi, iq[..jz]) <= Lsh(1, 24 * jz - q0)
    ensures old(Total(z, iq[..jz]))
            == Lsh(8 * c + n, 24 * jz - q0) + if ih > 0 then -Fraction(zi, iq[..jz]) else Fraction(zi, iq[..jz])
  {
    n, zi, ih, c := IntegerPart(z, q0, jz, iq);
    if ih > 0 {
      n := n + 1;
      zi := Complement(q0, jz, zi, ih, iq);
      LshAdd(8 * c + (n - 1), 1, 24 * jz - q0);
    }
  }

  // ---------------------------------------------------------------- the reduction

  /** The product of x and 2/pi through coefficient top, in units of the last coefficient. */
  ghost function Product(x: seq<nat>, table: seq<nat>, m: nat, top: nat): int
    decreases top + 1 - m
  {
    if m > top then 0 else Lsh(Conv(x, table, m, |x|), 24 * (top - m)) + Product(x, table, m + 1, top)
  }

  /** n plus or minus the fraction F is the number t modulo 8, and the fraction is at most one half. */
  ghost predicate Reduced(t: int, n: int, ih: int, F: int, W: nat) {
    && 0 <= 2 * F <= Lsh(1, W)
    && exists c :: t == Lsh(8 * c + n, W) + if ih > 0 then -F else F
  }

  lemma {:induction false} TailIsProduct(x: seq<nat>, table: seq<nat>, q: seq<int>, jv: nat, j: nat, jz: nat)
    requires jz < |q| && j <= jz + 1
    requires forall i :: 0 <= i <= jz ==> q[i] == Conv(x, table, jv + i, |x|)
    ensures Tail(q, j, jz) == Product(x, table, jv + j, jv + jz)
    decreases jz + 1 - j
  {
    if j <= jz {
      TailIsProduct(x, table, q, jv, j + 1, jz);
    }
  }

  /** The coefficients before jv contribute a multiple of 8. */
  lemma {:induction false} SkippedAreMultiples(x: seq<nat>, table: seq<nat>, m: nat, jv: nat, jz: nat, q0: int) returns (c: int)
    requires m <= jv && jz >= 1 && -21 <= q0 <= 2
    ensures Product(x, table, m, jv + jz) == Product(x, table, jv, jv + jz) + Lsh(8 * c, 24 * jz - q0)
    decreases jv - m
  {
    if m == jv {
      c := 0;
    } else {
      var c' := SkippedAreMultiples(x, table, m + 1, jv, jz, q0);
      var a, W := Conv(x, table, m, |x|), 24 * jz - q0;
      var r := 24 * (jv + jz - m) - W - 3;
      c := Lsh(a, r) + c';
      LshLsh(a, r, W + 3);
      Lsh3(Lsh(a, r));
      LshLsh(Lsh(a, r), 3, W);
      LshAdd(8 * Lsh(a, r), 8 * c', W);
    }
  }

  /**
   * The first pass of the reduction: x (24-bit chunks, leading exponent e0) times the table is
   * congruent modulo 8 to n plus or minus a fraction of at most one half.
   */
  method Reduce(x: seq<nat>, e0: int, table: seq<nat>, jk: nat)
    returns (n: int, ih: int, zi: int, iq: array<int>, ghost W: nat)
    requires 1 <= |x| <= 3 && Chunks(x) && Chunks(table) && jk >= 1 && SkippedTerms(e0) + jk < |table|
    ensures iq.Length >= jk && Chunks(iq[..jk]) && W == 24 * (SkippedTerms(e0) + jk + 1) - e0
    ensures Reduced(Product(x, table, 0, SkippedTerms(e0) + jk), n, ih, Fraction(zi, iq[..jk]), W)
  {
    var jv := SkippedTerms(e0);
    var q0 := e0 - 24 * (jv + 1);
    FirstExponent(e0);
    W := 24 * jk - q0;
    var z;
    z, iq := Multiply(x, table, jv, jk);
    ghost var c;
    n, zi, ih, c := NearestInteger(z, q0, jk, iq);
    ReducedWithSkipped(x, table, jv, jk, q0, n, ih, Fraction(zi, iq[..jk]), W, c);
  }

  /** The product from coefficient jv on, distilled. */
  method Multiply(x: seq<nat>, table: seq<nat>, jv: nat, jk: nat) returns (z: int, iq: array<int>)
    requires 1 <= |x| <= 3 && Chunks(x) && Chunks(table) && jv + jk < |table|
    ensures fresh(iq) && iq.Length == jk && Chunks(iq[..jk]) && z >= 0
    ensures Total(z, iq[..jk]) == Product(x, table, jv, jv + jk)
  {
    var q := Products(x, table, jv, jk);
    iq := new int[jk];
    z := Distill(q, jk, iq);
    TailIsProduct(x, table, q[..], jv, 0, jk);
  }

  lemma ReducedWithSkipped(x: seq<nat>, table: seq<nat>, jv: nat, jz: nat, q0: int, n: int, ih: int, F: int, W: nat, c: int)
    requires jz >= 1 && q0 <= 2 && (jv > 0 ==> q0 >= -21) && W == 24 * jz - q0
    requires 0 <= 2 * F <= Lsh(1, W)
    requires Product(x, table, jv, jv + jz) == Lsh(8 * c + n, W) + if ih > 0 then -F else F
    ensures Reduced(Product(x, table, 0, jv + jz), n, ih, F, W)
  {
    var d := 0;
    if jv > 0 {
      d := SkippedAreMultiples(x, table, 0, jv, jz, q0);
    }
    LshAdd(8 * c + n, 8 * d, W);
    var total := c + d;
    assert 8 * total + n == 8 * c + n + 8 * d;
    assert Product(x, table, 0, jv + jz) == Lsh(8 * total + n, W) + if ih > 0 then -F else F;
  }
}
