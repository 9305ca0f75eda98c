/**
 * The coefficients that __rem_pio2_large.c sums are those of a product: all of them together, each
 * at its place, are the chunks of x as one number times the chunks of the table as one number.
 */
module RemPio2Product {
  import opened Powers
  import opened RemPio2

  /** The chunks as one number, most significant first. */
  ghost function Number(s: seq<nat>): int
    requires |s| > 0
  {
    Tail(s, 0, |s| - 1)
  }

  /** The table shifted by s places, as far as place top. */
  ghost function Row(table: seq<nat>, s: nat, m: nat, top: nat): int
    decreases top + 1 - m
  {
    if m > top then 0 else Lsh(Entry(table, m - s), 24 * (top - m)) + Row(table, s, m + 1, top)
  }

  /** The part of the product that the first j chunks of x contribute. */
  ghost function Partial(x: seq<nat>, table: seq<nat>, j: nat, m: nat, top: nat): int
    requires j <= |x|
    decreases top + 1 - m
  {
    if m > top then 0 else Lsh(Conv(x, table, m, j), 24 * (top - m)) + Partial(x, table, j, m + 1, top)
  }

  lemma LshMul(a: int, t: int, n: nat)
    ensures Lsh(a * t, n) == a * Lsh(t, n)
  {
    LshIs(a * t, n);
    LshIs(t, n);
    MulAssoc(a, t, Pow2(n));
  }

  lemma {:induction false} PartialStep(x: seq<nat>, table: seq<nat>, j: nat, m: nat, top: nat)
    requires j < |x|
    ensures Partial(x, table, j + 1, m, top) == Partial(x, table, j, m, top) + x[j] * Row(table, j, m, top)
    decreases top + 1 - m
  {
    if m <= top {
      PartialStep(x, table, j, m + 1, top);
      var e, n, r := Entry(table, m - j), 24 * (top - m), Row(table, j, m + 1, top);
      LshAdd(Conv(x, table, m, j), x[j] * e, n);
      LshMul(x[j], e, n);
      MulDist(x[j], Lsh(e, n), r);
    }
  }

  lemma {:induction false} PartialNone(x: seq<nat>, table: seq<nat>, m: nat, top: nat)
    ensures Partial(x, table, 0, m, top) == 0
    decreases top + 1 - m
  {
    if m <= top {
      PartialNone(x, table, m + 1, top);
    }
  }

  lemma {:induction false} PartialAll(x: seq<nat>, table: seq<nat>, m: nat, top: nat)
    ensures Partial(x, table, |x|, m, top) == Product(x, table, m, top)
    decreases top + 1 - m
  {
    if m <= top {
      PartialAll(x, table, m + 1, top);
    }
  }

  /** Inside the shifted table the row is what is left of the table, moved to its place. */
  lemma {:induction false} RowInside(table: seq<nat>, s: nat, m: nat, top: nat)
    requires |table| > 0 && s <= m && top + 1 >= s + |table|
    ensures Row(table, s, m, top) == Lsh(Tail(table, m - s, |table| - 1), 24 * (top + 1 - s - |table|))
    decreases top + 1 - m
  {
    if m <= top {
      var last, k := |table| - 1, 24 * (top + 1 - s - |table|);
      RowInside(table, s, m + 1, top);
      if m - s <= last {
        LshLsh(table[m - s], 24 * (last - (m - s)), k);
        LshAdd(Lsh(table[m - s], 24 * (last - (m - s))), Tail(table, m - s + 1, last), k);
      }
    }
  }

  lemma {:induction false} RowIs(table: seq<nat>, s: nat, m: nat, top: nat)
    requires |table| > 0 && m <= s && top + 1 >= s + |table|
    ensures Row(table, s, m, top) == Lsh(Number(table), 24 * (top + 1 - s - |table|))
    decreases s - m
  {
    if m == s {
      RowInside(table, s, s, top);
    } else {
      RowIs(table, s, m + 1, top);
    }
  }

  /** The chunks of x before the j-th, at their places. */
  ghost function Head(x: seq<nat>, j: nat): int
    requires j <= |x|
  {
    if j == 0 then 0 else Head(x, j - 1) + Lsh(x[j - 1], 24 * (|x| - j))
  }

  lemma {:induction false} HeadAndTail(x: seq<nat>, j: nat)
    requires |x| > 0 && j <= |x|
    ensures Head(x, j) + Tail(x, j, |x| - 1) == Number(x)
  {
    if j > 0 {
      HeadAndTail(x, j - 1);
    }
  }

  lemma {:induction false} PartialIs(x: seq<nat>, table: seq<nat>, j: nat, top: nat)
    requires j <= |x| && |table| > 0 && |x| > 0 && top == |x| + |table| - 2
    ensures Partial(x, table, j, 0, top) == Head(x, j) * Number(table)
  {
    if j == 0 {
      PartialNone(x, table, 0, top);
    } else {
      PartialIs(x, table, j - 1, top);
      PartialStep(x, table, j - 1, 0, top);
      RowIs(table, j - 1, 0, top);
      RowTimes(x[j - 1], Number(table), 24 * (|x| - j), Head(x, j - 1));
    }
  }

  lemma RowTimes(a: int, t: int, n: nat, h: int)
    ensures h * t + a * Lsh(t, n) == (h + Lsh(a, n)) * t
  {
    LshMul(t, a, n);
    LshMul(a, t, n);
    MulDist(t, h, Lsh(a, n));
  }

  /** All the coefficients together are the product of the two numbers. */
  lemma ProductIs(x: seq<nat>, table: seq<nat>)
    requires |x| > 0 && |table| > 0
    ensures Product(x, table, 0, |x| + |table| - 2) == Number(x) * Number(table)
  {
    var top := |x| + |table| - 2;
    PartialAll(x, table, 0, top);
    PartialIs(x, table, |x|, top);
    HeadAndTail(x, |x|);
  }

  /** Stopping at coefficient top drops only what lies below it. */
  lemma {:induction false} ProductCut(x: seq<nat>, table: seq<nat>, m: nat, top: nat, last: nat)
    requires m <= top + 1 && top <= last
    ensures Product(x, table, m, last)
            == Lsh(Product(x, table, m, top), 24 * (last - top)) + Product(x, table, top + 1, last)
    decreases top + 1 - m
  {
    if m <= top {
      ProductCut(x, table, m + 1, top, last);
      var c, k := Conv(x, table, m, |x|), 24 * (last - top);
      LshLsh(c, 24 * (top - m), k);
      LshAdd(Lsh(c, 24 * (top - m)), Product(x, table, m + 1, top), k);
    }
  }

  /** The coefficients below top amount to less than 3 * 2^24 units of the last one kept. */
  lemma {:induction false} TailBound(x: seq<nat>, table: seq<nat>, m: nat, last: nat)
    requires 1 <= |x| <= 3 && Chunks(x) && Chunks(table) && m <= last + 1
    ensures 0 <= Product(x, table, m, last) <= 0x2FF_FFFD * (Lsh(1, 24 * (last + 1 - m)) - 1)
    decreases last + 1 - m
  {
    if m <= last {
      TailBound(x, table, m + 1, last);
      ConvBound(x, table, m, |x|);
      CoefficientBound(Conv(x, table, m, |x|), last - m);
    }
  }

  lemma CoefficientBound(c: nat, i: nat)
    requires c <= 0x2fffffa000003
    ensures 0 <= Lsh(c, 24 * i) <= 0x2FF_FFFD * (Lsh(1, 24 * (i + 1)) - Lsh(1, 24 * i))
  {
    Lsh24(1, i);
    LshLe(0, 24 * i, c);
    LshLe(c, 24 * i, 0x2FF_FFFD * 0xFF_FFFF);
    LshMul(0x2FF_FFFD * 0xFF_FFFF, 1, 24 * i);
    LshMul(0x100_0000, 1, 24 * i);
  }

  /**
   * What the reduction is for: the number x times the number of the table is n plus or minus the
   * fraction F modulo 8, in units of 2^-W, and a rest of less than 3 * 2^24 units that is all that
   * the coefficients after top contribute. All is counted in units of the last coefficient.
   */
  lemma ReducesNumbers(x: seq<nat>, table: seq<nat>, top: nat, n: int, ih: int, F: int, W: nat) returns (c: int, rest: nat)
    requires 1 <= |x| <= 3 && Chunks(x) && Chunks(table) && top < |table|
    requires Reduced(Product(x, table, 0, top), n, ih, F, W)
    ensures var g := 24 * (|x| + |table| - 2 - top);
            && Number(x) * Number(table) == Lsh(8 * c + n, W + g) + Lsh(if ih > 0 then -F else F, g) + rest
            && 0 <= 2 * F <= Lsh(1, W) && rest < Lsh(0x300_0000, g)
  {
    var last := |x| + |table| - 2;
    var g := 24 * (last - top);
    c :| Product(x, table, 0, top) == Lsh(8 * c + n, W) + if ih > 0 then -F else F;
    rest := Rest(x, table, top, g);
    ShiftSum(8 * c + n, W, if ih > 0 then -F else F, g);
  }

  /** The product of the numbers, cut at coefficient top. */
  lemma Rest(x: seq<nat>, table: seq<nat>, top: nat, g: nat) returns (rest: nat)
    requires 1 <= |x| <= 3 && Chunks(x) && Chunks(table) && top < |table| && g == 24 * (|x| + |table| - 2 - top)
    ensures Number(x) * Number(table) == Lsh(Product(x, table, 0, top), g) + rest && rest < Lsh(0x300_0000, g)
  {
    var last := |x| + |table| - 2;
    ProductIs(x, table);
    ProductCut(x, table, 0, top, last);
    TailBound(x, table, top + 1, last);
    rest := Product(x, table, top + 1, last);
    RestBound(rest, g);
  }

  lemma ShiftSum(a: int, W: nat, f: int, g: nat)
    ensures Lsh(Lsh(a, W) + f, g) == Lsh(a, W + g) + Lsh(f, g)
  {
    LshAdd(Lsh(a, W), f, g);
    LshLsh(a, W, g);
  }

  lemma RestBound(rest: nat, g: nat)
    requires rest <= 0x2FF_FFFD * (Lsh(1, g) - 1)
    ensures rest < Lsh(0x300_0000, g)
  {
    LshMul(0x300_0000, 1, g);
    LshLonger(0, g);
  }
}
