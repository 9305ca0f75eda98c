/**
 * gmisc.c and the bit-array conversion of gdtoa.c: the in-place right shift, the trailing-zero
 * count, and the normalisation that makes a mantissa odd while its exponent absorbs the shift.
 */
module BigintBits {
  import opened Powers
  import opened Bigints

  /** lo0bits: the number of zero bits below the lowest one bit. */
  function Lo0Bits(w: nat): (n: nat)
    requires w > 0
    decreases w
  {
    if w % 2 == 1 then 0 else 1 + Lo0Bits(w / 2)
  }

  /** 32 - hi0bits: the number of bits up to and including the highest one bit. */
  function BitLength(w: nat): (n: nat)
    decreases w
  {
    if w == 0 then 0 else 1 + BitLength(w / 2)
  }

  lemma {:induction false} Lo0BitsIs(w: nat) returns (m: nat)
    requires w > 0
    ensures w == Lsh(m, Lo0Bits(w)) && m % 2 == 1
    decreases w
  {
    if w % 2 == 1 {
      m := w;
    } else {
      m := Lo0BitsIs(w / 2);
    }
  }

  lemma {:induction false} BitLengthIs(w: nat)
    requires w > 0
    ensures BitLength(w) > 0 && Lsh(1, BitLength(w) - 1) <= w < Lsh(1, BitLength(w))
    decreases w
  {
    if w > 1 {
      BitLengthIs(w / 2);
    }
  }

  lemma BitLengthUnique(w: nat, n: nat)
    requires n > 0 && Lsh(1, n - 1) <= w < Lsh(1, n)
    ensures BitLength(w) == n
  {
    LshLonger(0, n - 1);
    BitLengthIs(w);
    if BitLength(w) < n {
      LshLonger(BitLength(w), n - 1);
    } else if n < BitLength(w) {
      LshLonger(n, BitLength(w) - 1);
    }
  }

  lemma {:induction false} ValCons(s: seq<Word>)
    requires |s| > 0
    ensures Val(s) == s[0] + Shl(Val(s[1..]), 1)
    decreases |s|
  {
    var n := |s| - 1;
    if n > 0 {
      ValCons(s[..n]);
      assert s[..n][1..] == s[1..][..n - 1];
      ShlShl(s[n], n - 1, 1);
      ShlAdd(Val(s[1..][..n - 1]), Shl(s[n], n - 1), 1);
    }
  }

  lemma {:induction false} ValDropZeros(s: seq<Word>, j: nat)
    requires j <= |s| && forall i :: 0 <= i < j ==> s[i] == 0
    ensures Val(s) == Shl(Val(s[j..]), j)
    decreases |s|
  {
    if j == |s| {
      ValTrim(s, 0);
    } else {
      var n := |s| - 1;
      ValDropZeros(s[..n], j);
      assert s[..n][j..] == s[j..][..n - j];
      ShlShl(s[n], n - j, j);
      ShlAdd(Val(s[j..][..n - j]), Shl(s[n], n - j), j);
    }
  }

  /** trailz: the number of trailing zero bits; all of them when the number is zero. */
  method Trailz(b: Bigint) returns (n: nat, ghost odd: nat)
    requires b.Valid()
    ensures b.Value() == 0 ==> n == 32 * b.wds
    ensures b.Value() > 0 ==> b.Value() == Lsh(odd, n) && odd % 2 == 1
  {
    n, odd := 0, 0;
    var i := 0;
    while i < b.wds && b.x[i] == 0
      invariant 0 <= i <= b.wds && n == 32 * i
      invariant forall j :: 0 <= j < i ==> b.x[j] == 0
    {
      n := n + 32;
      i := i + 1;
    }
    ghost var s := b.x[..b.wds];
    if i < b.wds {
      n := n + Lo0Bits(b.x[i]);
      odd := OddPart(s, i);
    } else {
      ValTrim(s, 0);
    }
  }

  lemma OddPart(s: seq<Word>, i: nat) returns (m: nat)
    requires i < |s| && s[i] != 0 && forall j :: 0 <= j < i ==> s[j] == 0
    ensures Val(s) == Lsh(m, 32 * i + Lo0Bits(s[i])) && m % 2 == 1
  {
    var t := Lo0Bits(s[i]);
    var o := Lo0BitsIs(s[i]);
    ValDropZeros(s, i);
    ValCons(s[i..]);
    m := LowWord(o, t, Val(s[i..][1..]), s[i]);
    LshLsh(m, t, 32 * i);
  }

  lemma LowWord(o: nat, t: nat, r: nat, w: Word) returns (m: nat)
    requires w == Lsh(o, t) && o % 2 == 1
    ensures w + Shl(r, 1) == Lsh(m, t) && m % 2 == 1
  {
    ShiftInsideWord(o, t);
    m := o + Lsh(r, 32 - t);
    JoinLow(o, t, r, 32 - t);
    LshEven(r, 32 - t);
  }

  lemma JoinLow(o: int, t: nat, r: int, u: nat)
    ensures Lsh(o + Lsh(r, u), t) == Lsh(o, t) + Lsh(r, u + t)
  {
    LshAdd(o, Lsh(r, u), t);
    LshLsh(r, u, t);
  }

  lemma LshEven(r: int, u: nat)
    requires u > 0
    ensures Lsh(r, u) % 2 == 0
  {
    assert Lsh(r, u) == 2 * Lsh(r, u - 1);
  }

  lemma ShiftInsideWord(o: nat, t: nat)
    requires o > 0 && Lsh(o, t) < 0x1_0000_0000
    ensures t < 32
  {
    if t >= 32 {
      LshLsh(o, t - 32, 32);
      Lsh32(Lsh(o, t - 32));
    }
  }

  /** One word of rshift: the low bits lo of the next word h move in above y, the high bits hi stay. */
  lemma ShiftWord(P: nat, Q: nat, h: Word, y: nat, lo: int, hi: int, w: int)
    requires P * Q == 0x1_0000_0000 && P > 0 && y < Q
    requires h == hi * P + lo && 0 <= lo < P && w == y + lo * Q
    ensures 0 <= w < 0x1_0000_0000 && 0 <= hi < Q
    ensures Times(P, w) + 0x1_0000_0000 * Times(P, hi) == Times(P, y) + 0x1_0000_0000 * h
    ensures h != 0 && hi == 0 ==> w != 0
  {
    ShiftWordBounds(P, Q, h, y, lo, hi);
    TimesAdd(P, y, lo * Q);
    ShiftedProduct(P, Q, lo);
    TimesIs(P, hi);
  }

  lemma ShiftedProduct(P: nat, Q: nat, lo: int)
    requires P * Q == 0x1_0000_0000
    ensures Times(P, lo * Q) == 0x1_0000_0000 * lo
  {
    TimesIs(P, lo * Q);
    MulAssoc(lo, P, Q);
  }

  lemma ShiftWordBounds(P: nat, Q: nat, h: Word, y: nat, lo: int, hi: int)
    requires P * Q == 0x1_0000_0000 && P > 0 && y < Q && h == hi * P + lo && 0 <= lo < P
    ensures 0 <= y + lo * Q < 0x1_0000_0000 && 0 <= hi < Q
    ensures h != 0 && hi == 0 ==> y + lo * Q != 0
  {
    MulLe(Q, lo, P - 1);
    MulDist(Q, P, 1);
    if hi >= Q {
      MulLe(P, Q, hi);
    } else if hi < 0 {
      MulLe(P, hi, -1);
    }
    if lo >= 1 {
      MulLe(Q, 1, lo);
    }
  }

  /** After i words: the shifted words and the pending high part y make up the first i + 1 old words. */
  ghost predicate ShiftInv(out: seq<Word>, hi: seq<Word>, P: nat, low: nat, y: nat, i: nat)
    requires i <= |out| && i < |hi|
  {
    Times(P, Val(out[..i])) + Times(P, Shl(y, i)) + low == Val(hi[..i + 1])
  }

  lemma ShiftInvStep(out: seq<Word>, hi: seq<Word>, P: nat, low: nat, y: nat, i: nat, w: Word, y': nat, h: int)
    requires i < |out| && i + 1 < |hi| && h == hi[i + 1]
    requires ShiftInv(out, hi, P, low, y, i)
    requires Times(P, Val(out[..i]) + Shl(w, i)) + Times(P, Shl(y', i + 1))
             == Times(P, Val(out[..i])) + Times(P, Shl(y, i)) + Shl(h, i + 1)
    ensures ShiftInv(out[i := w], hi, P, low, y', i + 1)
  {
    ValReplace(out, i, w);
    ValPrefix(hi, i + 1);
  }

  lemma ValReplace(s: seq<Word>, i: nat, w: Word)
    requires i < |s|
    ensures Val(s[i := w][..i + 1]) == Val(s[..i]) + Shl(w, i)
  {
    assert s[i := w][..i] == s[..i];
    ValPrefix(s[i := w], i);
  }

  lemma ShiftSum(P: nat, a: int, y: int, w: int, y': int, h: int, i: nat)
    requires Times(P, w) + 0x1_0000_0000 * Times(P, y') == Times(P, y) + 0x1_0000_0000 * h
    ensures Times(P, a + Shl(w, i)) + Times(P, Shl(y', i + 1)) == Times(P, a) + Times(P, Shl(y, i)) + Shl(h, i + 1)
  {
    TimesAdd(P, a, Shl(w, i));
    ShiftShl(P, y, w, y', h, i);
  }

  lemma ShiftShl(P: nat, y: int, w: int, y': int, h: int, i: nat)
    requires Times(P, w) + 0x1_0000_0000 * Times(P, y') == Times(P, y) + 0x1_0000_0000 * h
    ensures Times(P, Shl(w, i)) + Times(P, Shl(y', i + 1)) == Times(P, Shl(y, i)) + Shl(h, i + 1)
  {
    ShlTimes(P, w, i);
    ShlTimes(P, y', i + 1);
    ShlTimes(P, y, i);
    ShlAdd(Times(P, w), 0x1_0000_0000 * Times(P, y'), i);
    ShlAdd(Times(P, y), 0x1_0000_0000 * h, i);
    ShlUp(Times(P, y'), i);
    ShlUp(h, i);
  }

  lemma ShiftDone(out: seq<Word>, hi: seq<Word>, P: nat, low: nat, y: Word, i: nat)
    requires i + 1 == |hi| && i < |out| && out[i] == y
    requires ShiftInv(out, hi, P, low, y, i)
    ensures Val(hi) == Times(P, Val(out[..i + 1])) + low
    ensures y == 0 ==> Val(out[..i]) == Val(out[..i + 1])
  {
    assert hi[..i + 1] == hi;
    ValPrefix(out, i);
    TimesAdd(P, Val(out[..i]), Shl(y, i));
  }

  lemma {:induction false} ValSplit(s: seq<Word>, n: nat)
    requires n <= |s|
    ensures Val(s) == Val(s[..n]) + Shl(Val(s[n..]), n)
    decreases |s|
  {
    if n == |s| {
      assert s[..n] == s;
    } else {
      var t := |s| - 1;
      ValSplit(s[..t], n);
      var hi := s[n..];
      assert s[..t][..n] == s[..n] && s[..t][n..] == hi[..t - n] && hi[t - n] == s[t];
      TopMoved(Val(hi[..t - n]), s[t], t - n, n);
    }
  }

  lemma TopMoved(low: int, w: int, i: nat, n: nat)
    ensures Shl(low + Shl(w, i), n) == Shl(low, n) + Shl(w, i + n)
  {
    ShlShl(w, i, n);
    ShlAdd(low, Shl(w, i), n);
  }

  /** Dropping n words and then s bits divides by 2^(32n + s). */
  lemma ShiftQuotient(v: nat, low: nat, h: nat, n: nat, s: nat, q: nat, r: nat, k: nat)
    requires v == low + Shl(h, n) && low < Shl(1, n) && k == 32 * n + s
    requires h == Times(Pow2(s), q) + r && r < Pow2(s)
    ensures Pow2(k) > 0 && v / Pow2(k) == q
  {
    Pow2Add(s, 32 * n);
    LshIs(h, 32 * n);
    LshIs(1, 32 * n);
    TimesIs(Pow2(s), q);
    QuotientOfSum(v, low, h, Pow2(32 * n), Pow2(s), q, r);
  }

  lemma QuotientOfSum(v: nat, low: nat, h: nat, W: nat, P: nat, q: nat, r: nat)
    requires v == low + h * W && low < W && P > 0 && h == q * P + r && r < P
    ensures P * W > 0 && v / (P * W) == q
  {
    MulLe(W, r, P - 1);
    MulDist(W, P, 1);
    MulDist(W, q * P, r);
    MulAssoc(q, P, W);
    MulLe(W, 1, P);
    DivModUnique(v, P * W, q, low + r * W);
  }

  /** (h << (32 - s)) & ALL_ON keeps exactly the low s bits of h, at the top of the word. */
  lemma MaskedShift(h: Word, P: nat, Q: nat)
    requires P > 0 && P * Q == 0x1_0000_0000
    ensures (h * Q) % 0x1_0000_0000 == h % P * Q
  {
    DivModIs(h, P);
    var hi, lo := h / P, h % P;
    MulDist(Q, hi * P, lo);
    MulAssoc(hi, P, Q);
    MulLe(Q, lo, P - 1);
    MulDist(Q, P, 1);
    DivModUnique(h * Q, 0x1_0000_0000, hi, lo * Q);
  }

  /**
   * One step of rshift's word loop: y joined with the low s bits of h, and the bits of h that are
   * left over. The two joined parts have no bit in common, so the bitwise or is a sum.
   */
  method ShiftJoin(y: Word, h: Word, s: nat, ghost a: int, ghost i: nat) returns (w: Word, y': Word)
    requires 0 < s < 32 && y < Pow2(32 - s)
    ensures y' < Pow2(32 - s) && (h != 0 && y' == 0 ==> w != 0)
    ensures Times(Pow2(s), a + Shl(w, i)) + Times(Pow2(s), Shl(y', i + 1))
            == Times(Pow2(s), a) + Times(Pow2(s), Shl(y, i)) + Shl(h, i + 1)
  {
    var P, Q := Pow2(s), Pow2(32 - s);
    Pow2Add(s, 32 - s);
    Pow2Word();
    Pow2Pos(s);
    MaskedShift(h, P, Q);
    DivModIs(h, P);
    var hi := h / P;
    var joined := y + (h * Q) % 0x1_0000_0000;
    ShiftWord(P, Q, h, y, h % P, hi, joined);
    ShiftSum(P, a, y, joined, hi, h, i);
    MulLe(Q, 1, P);
    w, y' := joined, hi;
  }

  /** State of the shifting loop: x1 words written, word n + 1 + x1 of the old contents ox to be read next. */
  ghost predicate Shifting(cur: seq<Word>, ox: seq<Word>, n: nat, m: nat, s: nat, low: nat, y: nat, x1: nat)
    requires |cur| == |ox| && n + x1 < m <= |ox| && s <= 32
  {
    && cur[n + 1 + x1..] == ox[n + 1 + x1..] && y < Pow2(32 - s)
    && ShiftInv(cur, ox[n..m], Pow2(s), low, y, x1)
    && (ox[n + x1] != 0 && y == 0 && x1 > 0 ==> cur[x1 - 1] != 0)
  }

  lemma ShiftingStart(ox: seq<Word>, n: nat, m: nat, s: nat, low: nat, y: nat)
    requires n < m <= |ox| && s <= 32 && y < Pow2(32 - s)
    requires Times(Pow2(s), 0) + Times(Pow2(s), Shl(y, 0)) + low == Shl(ox[n], 0)
    ensures Shifting(ox, ox, n, m, s, low, y, 0)
  {
    var hi := ox[n..m];
    assert hi[..1][..0] == [] && ox[..0] == [];
  }

  lemma ShiftingStep(cur: seq<Word>, ox: seq<Word>, n: nat, m: nat, s: nat, low: nat, y: nat, x1: nat, w: Word, y': nat)
    requires |cur| == |ox| && n + x1 + 1 < m <= |ox| && s <= 32
    requires Shifting(cur, ox, n, m, s, low, y, x1)
    requires y' < Pow2(32 - s) && (ox[n + x1 + 1] != 0 && y' == 0 ==> w != 0)
    requires Times(Pow2(s), Val(cur[..x1]) + Shl(w, x1)) + Times(Pow2(s), Shl(y', x1 + 1))
             == Times(Pow2(s), Val(cur[..x1])) + Times(Pow2(s), Shl(y, x1)) + Shl(ox[n + x1 + 1], x1 + 1)
    ensures Shifting(cur[x1 := w], ox, n, m, s, low, y', x1 + 1)
  {
    ShiftInvStep(cur, ox[n..m], Pow2(s), low, y, x1, w, y', ox[n + x1 + 1]);
    var i := n + 1 + x1;
    assert cur[x1 := w][i + 1..] == cur[i..][1..] == ox[i..][1..] == ox[i + 1..];
  }

  /** The shifting loop of rshift for a shift of n words and 0 < s < 32 bits; returns the new word count. */
  method RshiftBits(b: Bigint, n: nat, s: nat) returns (x1: nat, ghost low: nat)
    requires b.Valid() && n < b.wds && 0 < s < 32
    modifies b.x
    ensures x1 <= b.wds - n && (x1 > 0 ==> b.x[x1 - 1] != 0)
    ensures x1 == 0 ==> b.x[0] == 0
    ensures low < Pow2(s) && old(Val(b.x[n..b.wds])) == Times(Pow2(s), Val(b.x[..x1])) + low
  {
    var y: Word := StartShift(b.x[n], s);
    low := b.x[n] % Pow2(s);
    x1 := 0;
    ghost var ox, m := b.x[..], b.wds;
    ShiftingStart(ox, n, m, s, low, y);
    var x := n + 1;
    while x < b.wds
      invariant x == n + 1 + x1 <= b.wds
      invariant Shifting(b.x[..], ox, n, m, s, low, y, x1)
    {
      y := RshiftWord(b, n, m, s, x1, y, ox, low);
      x, x1 := x + 1, x1 + 1;
    }
    RshiftLast(b, n, m, s, x1, y, ox, low);
    assert ox[n..m] == old(b.x[n..b.wds]);
    if y != 0 {
      x1 := x1 + 1;
    }
  }

  /** One word of the shifting loop. */
  method RshiftWord(b: Bigint, n: nat, ghost m: nat, s: nat, x1: nat, y: Word, ghost ox: seq<Word>, ghost low: nat) returns (y': Word)
    requires b.x.Length == |ox| && n + x1 + 1 < m <= |ox| && 0 < s < 32
    requires Shifting(b.x[..], ox, n, m, s, low, y, x1)
    modifies b.x
    ensures Shifting(b.x[..], ox, n, m, s, low, y', x1 + 1)
  {
    ghost var cur := b.x[..];
    var x := n + 1 + x1;
    assert b.x[x] == cur[x..][0] == ox[x..][0] == ox[x];
    var w: Word;
    w, y' := ShiftJoin(y, b.x[x], s, Val(cur[..x1]), x1);
    ShiftingStep(cur, ox, n, m, s, low, y, x1, w, y');
    b.x[x1] := w;
    assert b.x[..] == cur[x1 := w];
  }

  /** The last word: what is left of the top word. */
  method RshiftLast(b: Bigint, ghost n: nat, ghost m: nat, ghost s: nat, x1: nat, y: Word, ghost ox: seq<Word>, ghost low: nat)
    requires b.x.Length == |ox| && n + x1 + 1 == m <= |ox| && s <= 32
    requires Shifting(b.x[..], ox, n, m, s, low, y, x1)
    modifies b.x
    ensures b.x[x1] == y && (x1 > 0 ==> b.x[x1 - 1] == old(b.x[x1 - 1]))
    ensures Val(ox[n..m]) == Times(Pow2(s), Val(b.x[..x1 + 1])) + low
    ensures y == 0 ==> Val(b.x[..x1]) == Val(b.x[..x1 + 1])
  {
    ghost var cur := b.x[..];
    ghost var last: seq<Word> := cur[x1 := y];
    ShiftingDone(cur, ox, n, m, s, low, y, x1);
    b.x[x1] := y;
    assert b.x[..] == last;
    assert b.x[..x1] == last[..x1] && b.x[..x1 + 1] == last[..x1 + 1];
  }

  lemma ShiftingDone(cur: seq<Word>, ox: seq<Word>, n: nat, m: nat, s: nat, low: nat, y: Word, x1: nat)
    requires |cur| == |ox| && n + x1 + 1 == m <= |ox| && s <= 32
    requires Shifting(cur, ox, n, m, s, low, y, x1)
    ensures Val(ox[n..m]) == Times(Pow2(s), Val(cur[x1 := y][..x1 + 1])) + low
    ensures y == 0 ==> Val(cur[x1 := y][..x1]) == Val(cur[x1 := y][..x1 + 1])
  {
    assert cur[x1 := y][..x1] == cur[..x1];
    ShiftDone(cur[x1 := y], ox[n..m], Pow2(s), low, y, x1);
  }

  method StartShift(h: Word, s: nat) returns (y: Word)
    requires 0 < s < 32
    ensures y < Pow2(32 - s) && Pow2(s) > 0 && 0 <= h % Pow2(s)
    ensures Times(Pow2(s), 0) + Times(Pow2(s), Shl(y, 0)) + h % Pow2(s) == Shl(h, 0)
  {
    Pow2Add(s, 32 - s);
    Pow2Word();
    Pow2Pos(s);
    DivModIs(h, Pow2(s));
    ShiftWord(Pow2(s), Pow2(32 - s), h, 0, h % Pow2(s), h / Pow2(s), h % Pow2(s) * Pow2(32 - s));
    TimesIs(Pow2(s), h / Pow2(s));
    y := h / Pow2(s);
  }

  /** rshift: shifts b right by k bits in place and drops the words that become zero. */
  method Rshift(b: Bigint, k: nat)
    requires b.Valid()
    modifies b`wds, b.x
    ensures b.Valid()
    ensures Pow2(k) > 0 && b.Value() == old(b.Value()) / Pow2(k)
    ensures b.Value() == 0 ==> b.wds == 0 || (k == 0 && old(b.wds) == 1 && old(b.Value()) == 0)
  {
    ghost var v := b.x[..b.wds];
    var n, s, x1 := k / 32, k % 32, 0;
    ZeroWords(v);
    if n < b.wds {
      x1 := RshiftWords(b, n, s, k);
      ZeroWords(b.x[..x1]);
    } else {
      AllShiftedOut(v, n, k);
    }
    b.wds := x1;
    if x1 == 0 {
      b.x[0] := 0;
    }
  }

  lemma AllShiftedOut(v: seq<Word>, n: nat, k: nat)
    requires |v| <= n && 32 * n <= k
    ensures Pow2(k) > 0 && Val(v) / Pow2(k) == 0
  {
    ValBound(v);
    ShlLonger(|v|, n);
    LshIs(1, 32 * n);
    Pow2Mono(32 * n, k);
    DivModUnique(Val(v), Pow2(k), 0, Val(v));
  }

  /** The two loops of rshift when words are left; returns the new word count. */
  method RshiftWords(b: Bigint, n: nat, s: nat, ghost k: nat) returns (x1: nat)
    requires b.Valid() && n < b.wds && s < 32 && k == 32 * n + s
    modifies b.x
    ensures x1 <= b.wds && (x1 == 0 ==> b.x[0] == 0)
    ensures Pow2(k) > 0 && Val(b.x[..x1]) == old(b.Value()) / Pow2(k)
    ensures x1 > 0 ==> b.x[x1 - 1] != 0 || (s == 0 && x1 == b.wds - n && b.x[x1 - 1] == old(b.x[b.wds - 1]))
  {
    ghost var v, low := b.x[..b.wds], 0;
    ghost var rest, high := Val(v[..n]), Val(v[n..]);
    assert Val(v) == rest + Shl(high, n) && rest < Shl(1, n) by {
      ValSplit(v, n);
      ValBound(v[..n]);
    }
    assert v[n..] == b.x[n..b.wds];
    if s != 0 {
      x1, low := RshiftBits(b, n, s);
    } else {
      x1 := RshiftAligned(b, n);
    }
    ShiftQuotient(Val(v), rest, high, n, s, Val(b.x[..x1]), low, k);
  }

  method RshiftAligned(b: Bigint, n: nat) returns (x1: nat)
    requires b.Valid() && n < b.wds
    modifies b.x
    ensures x1 == b.wds - n && b.x[x1 - 1] == old(b.x[b.wds - 1])
    ensures old(Val(b.x[n..b.wds])) == Times(Pow2(0), Val(b.x[..x1]))
  {
    ghost var top := b.x[b.wds - 1];
    x1 := CopyDown(b, n);
    assert b.x[..x1][x1 - 1] == top;
    TimesIs(1, Val(b.x[..x1]));
  }

  /** The word-aligned case of rshift. */
  method CopyDown(b: Bigint, n: nat) returns (x1: nat)
    requires b.Valid() && n < b.wds
    modifies b.x
    ensures x1 == b.wds - n && b.x[..x1] == old(b.x[n..b.wds])
  {
    ghost var ox := b.x[..];
    x1 := 0;
    while x1 < b.wds - n
      invariant 0 <= x1 <= b.wds - n
      invariant b.x[..x1] == ox[n..n + x1] && forall j :: n + x1 <= j < b.x.Length ==> b.x[j] == ox[j]
    {
      b.x[x1] := b.x[x1 + n];
      x1 := x1 + 1;
    }
  }

  lemma {:induction false} WordBitLength(w: Word)
    ensures BitLength(w) <= 32
  {
    if w > 0 {
      BitLengthIs(w);
      if BitLength(w) > 32 {
        LshLonger(32, BitLength(w) - 1);
        Lsh32(1);
      }
    }
  }

  /** The bit length of a number whose top word is not zero. */
  lemma ValBitLength(s: seq<Word>)
    requires |s| > 0 && s[|s| - 1] != 0
    ensures var n := 32 * (|s| - 1) + BitLength(s[|s| - 1]); n > 0 && Lsh(1, n - 1) <= Val(s) < Lsh(1, n)
  {
    var i := |s| - 1;
    ValBound(s[..i]);
    BitLengthIs(s[i]);
    TopWordBits(s[i], BitLength(s[i]), i, Val(s[..i]));
  }

  lemma TopWordBits(w: int, t: nat, i: nat, low: nat)
    requires t > 0 && Lsh(1, t - 1) <= w < Lsh(1, t) && low < Shl(1, i)
    ensures Lsh(1, 32 * i + t - 1) <= low + Shl(w, i) < Lsh(1, 32 * i + t)
  {
    ShlMono(Lsh(1, t - 1), i, w);
    TopWord(w, i, Lsh(1, t));
    LshLsh(1, t - 1, 32 * i);
    LshLsh(1, t, 32 * i);
  }

  /** bitstob: copies the words that hold nbits bits and counts the bits in use. */
  method Bitstob(bits: array<Word>, nbits: nat) returns (b: Bigint, bbits: nat)
    requires 0 < nbits <= 32 * bits.Length
    ensures b.Valid() && fresh(b) && fresh(b.x)
    ensures b.Value() == Val(bits[..(nbits - 1) / 32 + 1])
    ensures b.Value() == 0 ==> b.wds == 0 && bbits == 0
    ensures b.Value() > 0 ==> bbits > 0 && Lsh(1, bbits - 1) <= b.Value() < Lsh(1, bbits)
  {
    var be := (nbits - 1) / 32;
    ghost var s := bits[..be + 1];
    b := new Bigint([]);
    b.x := new Word[be + 1];
    var x := 0;
    while x <= be
      invariant 0 <= x <= be + 1 <= b.x.Length && fresh(b) && fresh(b.x) && b.x[..x] == bits[..x]
    {
      b.x[x] := bits[x];
      x := x + 1;
    }
    assert b.x[..be + 1] == s;
    bbits := TrimCount(b, x);
  }

  /** The tail of bitstob: finds the top non-zero word among n and the number of bits up to it. */
  method TrimCount(b: Bigint, n: nat) returns (bbits: nat)
    requires 0 < n <= b.x.Length
    modifies b`wds
    ensures b.Valid() && b.Value() == Val(b.x[..n])
    ensures b.Value() == 0 ==> b.wds == 0 && bbits == 0
    ensures b.Value() > 0 ==> bbits > 0 && Lsh(1, bbits - 1) <= b.Value() < Lsh(1, bbits)
  {
    var i := TopNonzero(b, n);
    b.wds := i + 1;
    if i < 0 {
      bbits := 0;
    } else {
      ValBitLength(b.x[..i + 1]);
      var hi0bits := Hi0Bits(b.x[i]);
      bbits := i * 32 + 32 - hi0bits;
    }
  }

  /** The position of the top non-zero word among n, or -1. */
  method TopNonzero(b: Bigint, n: nat) returns (i: int)
    requires 0 < n <= b.x.Length
    ensures -1 <= i < n && Val(b.x[..i + 1]) == Val(b.x[..n])
    ensures if i < 0 then b.x[0] == 0 else b.x[i] != 0
  {
    ghost var s := b.x[..n];
    i := n - 1;
    while b.x[i] == 0
      invariant 0 <= i < n
      invariant forall j :: i < j < n ==> s[j] == 0
      decreases i
    {
      if i == 0 {
        ValTrim(s, 0);
        assert s[..0] == b.x[..0];
        i := -1;
        return;
      }
      i := i - 1;
    }
    ValTrim(s, i + 1);
    assert s[..i + 1] == b.x[..i + 1];
  }

  method Hi0Bits(w: Word) returns (n: nat)
    ensures n == 32 - BitLength(w)
  {
    WordBitLength(w);
    n := 32 - BitLength(w);
  }

  /**
   * gdtoa.c's first step: the mantissa loses its trailing zero bits, the exponent gains them.
   * The value b * 2^be and the position be + bbits of the top bit do not change.
   */
  method OddMantissa(bits: array<Word>, nbits: nat, be0: int) returns (b: Bigint, be: int, bbits: int)
    requires 0 < nbits <= 32 * bits.Length
    ensures b.Valid() && be >= be0
    ensures Val(bits[..(nbits - 1) / 32 + 1]) == Lsh(b.Value(), be - be0)
    ensures be + bbits == be0 + BitLength(Val(bits[..(nbits - 1) / 32 + 1]))
    ensures b.wds == 0 <==> b.Value() == 0
    ensures b.Value() > 0 ==> b.Value() % 2 == 1 && bbits > 0 && Lsh(1, bbits - 1) <= b.Value() < Lsh(1, bbits)
  {
    b, bbits := Bitstob(bits, nbits);
    ghost var v := b.Value();
    be := be0;
    var i, odd := Trailz(b);
    if v > 0 {
      BitLengthUnique(v, bbits);
      OddQuotient(v, odd, i, bbits);
    }
    if i != 0 {
      Rshift(b, i);
      be := be + i;
      bbits := bbits - i;
    }
  }

  lemma OddQuotient(v: nat, odd: nat, i: nat, bbits: int)
    requires v > 0 && v == Lsh(odd, i) && odd % 2 == 1 && bbits > 0 && Lsh(1, bbits - 1) <= v < Lsh(1, bbits)
    ensures Pow2(i) > 0 && v / Pow2(i) == odd
    ensures bbits - i > 0 && Lsh(1, bbits - i - 1) <= odd < Lsh(1, bbits - i)
  {
    LshIs(odd, i);
    Pow2Pos(i);
    DivModUnique(v, Pow2(i), odd, 0);
    if bbits <= i {
      LshLonger(bbits, i);
      if odd > 1 {
        LshMono(1, i, odd);
      }
    } else {
      LshLsh(1, bbits - i, i);
      LshLsh(1, bbits - i - 1, i);
      if odd >= Lsh(1, bbits - i) {
        LshMono(Lsh(1, bbits - i) - 1, i, odd);
        if odd > Lsh(1, bbits - i) {
          LshMono(Lsh(1, bbits - i), i, odd);
        }
      }
      if odd < Lsh(1, bbits - i - 1) {
        LshMono(odd, i, Lsh(1, bbits - i - 1));
      }
    }
  }
}
