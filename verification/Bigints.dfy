/**
 * Multiword naturals as arrays of 32-bit words, least significant word first: comparison, and
 * the quotient digit with in-place remainder.
 */
module Bigints {
  import opened Powers

  type Word = x: int | 0 <= x < 0x1_0000_0000

  /** The natural number a word sequence denotes. */
  function Val(s: seq<Word>): nat {
    if |s| == 0 then 0 else
      var n := |s| - 1;
      Val(s[..n]) + Shl(s[n], n)
  }

  lemma {:induction false} ValBound(s: seq<Word>)
    ensures Val(s) < Shl(1, |s|)
  {
    if |s| > 0 {
      var n := |s| - 1;
      ValBound(s[..n]);
      TopWord(s[n], n, 0x1_0000_0000);
      ShlUp(1, n);
    }
  }

  lemma TopWord(t: int, n: nat, u: int)
    requires t < u
    ensures Shl(t, n) + Shl(1, n) <= Shl(u, n)
  {
    ShlMono(t + 1, n, u);
    ShlAdd(t, 1, n);
  }

  lemma ValPrefix(s: seq<Word>, i: nat)
    requires i < |s|
    ensures Val(s[..i + 1]) == Val(s[..i]) + Shl(s[i], i)
  {
    assert s[..i + 1][..i] == s[..i];
  }

  /** Words that are all zero above position n add nothing. */
  lemma {:induction false} ValTrim(s: seq<Word>, n: nat)
    requires n <= |s| && forall i :: n <= i < |s| ==> s[i] == 0
    ensures Val(s) == Val(s[..n])
    decreases |s|
  {
    if n < |s| {
      ValTrim(s[..|s| - 1], n);
      assert s[..|s| - 1][..n] == s[..n];
    } else {
      assert s[..n] == s;
    }
  }

  lemma ValTopNonzero(s: seq<Word>)
    requires |s| > 0 && s[|s| - 1] != 0
    ensures Val(s) >= Shl(1, |s| - 1)
  {
    ValBound(s[..|s| - 1]);
    ShlMono(1, |s| - 1, s[|s| - 1]);
  }

  lemma FewerWords(a: seq<Word>, s: seq<Word>)
    requires |a| < |s| && s[|s| - 1] != 0
    ensures Val(a) < Val(s)
  {
    ValBound(a);
    ValTopNonzero(s);
    ShlLonger(|a|, |s| - 1);
  }

  /** The highest word in which two sequences differ decides their order. */
  lemma {:induction false} ValDecide(a: seq<Word>, b: seq<Word>, i: nat)
    requires i < |a| == |b| && a[i] < b[i]
    requires forall j :: i < j < |a| ==> a[j] == b[j]
    ensures Val(a) < Val(b)
    decreases |a|
  {
    var n := |a| - 1;
    if i < n {
      ValDecide(a[..n], b[..n], i);
    } else {
      ValBound(a[..n]);
      ValBound(b[..n]);
      TopWord(a[n], n, b[n]);
    }
  }

  /** The bignum structure; wds counts the words in use and the top one is not zero. */
  class Bigint {
    var x: array<Word>
    var wds: nat

    ghost predicate Valid()
      reads this, x
    {
      && wds <= x.Length && 0 < x.Length
      && (wds == 0 ==> x[0] == 0)
      && (wds > 1 ==> x[wds - 1] != 0)
    }

    ghost function Value(): nat
      requires wds <= x.Length
      reads this, x
    {
      Val(x[..wds])
    }

    constructor (words: seq<Word>)
      requires |words| > 1 ==> words[|words| - 1] != 0
      ensures Valid() && fresh(x) && x[..wds] == words && wds == |words|
    {
      var n := |words|;
      x := new Word[n + 1](i => if 0 <= i < n then words[i] else 0);
      wds := n;
      new;
      assert x[..n] == words;
    }
  }

  /** Both numbers are zero and one has a zero word where the other has none. */
  ghost predicate UnlikeZeros(a: Bigint, b: Bigint)
    reads a, a.x, b, b.x
    requires a.Valid() && b.Valid()
  {
    a.Value() == 0 && b.Value() == 0 && a.wds != b.wds
  }

  lemma ZeroWords(s: seq<Word>)
    requires |s| > 1 ==> s[|s| - 1] != 0
    ensures Val(s) == 0 <==> |s| == 0 || (|s| == 1 && s[0] == 0)
  {
    if |s| > 0 && s[|s| - 1] != 0 {
      ValTopNonzero(s);
      ShlLonger(0, |s| - 1);
    } else if |s| == 1 {
      ValTrim(s, 0);
    }
  }

  lemma WordsDecide(a: seq<Word>, b: seq<Word>)
    requires |a| < |b| && (|b| > 1 ==> b[|b| - 1] != 0)
    ensures Val(a) < Val(b) || (Val(a) == Val(b) == 0)
  {
    if b[|b| - 1] != 0 {
      FewerWords(a, b);
    } else {
      ValTrim(b, 0);
    }
  }

  /**
   * misc.c cmp: word counts first, then words from the top down. It orders the values exactly when
   * the two are not zeros of different lengths. Without any word the source compares the word
   * counts that lie in front of the arrays, which are equal.
   */
  method Cmp(a: Bigint, b: Bigint) returns (c: int)
    requires a.Valid() && b.Valid()
    ensures (c < 0 <==> a.Value() < b.Value()) && (c > 0 <==> a.Value() > b.Value()) <==> !UnlikeZeros(a, b)
    ensures UnlikeZeros(a, b) ==> c == a.wds - b.wds
  {
    var j := b.wds;
    c := a.wds - j;
    if c != 0 {
      if c < 0 {
        WordsDecide(a.x[..a.wds], b.x[..j]);
      } else {
        WordsDecide(b.x[..j], a.x[..a.wds]);
      }
      return;
    }
    c := CmpWords(a, b);
  }

  /** The word loop of cmp. */
  method CmpWords(a: Bigint, b: Bigint) returns (c: int)
    requires a.Valid() && b.Valid() && a.wds == b.wds
    ensures c < 0 <==> a.Value() < b.Value()
    ensures c > 0 <==> a.Value() > b.Value()
  {
    var j := b.wds;
    var i := j;
    while i > 0
      invariant 0 <= i <= j
      invariant forall k :: i <= k < j ==> a.x[k] == b.x[k]
    {
      i := i - 1;
      if a.x[i] != b.x[i] {
        if a.x[i] < b.x[i] {
          ValDecide(a.x[..j], b.x[..j], i);
          return -1;
        } else {
          ValDecide(b.x[..j], a.x[..j], i);
          return 1;
        }
      }
    }
    assert a.x[..j] == b.x[..j];
    return 0;
  }

  /** The body of quorem's subtraction loops on one word, with the 64-bit wrap-around written out. */
  method SubWord(bw: Word, sw: Word, q: Word, carry: nat, borrow: nat) returns (w: Word, carry': nat, borrow': nat)
    requires carry <= q && borrow <= 1
    ensures carry' <= q && borrow' <= 1
    ensures w == bw - Times(q, sw) - (carry + borrow) + 0x1_0000_0000 * (carry' + borrow')
  {
    MulLe(q, sw, 0xFFFF_FFFF);
    TimesIs(q, sw);
    SubStepLinear(bw, sw * q, q, carry, borrow);
    var ys := sw * q + carry;
    carry' := ys / 0x1_0000_0000;
    var y := (bw - ys % 0x1_0000_0000 - borrow) % 0x1_0000_0000_0000_0000;
    borrow' := y / 0x1_0000_0000 % 2;
    w := y % 0x1_0000_0000;
  }

  lemma SubStepLinear(bw: Word, prod: nat, q: Word, carry: nat, borrow: nat)
    requires carry <= q && borrow <= 1 && prod <= 0xFFFF_FFFF * q
    ensures var ys := prod + carry;
            var y := (bw - ys % 0x1_0000_0000 - borrow) % 0x1_0000_0000_0000_0000;
            var carry', borrow' := ys / 0x1_0000_0000, y / 0x1_0000_0000 % 2;
            && 0 <= ys && 0 <= carry' <= q && 0 <= borrow' <= 1
            && y % 0x1_0000_0000 == bw - prod - (carry + borrow) + 0x1_0000_0000 * (carry' + borrow')
  {}

  lemma SubStepShl(bw: int, sw: int, w: int, q: nat, c: int, c': int, i: nat)
    requires w == bw - Times(q, sw) - c + 0x1_0000_0000 * c'
    ensures Shl(w, i) == Shl(bw, i) - Times(q, Shl(sw, i)) - Shl(c, i) + Shl(c', i + 1)
  {
    ShlAdd(bw - Times(q, sw) - c, 0x1_0000_0000 * c', i);
    ShlAdd(bw - Times(q, sw), c, i);
    ShlAdd(bw, Times(q, sw), i);
    ShlUp(c', i);
    ShlTimes(q, sw, i);
  }

  /** After i words: the low words differ from b - q * S by c units of the next word, the rest is untouched. */
  ghost predicate SubInv(cur: seq<Word>, ob: seq<Word>, sx: seq<Word>, q: nat, c: int, i: nat)
    requires i <= |cur| == |ob| && i <= |sx|
  {
    && Val(cur[..i]) == Val(ob[..i]) - Times(q, Val(sx[..i])) + Shl(c, i)
    && cur[i..] == ob[i..]
  }

  lemma SubInvStart(ob: seq<Word>, sx: seq<Word>, q: nat)
    ensures SubInv(ob, ob, sx, q, 0, 0)
  {
    assert ob[..0] == [] && sx[..0] == [];
  }

  lemma SubInvStep(cur: seq<Word>, ob: seq<Word>, sx: seq<Word>, q: nat, c: int, i: nat, w: Word, c': int)
    requires i < |cur| == |ob| && i < |sx|
    requires SubInv(cur, ob, sx, q, c, i)
    requires w == cur[i] - Times(q, sx[i]) - c + 0x1_0000_0000 * c'
    ensures SubInv(cur[i := w], ob, sx, q, c', i + 1)
  {
    var next := cur[i := w];
    assert cur[i] == cur[i..][0] == ob[i..][0] == ob[i];
    assert next[..i] == cur[..i];
    assert next[i + 1..] == cur[i..][1..] == ob[i + 1..];
    SubStepShl(ob[i], sx[i], w, q, c, c', i);
    TimesAdd(q, Val(sx[..i]), Shl(sx[i], i));
    ValPrefix(next, i);
    ValPrefix(ob, i);
    ValPrefix(sx, i);
  }

  lemma SubInvDone(cur: seq<Word>, ob: seq<Word>, sx: seq<Word>, q: nat, c: nat, n: nat)
    requires n <= |cur| == |ob| && n <= |sx|
    requires SubInv(cur, ob, sx, q, c, n)
    requires Times(q, Val(sx[..n])) <= Val(ob[..n])
    ensures Val(cur[..n]) == Val(ob[..n]) - Times(q, Val(sx[..n]))
  {
    ValBound(cur[..n]);
    if c >= 1 {
      ShlMono(1, n, c);
    }
  }

  /** One iteration of the subtraction loop on the array. */
  method SubtractWord(b: Bigint, S: Bigint, q: Word, i: nat, carry: nat, borrow: nat, ghost ob: seq<Word>, ghost sx: seq<Word>)
    returns (carry': nat, borrow': nat)
    requires b.x != S.x && i < b.x.Length == |ob| && i < S.x.Length && sx == S.x[..]
    requires carry <= q && borrow <= 1 && SubInv(b.x[..], ob, sx, q, carry + borrow, i)
    modifies b.x
    ensures carry' <= q && borrow' <= 1 && SubInv(b.x[..], ob, sx, q, carry' + borrow', i + 1)
  {
    ghost var cur := b.x[..];
    var w;
    w, carry', borrow' := SubWord(b.x[i], S.x[i], q, carry, borrow);
    SubInvStep(cur, ob, sx, q, carry + borrow, i, w, carry' + borrow');
    b.x[i] := w;
    assert b.x[..] == cur[i := w];
  }

  /** The loop shared by both halves of quorem: b -= q * S over n words. */
  method MulSub(b: Bigint, S: Bigint, q: Word, n: nat)
    requires b.x != S.x && n <= b.x.Length && n <= S.x.Length
    requires Times(q, Val(S.x[..n])) <= Val(b.x[..n])
    modifies b.x
    ensures Val(b.x[..n]) == old(Val(b.x[..n])) - Times(q, Val(S.x[..n]))
    ensures b.x[n..] == old(b.x[n..])
  {
    ghost var ob := b.x[..];
    ghost var sx := S.x[..];
    var carry, borrow := SubtractWords(b, S, q, n, ob, sx);
    ghost var cur := b.x[..];
    assert sx[..n] == S.x[..n] && ob[..n] == old(b.x[..n]);
    SubInvDone(cur, ob, sx, q, carry + borrow, n);
    assert cur[..n] == b.x[..n] && cur[n..] == b.x[n..] && old(b.x[n..]) == ob[n..];
  }

  method SubtractWords(b: Bigint, S: Bigint, q: Word, n: nat, ghost ob: seq<Word>, ghost sx: seq<Word>)
    returns (carry: nat, borrow: nat)
    requires b.x != S.x && n <= b.x.Length && n <= S.x.Length && ob == b.x[..] && sx == S.x[..]
    modifies b.x
    ensures SubInv(b.x[..], ob, sx, q, carry + borrow, n)
  {
    var i := 0;
    carry, borrow := 0, 0;
    SubInvStart(ob, sx, q);
    while i < n
      invariant i <= n && carry <= q && borrow <= 1 && S.x[..] == sx
      invariant SubInv(b.x[..], ob, sx, q, carry + borrow, i)
    {
      carry, borrow := SubtractWord(b, S, q, i, carry, borrow, ob, sx);
      i := i + 1;
    }
  }

  /** Drops zero words from position n down, as quorem does after a subtraction. */
  method Trim(b: Bigint, top: nat)
    requires top < b.x.Length && b.wds == top + 1
    modifies b`wds
    ensures b.Valid() && b.wds <= top + 1
    ensures b.Value() == old(Val(b.x[..b.wds]))
    ensures b.Value() == 0 ==> b.wds == if top == 0 then 0 else 1
  {
    ghost var s := b.x[..b.wds];
    if b.x[top] != 0 {
      ZeroWords(s);
    }
    var n := top;
    if b.x[top] == 0 {
      var bxe := top - 1;
      while bxe > 0 && b.x[bxe] == 0
        invariant -1 <= bxe && bxe == n - 1 && n <= top && (top > 0 ==> bxe >= 0)
        invariant forall j :: n <= j <= top ==> b.x[j] == 0
      {
        n := n - 1;
        bxe := bxe - 1;
      }
      ValTrim(b.x[..b.wds], n);
      assert b.x[..b.wds][..n] == b.x[..n];
      b.wds := n;
      ZeroWords(b.x[..n]);
    }
  }

  lemma EstimateLow(S: nat, bT: nat, sT: nat, sl: nat, W: nat, q: nat)
    requires S == sl + sT * W && sl < W && q * (sT + 1) <= bT
    ensures q * S <= bT * W
  {
    assert (sT + 1) * W == sT * W + W;
    MulLe(q, S, (sT + 1) * W);
    assert q * ((sT + 1) * W) == (q * (sT + 1)) * W;
    MulLe(W, q * (sT + 1), bT);
  }

  lemma EstimateHigh(S: nat, bT: nat, sT: nat, sl: nat, W: nat, q: nat)
    requires S == sl + sT * W && bT + 1 <= (q + 1) * (sT + 1) && q + 1 <= sT
    ensures bT * W + W <= (q + 2) * S
  {
    var t, x := sT * W, q + 1;
    MulLe(W, bT + 1, x * (sT + 1));
    assert W * (bT + 1) == bT * W + W by { MulDist(W, bT, 1); }
    assert W * (x * (sT + 1)) == x * t + x * W by {
      MulDist(x, sT, 1);
      MulDist(W, x * sT, x);
      MulAssoc(x, sT, W);
    }
    MulLe(x, t, S);
    MulLe(W, x, sT);
    MulDist(S, x, 1);
  }

  /** The one-word quotient estimate is never too big and at most one too small. */
  lemma EstimateBounds(b: nat, S: nat, bT: nat, sT: nat, bl: nat, sl: nat, W: nat, q: nat)
    requires b == bl + bT * W && S == sl + sT * W && bl < W && sl < W
    requires b < 10 * S && sT >= 10
    requires q * (sT + 1) <= bT < (q + 1) * (sT + 1)
    ensures q <= 9 && q * S <= b < (q + 2) * S
  {
    EstimateLow(S, bT, sT, sl, W, q);
    if q >= 10 {
      MulLe(S, 10, q);
    }
    EstimateHigh(S, bT, sT, sl, W, q);
  }

  lemma Estimate(bs: seq<Word>, ss: seq<Word>, q: nat, bT: int, sT: int)
    requires |bs| == |ss| > 0 && Val(bs) < 10 * Val(ss)
    requires bT == bs[|ss| - 1] && sT == ss[|ss| - 1] && 10 <= sT
    requires q * (sT + 1) <= bT < (q + 1) * (sT + 1)
    ensures q <= 9 && Times(q, Val(ss)) <= Val(bs) < Times(q, Val(ss)) + 2 * Val(ss)
  {
    var n := |ss| - 1;
    var bl, sl, b, s := Val(bs[..n]), Val(ss[..n]), Val(bs), Val(ss);
    ValBound(bs[..n]);
    ValBound(ss[..n]);
    LshIs(1, 32 * n);
    LshIs(bT, 32 * n);
    LshIs(sT, 32 * n);
    EstimateBounds(b, s, bT, sT, bl, sl, Shl(1, n), q);
    EstimateTimes(q, b, s);
  }

  lemma EstimateTimes(q: nat, b: int, s: int)
    requires q * s <= b < (q + 2) * s
    ensures Times(q, s) <= b < Times(q, s) + 2 * s
  {
    TimesIs(q, s);
    MulDist(s, q, 2);
  }

  lemma QuotientIs(v: nat, s: nat, q: nat, r: nat)
    requires v - Times(q, s) == r < s && v < 10 * s
    ensures v / s == q && v % s == r && q <= 9
  {
    TimesIs(q, s);
    DivModUnique(v, s, q, r);
    if q >= 10 {
      MulLe(s, 10, q);
    }
  }

  lemma QuotientTwice(v: nat, s: nat, q: nat, more: nat, r: nat)
    requires v - Times(q, s) - Times(more, s) == r < s && v < 10 * s
    ensures v / s == q + more && v % s == r && q + more <= 9
  {
    TimesSum(q, more, s);
    QuotientIs(v, s, q + more, r);
  }

  /** One subtraction round of quorem: subtract, then drop the zero words at the top. */
  method SubtractMultiple(b: Bigint, S: Bigint, q: Word)
    requires b != S && b.x != S.x && S.Valid()
    requires 0 < b.wds == S.wds <= b.x.Length
    requires Times(q, S.Value()) <= b.Value()
    modifies b`wds, b.x
    ensures b.Valid() && b.wds <= S.wds
    ensures b.Value() == 0 ==> b.wds == if S.wds == 1 then 0 else 1
    ensures b.Value() == old(b.Value()) - Times(q, S.Value())
    ensures S.Valid() && S.Value() == old(S.Value())
  {
    var n := S.wds;
    MulSub(b, S, q, n);
    Trim(b, n - 1);
  }

  /** The leading-word estimate of the quotient digit. */
  method QuotientEstimate(b: Bigint, S: Bigint) returns (q: Word)
    requires b.Valid() && S.Valid()
    requires 0 < b.wds == S.wds && 10 <= S.x[S.wds - 1] < 0xFFFF_FFFF
    requires b.Value() < 10 * S.Value()
    ensures q <= 9 && Times(q, S.Value()) <= b.Value() < Times(q, S.Value()) + 2 * S.Value()
  {
    var n := S.wds;
    q := WordQuotient(b.x[n - 1], S.x[n - 1]);
    Estimate(b.x[..n], S.x[..n], q, b.x[n - 1], S.x[n - 1]);
  }

  /** bT / (sT + 1) on single words. */
  method WordQuotient(bT: Word, sT: Word) returns (q: Word)
    requires sT < 0xFFFF_FFFF
    ensures q * (sT as int + 1) <= bT < (q as int + 1) * (sT as int + 1)
  {
    var e: int := bT / (sT as int + 1);
    DivModIs(bT, sT as int + 1);
    MulDist(sT as int + 1, e, 1);
    if e > bT {
      MulLe(e, 1, sT as int + 1);
    }
    q := e;
  }

  /** The second half of quorem: one more subtraction when the estimate was one too small. */
  method SubtractOnce(b: Bigint, S: Bigint) returns (more: nat)
    requires b != S && b.x != S.x && b.Valid() && S.Valid()
    requires b.wds <= S.wds && 0 < S.wds && S.x[S.wds - 1] != 0
    requires b.Value() < 2 * S.Value()
    modifies b`wds, b.x
    ensures b.Valid() && b.wds <= S.wds && more <= 1
    ensures b.Value() == 0 ==> b.wds == (if S.wds == 1 then 0 else 1) || (old(b.Value()) == 0 && b.wds == old(b.wds))
    ensures b.Value() == old(b.Value()) - Times(more, S.Value()) < S.Value()
    ensures S.Valid() && S.Value() == old(S.Value())
  {
    ValTopNonzero(S.x[..S.wds]);
    ShlLonger(0, S.wds - 1);
    var c := Cmp(b, S);
    if c < 0 {
      return 0;
    }
    if b.wds < S.wds {
      FewerWords(b.x[..b.wds], S.x[..S.wds]);
    }
    SubtractMultiple(b, S, 1);
    more := 1;
  }

  /**
   * dmisc.c quorem: returns floor(b / S) and leaves b mod S in b, normalised.
   * The divisor's top word must be at least 10 and leave room for the + 1.
   */
  method Quorem(b: Bigint, S: Bigint) returns (q: nat)
    requires b != S && b.x != S.x && b.Valid() && S.Valid()
    requires 1 <= S.wds && b.wds <= S.wds
    requires 10 <= S.x[S.wds - 1] < 0xFFFF_FFFF
    requires b.Value() < 10 * S.Value()
    modifies b`wds, b.x
    ensures b.Valid() && b.wds <= S.wds
    ensures q == old(b.Value()) / S.Value() <= 9
    ensures b.Value() == old(b.Value()) % S.Value()
    ensures old(b.Value()) > 0 && b.Value() == 0 ==> b.wds == if S.wds == 1 then 0 else 1
  {
    ghost var v, s := b.Value(), S.Value();
    if b.wds < S.wds {
      FewerWords(b.x[..b.wds], S.x[..S.wds]);
      QuotientIs(v, s, 0, v);
      return 0;
    }
    q := QuotientEstimate(b, S);
    if q != 0 {
      SubtractMultiple(b, S, q);
    }
    var more := SubtractOnce(b, S);
    QuotientTwice(v, s, q, more, b.Value());
    q := q + more;
  }
}
