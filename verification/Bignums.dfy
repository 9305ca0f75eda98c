/**
 * The bignum calls of the conversion routines at the level of natural numbers. Only quorem has
 * a precondition worth carrying: the divisor must be aligned so that its top word has four
 * leading zero bits. It is discharged by running the word-level quorem.
 */
module Bignums {
  import opened Powers
  import opened Bigints
  import opened BigintBits

  /** S occupies n + 1 words and the top one lies in [2^27, 2^28). */
  ghost predicate Aligned(S: nat, n: nat) {
    Shl(0x800_0000, n) <= S < Shl(0x1000_0000, n)
  }

  function ToWords(v: nat): seq<Word> {
    if v == 0 then [] else [v % 0x1_0000_0000] + ToWords(v / 0x1_0000_0000)
  }

  lemma {:induction false} ToWordsIs(v: nat)
    ensures Val(ToWords(v)) == v
    ensures v > 0 ==> |ToWords(v)| > 0 && ToWords(v)[|ToWords(v)| - 1] != 0
  {
    if v > 0 {
      var r := v / 0x1_0000_0000;
      ToWordsIs(r);
      var s := ToWords(v);
      ValCons(s);
      assert s[1..] == ToWords(r);
      Lsh32(r);
      if r == 0 {
        assert s == [v];
      }
    }
  }

  /** A number between two multiples of the same word power has that many words and a top word between them. */
  lemma TopWordRange(s: seq<Word>, lo: nat, hi: nat, n: nat)
    requires 0 < lo && hi <= 0x1_0000_0000 && Shl(lo, n) <= Val(s) < Shl(hi, n)
    requires |s| > 0 ==> s[|s| - 1] != 0
    ensures |s| == n + 1 && lo <= s[n] < hi
  {
    ValBound(s);
    ShlMono(1, n, lo);
    ShlMono(hi, n, 0x1_0000_0000);
    ShlUp(1, n);
    if |s| <= n {
      ShlLonger(|s|, n);
    } else {
      ValTopNonzero(s);
      if |s| > n + 1 {
        ShlLonger(n + 1, |s| - 1);
      }
      ValBound(s[..n]);
      if s[n] < lo {
        TopWord(s[n], n, lo);
      }
      if hi <= s[n] {
        ShlMono(hi, n, s[n]);
      }
    }
  }

  lemma AtMostWords(s: seq<Word>, n: nat)
    requires Val(s) < Shl(1, n) && (|s| > 0 ==> s[|s| - 1] != 0)
    ensures |s| <= n
  {
    if |s| > n {
      ValTopNonzero(s);
      ShlLonger(n, |s| - 1);
    }
  }

  /** quorem on values: the digit and the remainder, computed by the word-level routine. */
  method QuoremValue(b: nat, S: nat, ghost n: nat) returns (q: nat, r: nat)
    requires Aligned(S, n) && b < 10 * S
    ensures b == Times(q, S) + r && r < S && q <= 9
  {
    ToWordsIs(b);
    ToWordsIs(S);
    ghost var sw, bw := ToWords(S), ToWords(b);
    TopWordRange(sw, 0x800_0000, 0x1000_0000, n);
    DividendFits(b, S, n);
    AtMostWords(bw, n + 1);
    var B := new Bigint(ToWords(b));
    var D := new Bigint(ToWords(S));
    assert B.x[..B.wds] == bw && D.x[..D.wds] == sw;
    assert D.x[D.wds - 1] == sw[n];
    q := Quorem(B, D);
    r := Val(B.x[..B.wds]);
    DivModIs(b, S);
    TimesIs(q, S);
  }

  lemma DividendFits(b: nat, S: nat, n: nat)
    requires Aligned(S, n) && b < 10 * S
    ensures b < Shl(1, n + 1)
  {
    ShlTimes(10, 0x1000_0000, n);
    TimesIs(10, Shl(0x1000_0000, n));
    ShlMono(Times(10, 0x1000_0000), n, 0x1_0000_0000);
    ShlUp(1, n);
  }
}
