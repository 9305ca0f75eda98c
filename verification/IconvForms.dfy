/**
 * What the decoders of iconv.c read and what they reject, by the tables they read from and for every
 * byte: each accepted form with the character it stands for, and that there are no others.
 */
module IconvForms {
  import opened Bytes
  import opened IconvTables
  import opened IconvLegacy
  import opened IconvLoop
  import opened Iconv
  import opened IconvLaws

  // ---------------------------------------------------------------- GB2312, GBK, GB18030

  /** The two bytes of row r and column k; 0x7f is left out of the columns. */
  function GbPair(r: nat, k: nat): seq<Byte>
    requires r < 126 && k < 190
  {
    [0x81 + r, if k < 63 then 0x40 + k else 0x41 + k]
  }

  /** Every entry of the table is read from its row and column; GB2312 reads those from 0xa1 on. */
  lemma GbTwoBytes(t: Tables, cs: Charset, r: nat, k: nat, s: seq<Byte>)
    requires t.Valid() && r < 126 && k < 190 && (cs.Gb2312? || cs.Gbk? || cs.Gb18030?)
    requires cs.Gb2312? ==> GbPair(r, k)[0] >= 0xa1 && GbPair(r, k)[1] >= 0xa1
    ensures DecodeGb(t, cs, GbPair(r, k) + s) == Char(t.gb[r][k], 2)
  {
    var b := GbPair(r, k) + s;
    assert b[0] == 0x81 + r && b[1] == GbPair(r, k)[1];
  }

  /** The four bytes that count i, with ten, 126 and ten values for the last three. */
  function GbFour(i: nat): seq<Byte>
    requires i < 1587600
  {
    var first: int := 0x81 + i / 12600;
    [first, 0x30 + i / 1260 % 10, 0x81 + i / 10 % 126, 0x30 + i % 10]
  }

  lemma Counted(i: nat)
    requires i < 1587600
    ensures i / 12600 < 126 && i == (10 * (i / 12600) + i / 1260 % 10) * 1260 + 10 * (i / 10 % 126) + i % 10
  {
    var x := i / 10;
    var y := x / 126;
    assert i / 1260 == y by {
      NestedQuotient(i, 10, 126);
    }
    assert i / 12600 == y / 10 by {
      NestedQuotient(i, 1260, 10);
    }
  }

  lemma NestedQuotient(i: nat, a: nat, b: nat)
    requires (a == 10 && b == 126) || (a == 1260 && b == 10)
    ensures i / a / b == i / (a * b)
  {}

  lemma FourOf(i: nat, s: seq<Byte>)
    requires i < 1587600
    ensures FourByte(GbFour(i) + s) && FourByteIndex(GbFour(i) + s) == i + 128
  {
    var b := GbFour(i) + s;
    Counted(i);
    assert b[0] == GbFour(i)[0] && b[1] == GbFour(i)[1] && b[2] == GbFour(i)[2] && b[3] == GbFour(i)[3];
  }

  lemma FourRead(t: Tables, s: seq<Byte>)
    requires t.Valid() && FourByte(s)
    ensures DecodeGb(t, Gb18030, s) == Char(Select(Flatten(t.gb), 0, FourByteIndex(s)), 4)
  {}

  /** The four bytes of i stand for the character of rank i + 128 outside the table. */
  lemma GbFourBytes(t: Tables, i: nat, s: seq<Byte>)
    requires t.Valid() && Distinct(Flatten(t.gb)) && i < 1587600
    ensures var r := DecodeGb(t, Gb18030, GbFour(i) + s);
            r.Char? && r.l == 4 && r.c !in Flatten(t.gb) && Missing(Flatten(t.gb), r.c) == i + 128
  {
    FourOf(i, s);
    FourRead(t, GbFour(i) + s);
    SelectRank(Flatten(t.gb), i + 128);
  }

  /** Every character outside the table whose rank is in range is read from four bytes. */
  lemma GbFourBytesOnto(t: Tables, n: nat, s: seq<Byte>)
    requires t.Valid() && Distinct(Flatten(t.gb)) && n !in Flatten(t.gb) && 128 <= Missing(Flatten(t.gb), n) < 1587600 + 128
    ensures DecodeGb(t, Gb18030, GbFour(Missing(Flatten(t.gb), n) - 128) + s) == Char(n, 4)
  {
    var i := Missing(Flatten(t.gb), n) - 128;
    FourOf(i, s);
    FourRead(t, GbFour(i) + s);
    SelectOnto(Flatten(t.gb), n);
  }

  predicate GbForm(cs: Charset, s: seq<Byte>)
    requires |s| >= 4
  {
    || s[0] < 128
    || (0x81 <= s[0] < 0xff && 0x40 <= s[1] < 0xff && s[1] != 0x7f && (cs.Gb2312? ==> s[0] >= 0xa1 && s[1] >= 0xa1))
    || (cs.Gb18030? && FourByte(s))
  }

  /** There are no other forms. */
  lemma GbForms(t: Tables, cs: Charset, s: seq<Byte>)
    requires t.Valid() && |s| >= 4 && (cs.Gb2312? || cs.Gbk? || cs.Gb18030?)
    ensures DecodeGb(t, cs, s).Char? <==> GbForm(cs, s)
    ensures DecodeGb(t, cs, s).Illegal? <==> !GbForm(cs, s)
    ensures s[0] < 128 ==> DecodeGb(t, cs, s) == Char(s[0], 1)
  {}

  // ---------------------------------------------------------------- EUC-JP and ISO-2022-JP

  /** The turn for a character of the JIS table, or for a hole in it. */
  function Entry(j: Jis, r: nat, k: nat): Turn
    requires r < |j.table| && k < |j.table[r]|
  {
    if j.table[r][k] == 0 then Illegal else Char(j.table[r][k], 2)
  }

  lemma JisEntry(j: Jis, r: nat, k: nat)
    requires j.Valid() && r < 84 && k < 94
    ensures DecodeJis(j, r, k) == Entry(j, r, k)
  {
    assert (r * 256 + k) / 256 == r && (r * 256 + k) % 256 == k;
  }

  /** EUC-JP: ASCII, half-width katakana behind 0x8e, and the rows and columns of the table from 0xa1 on; nothing else. */
  lemma EucForms(j: Jis, x: Byte, y: Byte, s: seq<Byte>)
    requires j.Valid()
    ensures DecodeEucJp(j, [x, y] + s) ==
            if x < 128 then Char(x, 1)
            else if x == 0x8e then (if 0xa1 <= y <= 0xdf then Char(0xff61 + (y - 0xa1), 2) else Illegal)
            else if 0xa1 <= x < 0xf5 && 0xa1 <= y < 0xff then Entry(j, x - 0xa1, y - 0xa1)
            else Illegal
  {
    var b := [x, y] + s;
    assert b[0] == x && b[1] == y;
    if 0xa1 <= x < 0xf5 && 0xa1 <= y < 0xff {
      JisEntry(j, x - 0xa1, y - 0xa1);
    }
  }

  /** ISO-2022-JP in a state of two-byte characters: rows and columns from 0x21 on. */
  lemma IsoPairs(j: Jis, state: nat, x: Byte, y: Byte, s: seq<Byte>)
    requires j.Valid() && (state == 2 || state == 3) && x != 0x1b
    ensures DecodeIso2022Jp(j, state, [x, y] + s) ==
            if 0x21 <= x < 0x75 && 0x21 <= y < 0x7f then Entry(j, x - 0x21, y - 0x21) else Illegal
  {
    var b := [x, y] + s;
    assert b[0] == x && b[1] == y;
    if 0x21 <= x < 0x75 && 0x21 <= y < 0x7f {
      JisEntry(j, x - 0x21, y - 0x21);
    }
  }

  /** In the other states: ASCII; JIS Roman, with yen and overline; katakana, which ends at 0x5f. */
  lemma IsoSingles(j: Jis, state: nat, x: Byte, s: seq<Byte>)
    requires (state == 0 || state == 1 || state == 4) && x != 0x1b
    ensures DecodeIso2022Jp(j, state, [x] + s) ==
            if x >= 128 then Illegal
            else if state == 1 && x == 0x5c then Char(0xa5, 1)
            else if state == 1 && x == 0x7e then Char(0x203e, 1)
            else if state == 4 && 0x21 <= x <= 0x5f then Char(0xff61 + (x - 0x21), 1)
            else if state == 4 && 0x60 <= x <= 0x7e then Illegal
            else Char(x, 1)
  {
    assert ([x] + s)[0] == x;
  }

  /** The escape sequences, in every state; the last two are read although no encoder writes them. */
  lemma IsoEscapes(j: Jis, state: nat, x: Byte, y: Byte, s: seq<Byte>)
    ensures DecodeIso2022Jp(j, state, [0x1b, x, y] + s) ==
            if x == 0x28 && y == 0x42 then Skip(3, Iso2022Jp, 0)
            else if x == 0x28 && y == 0x4a then Skip(3, Iso2022Jp, 1)
            else if x == 0x28 && y == 0x49 then Skip(3, Iso2022Jp, 4)
            else if x == 0x24 && y == 0x40 then Skip(3, Iso2022Jp, 2)
            else if x == 0x24 && y == 0x42 then Skip(3, Iso2022Jp, 3)
            else if x == 0x28 && y == 0xc0 then Skip(3, Iso2022Jp, 2)
            else if x == 0x28 && y == 0xc2 then Skip(3, Iso2022Jp, 3)
            else Illegal
  {
    var b := [0x1b, x, y] + s;
    assert b[0] == 0x1b && b[1] == x && b[2] == y;
  }

  // ---------------------------------------------------------------- single bytes and code units

  lemma AsciiForms(t: Tables, state: nat, x: Byte, s: seq<Byte>)
    requires t.Valid()
    ensures Decode(t, Ascii, state, [x] + s) == if x < 128 then Char(x, 1) else Illegal
  {
    assert ([x] + s)[0] == x;
  }

  /** A byte of a packed page is its character; byte 0 is always U+0000, and a zero elsewhere is a hole. */
  lemma PageDecodes(elided: nat, chars: seq<nat>, shared: seq<nat>, b: Byte, s: seq<Byte>)
    requires 1 <= elided <= 64 && |chars| == 256 - 4 * elided && |shared| <= 768
    requires forall i :: 0 <= i < |chars| ==> chars[i] < 256 || chars[i] in shared
    ensures var page := PageOf(elided, chars, shared);
            && page.Valid()
            && DecodeLegacy(page, [b] + s) ==
               if b < 4 * elided then Char(b, 1) else if chars[b - 4 * elided] == 0 then Illegal else Char(chars[b - 4 * elided], 1)
  {
    PageMaps(elided, chars, shared, b);
    assert ([b] + s)[0] == b;
  }

  /** UCS-2 reads every unit that is no surrogate; UTF-16 needs a low surrogate after a high one. */
  lemma UnitForms(u: nat, v: nat, le: bool, s: seq<Byte>)
    requires u < 0x1_0000 && v < 0x1_0000
    ensures var b := Put16(u, le) + (Put16(v, le) + s);
            && DecodeUtf16(b, le, true) == (if 0xd800 <= u < 0xe000 then Illegal else Char(u, 2))
            && DecodeUtf16(b, le, false) ==
               if !(0xd800 <= u < 0xe000) then Char(u, 2)
               else if u < 0xdc00 && 0xdc00 <= v < 0xe000 then Char(0x1_0000 + (u - 0xd800) * 0x400 + (v - 0xdc00), 4)
               else Illegal
  {
    var e := Put16(u, le) + Put16(v, le);
    assert Put16(u, le) + (Put16(v, le) + s) == e + s;
    TwoUnits(u, v, le, s);
  }

  /** UTF-32 reads the scalar values and nothing else. */
  lemma WordForms(c: nat, le: bool, s: seq<Byte>)
    requires c < 0x1_0000_0000
    ensures DecodeUtf32(Put32(c, le) + s, le) == if Scalar(c) then Char(c, 4) else Illegal
  {
    PutThenGet32(c, le, s);
  }

  // ---------------------------------------------------------------- substitutes

  /** What is written for a character that the target cannot carry: an asterisk, or U+FFFD in UCS-2, which is not counted. */
  lemma Substitutes(t: Tables, to: Charset, c: nat)
    requires ValidCharset(to)
    ensures (to.Ascii? || to.EucJp? || to.Iso2022Jp?) && Encode(t, to, c).sub ==> Encode(t, to, c).bytes == [0x2a]
    ensures to.Legacy? && Encode(t, to, c).sub ==>
            |Encode(t, to, c).bytes| == 1 && (Carries(t, to, 0x2a) ==> LegacyMap(to.page, Encode(t, to, c).bytes[0]) == 0x2a)
    ensures to.Ucs2? && c >= 0x1_0000 ==> Encode(t, to, c) == Encode(t, to, 0xfffd) && !Encode(t, to, c).sub
  {
    if to.Legacy? {
      ByteForComplete(to.page, 0x2a);
    }
  }
}
