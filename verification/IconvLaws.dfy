/**
 * What iconv promises across calls: a call that stops can be resumed on the same descriptor, and
 * what was encoded is decoded back.
 */
module IconvLaws {
  import opened Bytes
  import opened IconvTables
  import opened IconvLegacy
  import opened IconvLoop
  import opened Iconv

  // ---------------------------------------------------------------- resuming

  /** Only the shift sequences of ISO-2022-JP and the choice of a byte order are skipped. */
  lemma FixedMode(t: Tables, from: Charset)
    requires t.Valid() && ValidCharset(from) && !from.Auto()
    ensures ModeStays(DecoderOf(t), from)
    ensures !from.Iso2022Jp? ==> forall st: nat :: NoSkips(DecoderOf(t), from, st)
  {
    var d := DecoderOf(t);
    forall st: nat, s: seq<Byte> | |s| > 0 && d.step(from, st, s).Skip?
      ensures d.step(from, st, s).mode == from && from.Iso2022Jp?
    {
      SkipsOnlyShifts(t, from, st, s);
    }
  }

  lemma SkipsOnlyShifts(t: Tables, from: Charset, state: nat, s: seq<Byte>)
    requires t.Valid() && ValidCharset(from) && !from.Auto() && |s| > 0 && Decode(t, from, state, s).Skip?
    ensures from.Iso2022Jp? && Decode(t, from, state, s).l == 3 && Decode(t, from, state, s).mode == from
  {}

  lemma AutoStep(t: Tables, from: Charset, state: nat, s: seq<Byte>)
    requires t.Valid() && from.Auto() && |s| > 0
    ensures DecoderOf(t).step(from, state, s) == DecodeAuto(from, state, s)
  {
    match from {
      case Utf32Auto =>
      case Utf16Auto =>
      case Ucs2Auto =>
    }
  }

  /** An automatic charset waits for its mark, then hands over to the byte order it notes in the descriptor. */
  lemma AutoHandsOver(t: Tables, from: Charset, noted: nat -> Charset)
    requires t.Valid() && from.Auto() && forall st: nat :: noted(st) == Chosen(from, st)
    ensures HandsOver(DecoderOf(t), from, noted)
  {
    var d := DecoderOf(t);
    forall st: nat
      ensures ModeStays(d, noted(st)) && NoSkips(d, noted(st), st)
    {
      FixedMode(t, noted(st));
    }
    forall st: nat, s: seq<Byte> | |s| > 0
      ensures d.step(from, st, s) == DecodeAuto(from, st, s)
    {
      AutoStep(t, from, st, s);
    }
  }

  /**
   * However a call on input a stops, calling again on the same descriptor with the input that was
   * left, more input b and more output space gives in all what one call on a + b would have given.
   */
  lemma DescriptorResumes(t: Tables, from: Charset, to: Charset, state: nat,
                          a: seq<Byte>, b: seq<Byte>, room: nat, more: nat)
    requires t.Valid() && ValidCharset(from) && ValidCharset(to)
    ensures DecoderOf(t).Progress() && ResumesAnew(DecoderOf(t), EncoderOf(t, to), from, state, a, b, room, more)
  {
    var noted := HandOver(t, from);
    DecoderProgress(t);
    DecoderPrefix(t);
    ResumesFromStart(DecoderOf(t), EncoderOf(t, to), from, noted, state, a, b, room, more);
  }

  lemma HandOver(t: Tables, from: Charset) returns (noted: nat -> Charset)
    requires t.Valid() && ValidCharset(from)
    ensures ModeStays(DecoderOf(t), from) || HandsOver(DecoderOf(t), from, noted)
  {
    noted := (st: nat) => Chosen(from, st);
    if from.Auto() {
      AutoHandsOver(t, from, noted);
    } else {
      FixedMode(t, from);
    }
  }

  // ---------------------------------------------------------------- fixed-width units

  lemma PutThenGet16(c: nat, le: bool, s: seq<Byte>)
    requires c < 0x1_0000
    ensures Get16(Put16(c, le) + s, 0, le) == c
  {}

  lemma FourBytes(c: nat)
    requires c < 0x1_0000_0000
    ensures c == c / 0x100_0000 % 0x100 * 0x100_0000 + c / 0x1_0000 % 0x100 * 0x1_0000 + c / 0x100 % 0x100 * 0x100 + c % 0x100
  {
    ByteByByte(c);
    var x, y := c / 0x100, c / 0x100 / 0x100;
    assert c == x * 0x100 + c % 0x100 && x == y * 0x100 + x % 0x100;
    assert y == y / 0x100 * 0x100 + y % 0x100 && y / 0x100 < 0x100;
  }

  lemma PutThenGet32(c: nat, le: bool, s: seq<Byte>)
    requires c < 0x1_0000_0000
    ensures Get32(Put32(c, le) + s, le) == c
  {
    FourBytes(c);
    var p := Put32(c, le);
    assert (p + s)[0] == p[0] && (p + s)[1] == p[1] && (p + s)[2] == p[2] && (p + s)[3] == p[3];
  }

  lemma GetThenPut16(s: seq<Byte>, i: nat, le: bool)
    requires i + 2 <= |s|
    ensures Put16(Get16(s, i, le), le) == s[i..i + 2]
  {}

  lemma LastByte(h: nat, e: int)
    requires 0 <= e < 256
    ensures (h * 0x100 + e) / 0x100 == h && (h * 0x100 + e) % 0x100 == e
  {}

  lemma ByteByByte(c: nat)
    ensures c / 0x1_0000 == c / 0x100 / 0x100 && c / 0x100_0000 == c / 0x100 / 0x100 / 0x100
  {}

  lemma BytesOf32(a: int, b: int, d: int, e: int)
    requires 0 <= a < 256 && 0 <= b < 256 && 0 <= d < 256 && 0 <= e < 256
    ensures var c := a * 0x100_0000 + b * 0x1_0000 + d * 0x100 + e;
            c / 0x100_0000 % 0x100 == a && c / 0x1_0000 % 0x100 == b && c / 0x100 % 0x100 == d && c % 0x100 == e
  {
    ByteByByte(a * 0x100_0000 + b * 0x1_0000 + d * 0x100 + e);
    LastByte(a * 0x1_0000 + b * 0x100 + d, e);
    LastByte(a * 0x100 + b, d);
    LastByte(a, b);
  }

  lemma GetThenPut32(s: seq<Byte>, le: bool)
    requires 4 <= |s|
    ensures Put32(Get32(s, le), le) == s[..4]
  {
    if le {
      BytesOf32(s[3], s[2], s[1], s[0]);
    } else {
      BytesOf32(s[0], s[1], s[2], s[3]);
    }
  }

  // ---------------------------------------------------------------- one character

  predicate Scalar(c: nat) {
    c < 0xd800 || 0xe000 <= c < 0x11_0000
  }

  /** The characters a charset can carry. */
  ghost predicate Carries(t: Tables, cs: Charset, c: nat)
    requires ValidCharset(cs)
  {
    match cs
    case Utf32(_) => Scalar(c)
    case Utf16(_) => Scalar(c)
    case Ucs2(_) => Scalar(c) && c < 0x1_0000
    case Ascii => c < 128
    case Legacy(page) => exists b: Byte :: LegacyMap(page, b) == c
    case EucJp => c < 128 || 0xff61 <= c <= 0xff9f || t.jis.FromUnicode(c) != 0
    case Iso2022Jp => c != 0x1b && (c < 128 || 0xff61 <= c <= 0xff9f || c == 0xa5 || c == 0x203e || t.jis.FromUnicode(c) != 0)
    case _ => false
  }

  /** The encoder substitutes exactly the characters that are not carried, for the charsets that substitute at all. */
  lemma SubstitutesIff(t: Tables, cs: Charset, c: nat)
    requires ValidCharset(cs) && (cs.Ascii? || cs.Legacy? || cs.EucJp? || (cs.Iso2022Jp? && c != 0x1b))
    ensures Encode(t, cs, c).sub <==> !Carries(t, cs, c)
  {
    if cs.Legacy? {
      ByteForComplete(cs.page, c);
    }
  }

  lemma JisPosition(j: Jis, c: nat)
    requires j.Valid() && j.FromUnicode(c) != 0 && c != 0
    ensures var p := j.FromUnicode(c) - 0x2121;
            p >= 0 && p / 256 < 84 && p % 256 < 94 && j.At(p) == c
    ensures j.FromUnicode(c) / 256 == (j.FromUnicode(c) - 0x2121) / 256 + 0x21
    ensures j.FromUnicode(c) % 256 == (j.FromUnicode(c) - 0x2121) % 256 + 0x21
  {}

  lemma DecodeUtf16Encoded(c: nat, le: bool, ucs2: bool, s: seq<Byte>)
    requires Scalar(c) && (ucs2 ==> c < 0x1_0000)
    ensures var e := EncodeUtf16(c, le, ucs2).bytes;
            DecodeUtf16(e + s, le, ucs2) == Char(c, |e|)
  {
    if c < 0x1_0000 {
      PutThenGet16(c, le, s);
    } else {
      var v := c - 0x1_0000;
      TwoUnits(v / 0x400 + 0xd800, v % 0x400 + 0xdc00, le, s);
      assert c == (v / 0x400 + 0xd800 - 0xd7c0) * 0x400 + (v % 0x400 + 0xdc00 - 0xdc00);
    }
  }

  lemma TwoUnits(x: nat, y: nat, le: bool, s: seq<Byte>)
    requires x < 0x1_0000 && y < 0x1_0000
    ensures var e := Put16(x, le) + Put16(y, le);
            |e| == 4 && Get16(e + s, 0, le) == x && Get16(e + s, 2, le) == y
  {
    var h, l := Put16(x, le), Put16(y, le);
    assert (h + l) + s == h + (l + s);
    PutThenGet16(x, le, l + s);
    PutThenGet16(y, le, s);
    assert Get16((h + l) + s, 2, le) == Get16(l + s, 0, le);
  }

  /** The example of section 5 of RFC 2781: U+12345 in both byte orders. */
  lemma Utf16Example()
    ensures EncodeUtf16(0x1_2345, false, false).bytes == [0xd8, 0x08, 0xdf, 0x45]
    ensures EncodeUtf16(0x1_2345, true, false).bytes == [0x08, 0xd8, 0x45, 0xdf]
  {}

  /** Half-width A, the yen sign, the overline and the kanji at JIS 0x3021, in the two Japanese encodings. */
  lemma JapaneseExample()
    ensures JpBytes(Iso2022Jp, 0xff71, 0).bytes == [0x1b, 0x28, 0x49, 0x31, 0x1b, 0x28, 0x42]
    ensures JpBytes(Iso2022Jp, 0xa5, 0).bytes == [0x1b, 0x28, 0x4a, 0x5c, 0x1b, 0x28, 0x42]
    ensures JpBytes(Iso2022Jp, 0x203e, 0).bytes == [0x1b, 0x28, 0x4a, 0x7e, 0x1b, 0x28, 0x42]
    ensures JpBytes(Iso2022Jp, 0x4e9c, 0x3021).bytes == [0x1b, 0x24, 0x42, 0x30, 0x21, 0x1b, 0x28, 0x42]
    ensures JpBytes(EucJp, 0xff71, 0).bytes == [0x8e, 0xb1] && JpBytes(EucJp, 0x4e9c, 0x3021).bytes == [0xb0, 0xa1]
  {}

  /** The bytes of U+12345 in UTF-32, and of "A" in the targets without a byte order. */
  lemma ByteOrderExample(t: Tables)
    ensures Put32(0x1_2345, false) == [0x00, 0x01, 0x23, 0x45] && Put32(0x1_2345, true) == [0x45, 0x23, 0x01, 0x00]
    ensures Encode(t, Utf16Auto, 0x41).bytes == [0x00, 0x41] && Encode(t, Ucs2Auto, 0x41).bytes == [0x00, 0x41]
    ensures Encode(t, Utf32Auto, 0x41).bytes == [0x00, 0x00, 0x00, 0x41]
  {}

  lemma DecodeEucEncoded(j: Jis, c: nat, s: seq<Byte>)
    requires j.Valid() && (c < 128 || 0xff61 <= c <= 0xff9f || j.FromUnicode(c) != 0)
    ensures var e := JpBytes(EucJp, c, j.FromUnicode(c)).bytes;
            DecodeEucJp(j, e + s) == Char(c, |e|)
  {
    if c >= 128 && !(0xff61 <= c <= 0xff9f) {
      KanjiDecodes(j, c);
      EucPair(j, c, j.FromUnicode(c) / 256, j.FromUnicode(c) % 256, s);
    }
  }

  lemma EucPair(j: Jis, c: nat, x: nat, y: nat, s: seq<Byte>)
    requires 0x21 <= x < 128 && 0x21 <= y < 128 && DecodeJis(j, x - 0x21, y - 0x21) == Char(c, 2)
    ensures DecodeEucJp(j, [(x + 0x80) % 256, (y + 0x80) % 256] + s) == Char(c, 2)
  {
    assert (x + 0x80) % 256 == x + 0x80 && (y + 0x80) % 256 == y + 0x80;
    var e: seq<Byte> := [x + 0x80, y + 0x80] + s;
    assert e[0] == x + 0x80 && e[1] == y + 0x80;
    EucTurn(j, e, x - 0x21, y - 0x21);
  }

  lemma EucTurn(j: Jis, e: seq<Byte>, row: nat, col: nat)
    requires |e| >= 2 && e[0] == row + 0xa1 && e[1] == col + 0xa1
    ensures DecodeEucJp(j, e) == DecodeJis(j, row, col)
  {}

  /** Decoding one encoded character, for the charsets without shift states. */
  lemma DecodeEncoded(t: Tables, cs: Charset, state: nat, c: nat, s: seq<Byte>)
    requires t.Valid() && ValidCharset(cs) && Carries(t, cs, c) && (cs.Iso2022Jp? ==> c < 128 && state == 0)
    ensures var e := Encode(t, cs, c).bytes;
            |e| > 0 && Decode(t, cs, state, e + s) == Char(c, |e|)
  {
    match cs {
      case Utf32(le) => PutThenGet32(c, le, s);
      case Utf16(le) => DecodeUtf16Encoded(c, le, false, s);
      case Ucs2(le) => DecodeUtf16Encoded(c, le, true, s);
      case EucJp => DecodeEucEncoded(t.jis, c, s);
      case Legacy(page) => ByteForComplete(page, c);
      case Ascii =>
      case Iso2022Jp =>
    }
  }

  // ---------------------------------------------------------------- ISO-2022-JP

  /** The escape sequences of ISO-2022-JP. */
  lemma Escape(t: Tables, state: nat, x: Byte, y: Byte, state': nat)
    requires t.Valid()
    requires || (x == 0x28 && y == 0x42 && state' == 0) || (x == 0x28 && y == 0x4a && state' == 1)
             || (x == 0x28 && y == 0x49 && state' == 4) || (x == 0x24 && y == 0x42 && state' == 3)
    ensures Shifts(DecoderOf(t), Iso2022Jp, state, [0x1b, x, y], state')
  {
    forall s: seq<Byte>
      ensures DecodeIso2022Jp(t.jis, state, [0x1b, x, y] + s) == Skip(3, Iso2022Jp, state')
    {}
  }

  /** The bytes of a character between its escape sequences, and the state they are read in. */
  function Body(c: nat, jis: nat): seq<Byte> {
    if 0xff61 <= c <= 0xff9f then [c - 0xff61 + 0x21]
    else if c == 0xa5 then [0x5c]
    else if c == 0x203e then [0x7e]
    else [jis / 256 % 256, jis % 256]
  }

  function BodyState(c: nat): nat {
    if 0xff61 <= c <= 0xff9f then 4 else if c == 0xa5 || c == 0x203e then 1 else 3
  }

  function EscapeTo(state: nat): seq<Byte> {
    if state == 4 then [0x1b, 0x28, 0x49] else if state == 1 then [0x1b, 0x28, 0x4a] else [0x1b, 0x24, 0x42]
  }

  lemma BodyDecodes(j: Jis, c: nat, s: seq<Byte>)
    requires j.Valid() && c >= 128 && (0xff61 <= c <= 0xff9f || c == 0xa5 || c == 0x203e || j.FromUnicode(c) != 0)
    ensures var body := Body(c, j.FromUnicode(c));
            DecodeIso2022Jp(j, BodyState(c), body + s) == Char(c, |body|)
  {
    if 0xff61 <= c <= 0xff9f || c == 0xa5 || c == 0x203e {
      OneByteDecodes(j, c, j.FromUnicode(c), s);
    } else {
      KanjiDecodes(j, c);
      TwoBytesDecode(j, c, j.FromUnicode(c), s);
    }
  }

  lemma OneByteDecodes(j: Jis, c: nat, n: nat, s: seq<Byte>)
    requires 0xff61 <= c <= 0xff9f || c == 0xa5 || c == 0x203e
    ensures DecodeIso2022Jp(j, BodyState(c), Body(c, n) + s) == Char(c, 1) && |Body(c, n)| == 1
  {}

  lemma TwoBytesDecode(j: Jis, c: nat, n: nat, s: seq<Byte>)
    requires DecodeJis(j, n / 256 - 0x21, n % 256 - 0x21) == Char(c, 2) && 0x21 <= n / 256 < 128 && 0x21 <= n % 256 < 128
    ensures DecodeIso2022Jp(j, 3, [n / 256 % 256, n % 256] + s) == Char(c, 2)
  {
    var x, y := n / 256, n % 256;
    assert x % 256 == x;
    var b: seq<Byte> := [x, y] + s;
    assert b[0] == x && b[1] == y;
  }

  lemma KanjiDecodes(j: Jis, c: nat)
    requires j.Valid() && c != 0 && j.FromUnicode(c) != 0
    ensures var n := j.FromUnicode(c);
            DecodeJis(j, n / 256 - 0x21, n % 256 - 0x21) == Char(c, 2) && 0x21 <= n / 256 < 128 && 0x21 <= n % 256 < 128
  {
    JisPosition(j, c);
  }

  lemma JpBytesShape(c: nat, jis: nat)
    requires c >= 128 && (0xff61 <= c <= 0xff9f || c == 0xa5 || c == 0x203e || jis != 0)
    ensures JpBytes(Iso2022Jp, c, jis).bytes == EscapeTo(BodyState(c)) + Body(c, jis) + [0x1b, 0x28, 0x42]
  {}

  lemma IsoReadsBack(t: Tables, enc: nat -> Encoded, c: nat)
    requires t.Valid() && Carries(t, Iso2022Jp, c) && c >= 128 && DecoderOf(t).Progress()
    ensures ReadsAs(DecoderOf(t), enc, Iso2022Jp, 0, Encode(t, Iso2022Jp, c).bytes, c)
  {
    var jis, st := t.jis.FromUnicode(c), BodyState(c);
    var body := Body(c, jis);
    forall s: seq<Byte>
      ensures DecoderOf(t).step(Iso2022Jp, st, body + s) == Char(c, |body|)
    {
      BodyDecodes(t.jis, c, s);
    }
    JpBytesShape(c, jis);
    Escape(t, 0, EscapeTo(st)[1], EscapeTo(st)[2], st);
    Escape(t, st, 0x28, 0x42, 0);
    ReadsShifted(DecoderOf(t), enc, Iso2022Jp, 0, st, Encode(t, Iso2022Jp, c).bytes, EscapeTo(st), body, [0x1b, 0x28, 0x42], c);
  }

  /** Every character a charset carries is read back from its encoding. */
  lemma ReadsBack(t: Tables, cs: Charset, enc: nat -> Encoded, state: nat, c: nat)
    requires t.Valid() && ValidCharset(cs) && Carries(t, cs, c) && DecoderOf(t).Progress()
    requires cs.Iso2022Jp? ==> state == 0
    ensures ReadsAs(DecoderOf(t), enc, cs, state, Encode(t, cs, c).bytes, c)
  {
    if cs.Iso2022Jp? && c >= 128 {
      IsoReadsBack(t, enc, c);
    } else {
      var e := Encode(t, cs, c).bytes;
      forall s: seq<Byte>
        ensures |e| > 0 && DecoderOf(t).step(cs, state, e + s) == Char(c, |e|)
      {
        DecodeEncoded(t, cs, state, c, s);
      }
      ReadsOne(DecoderOf(t), enc, cs, state, e, c);
    }
  }

  // ---------------------------------------------------------------- whole strings

  ghost predicate CarriesAll(t: Tables, cs: Charset, text: seq<nat>)
    requires ValidCharset(cs)
  {
    forall i :: 0 <= i < |text| ==> Carries(t, cs, text[i])
  }

  /** Converting a text from a charset that carries it: the same text in the other charset, and the state is back where it was. */
  lemma ConvertsText(t: Tables, from: Charset, to: Charset, state: nat, text: seq<nat>, room: nat)
    requires t.Valid() && ValidCharset(from) && ValidCharset(to) && CarriesAll(t, from, text)
    requires from.Iso2022Jp? ==> state == 0
    requires |Text(EncoderOf(t, to), text)| <= room
    ensures var own, enc := EncoderOf(t, from), EncoderOf(t, to);
            Call(t, from, to, state, Text(own, text), room)
            == Outcome(|Text(own, text)|, Text(enc, text), Substituted(enc, text), Done, from, state)
  {
    DecoderProgress(t);
    var own, enc := EncoderOf(t, from), EncoderOf(t, to);
    forall i | 0 <= i < |text|
      ensures ReadsAs(DecoderOf(t), enc, from, state, own(text[i]).bytes, text[i])
    {
      ReadsBack(t, from, enc, state, text[i]);
    }
    ReadsText(DecoderOf(t), own, enc, from, state, text, room);
  }

  /** A text both charsets carry survives the conversion to the other and back, byte for byte. */
  lemma ThereAndBack(t: Tables, one: Charset, other: Charset, text: seq<nat>, room: nat, more: nat)
    requires t.Valid() && ValidCharset(one) && ValidCharset(other)
    requires CarriesAll(t, one, text) && CarriesAll(t, other, text)
    requires |Text(EncoderOf(t, other), text)| <= room && |Text(EncoderOf(t, one), text)| <= more
    ensures var there := Call(t, one, other, 0, Text(EncoderOf(t, one), text), room);
            var back := Call(t, other, one, 0, there.out, more);
            && there.status == Done && back.status == Done
            && back.out == Text(EncoderOf(t, one), text) && there.state == back.state == 0
  {
    ConvertsText(t, one, other, 0, text, room);
    ConvertsText(t, other, one, 0, text, more);
  }

  /** The byte-order mark of an automatic charset. */
  function Mark(auto: Charset, le: bool): seq<Byte> {
    if auto.Utf32Auto? then Put32(0xfeff, le) else Put16(0xfeff, le)
  }

  /** The state that notes a byte order. */
  function Noted(le: bool): nat {
    if le then 2 else 1
  }

  /** Input behind a mark is read in that byte order, and the descriptor notes it. */
  lemma MarkedInput(t: Tables, auto: Charset, le: bool, to: Charset, s: seq<Byte>, room: nat)
    requires t.Valid() && ValidCharset(to) && auto.Auto()
    ensures var r := Call(t, Chosen(auto, Noted(le)), to, Noted(le), s, room);
            && Call(t, auto, to, 0, Mark(auto, le) + s, room) == r.(consumed := |Mark(auto, le)| + r.consumed)
            && r.state == Noted(le)
  {
    DecoderProgress(t);
    MarkRead(t, auto, le, s);
    var fixed, st := Chosen(auto, Noted(le)), Noted(le);
    RunSkip(DecoderOf(t), EncoderOf(t, to), auto, 0, Mark(auto, le), fixed, st, s, room);
    StateStays(t, fixed, to, st, s, room);
  }

  lemma StateStays(t: Tables, fixed: Charset, to: Charset, state: nat, s: seq<Byte>, room: nat)
    requires t.Valid() && ValidCharset(fixed) && ValidCharset(to) && !fixed.Auto() && !fixed.Iso2022Jp?
    ensures Call(t, fixed, to, state, s, room).state == state
  {
    DecoderProgress(t);
    FixedMode(t, fixed);
    ModeKept(DecoderOf(t), EncoderOf(t, to), fixed, state, s, room);
  }

  lemma MarkRead(t: Tables, auto: Charset, le: bool, s: seq<Byte>)
    requires t.Valid() && auto.Auto()
    ensures DecoderOf(t).step(auto, 0, Mark(auto, le) + s) == Skip(|Mark(auto, le)|, Chosen(auto, Noted(le)), Noted(le))
  {
    AutoStep(t, auto, 0, Mark(auto, le) + s);
    MarkBytes(auto, le, s);
  }

  lemma MarkBytes(auto: Charset, le: bool, s: seq<Byte>)
    requires auto.Auto()
    ensures DecodeAuto(auto, 0, Mark(auto, le) + s) == Skip(|Mark(auto, le)|, Chosen(auto, Noted(le)), Noted(le))
  {
    if auto.Utf32Auto? {
      Mark32(le, s);
    }
  }

  lemma Mark32(le: bool, s: seq<Byte>)
    ensures |Put32(0xfeff, le)| == 4 && Get32(Put32(0xfeff, le) + s, false) == if le then 0xfffe_0000 else 0xfeff
  {
    assert Put32(0xfeff, true) == Put32(0xfffe_0000, false);
    PutThenGet32(if le then 0xfffe_0000 else 0xfeff, false, s);
  }

  /** A text behind a byte-order mark is read in that byte order. */
  lemma MarkDecides(t: Tables, auto: Charset, le: bool, to: Charset, text: seq<nat>, room: nat)
    requires t.Valid() && ValidCharset(to) && auto.Auto() && CarriesAll(t, Chosen(auto, Noted(le)), text)
    requires |Text(EncoderOf(t, to), text)| <= room
    ensures var own, enc := EncoderOf(t, Chosen(auto, Noted(le))), EncoderOf(t, to);
            var o := Call(t, auto, to, 0, Mark(auto, le) + Text(own, text), room);
            o.status == Done && o.out == Text(enc, text) && o.state == Noted(le)
  {
    var fixed := Chosen(auto, Noted(le));
    MarkedInput(t, auto, le, to, Text(EncoderOf(t, fixed), text), room);
    ConvertsText(t, fixed, to, Noted(le), text, room);
  }

  /** The first character of a big-endian text that looks like a mark. */
  predicate LooksMarked(auto: Charset, c: nat) {
    c == 0xfeff || (c == 0xfffe && !auto.Utf32Auto?)
  }

  lemma UnmarkedRead(t: Tables, auto: Charset, c: nat, s: seq<Byte>)
    requires t.Valid() && auto.Auto() && Carries(t, Chosen(auto, 1), c) && !LooksMarked(auto, c)
    ensures var e := Encode(t, Chosen(auto, 1), c).bytes;
            |e| > 0 && DecoderOf(t).step(auto, 0, e + s) == Skip(0, Chosen(auto, 1), 1)
  {
    var e := Encode(t, Chosen(auto, 1), c).bytes;
    AutoStep(t, auto, 0, e + s);
    if auto.Utf32Auto? {
      PutThenGet32(c, false, s);
    } else if c < 0x1_0000 {
      PutThenGet16(c, false, s);
    } else {
      var v := c - 0x1_0000;
      var h, l := Put16(v / 0x400 + 0xd800, false), Put16(v % 0x400 + 0xdc00, false);
      assert (h + l) + s == h + (l + s);
      PutThenGet16(v / 0x400 + 0xd800, false, l + s);
    }
  }

  /** Without a mark a text is taken for big-endian, and read as it was written unless it looks marked. */
  lemma UnmarkedText(t: Tables, auto: Charset, to: Charset, text: seq<nat>, room: nat)
    requires t.Valid() && ValidCharset(to) && auto.Auto() && CarriesAll(t, Chosen(auto, 1), text)
    requires |text| > 0 && !LooksMarked(auto, text[0]) && |Text(EncoderOf(t, to), text)| <= room
    ensures var own, enc := EncoderOf(t, Chosen(auto, 1)), EncoderOf(t, to);
            var o := Call(t, auto, to, 0, Text(own, text), room);
            o.status == Done && o.out == Text(enc, text) && o.state == 1
  {
    DecoderProgress(t);
    var fixed := Chosen(auto, 1);
    var s := Text(EncoderOf(t, fixed), text);
    UnmarkedRead(t, auto, text[0], Text(EncoderOf(t, fixed), text[1..]));
    assert [] + s == s;
    RunSkip(DecoderOf(t), EncoderOf(t, to), auto, 0, [], fixed, 1, s, room);
    ConvertsText(t, fixed, to, 1, text, room);
  }

  /** A text that looks marked loses its first character, and one that begins with U+FFFE is read in the other byte order. */
  lemma LooksMarkedText(t: Tables, auto: Charset, to: Charset, text: seq<nat>, room: nat)
    requires t.Valid() && ValidCharset(to) && auto.Auto() && CarriesAll(t, Chosen(auto, 1), text)
    requires |text| > 0 && LooksMarked(auto, text[0])
    ensures var own, le := EncoderOf(t, Chosen(auto, 1)), text[0] == 0xfffe;
            var r := Call(t, Chosen(auto, Noted(le)), to, Noted(le), Text(own, text[1..]), room);
            Call(t, auto, to, 0, Text(own, text), room) == r.(consumed := |Mark(auto, le)| + r.consumed)
  {
    var own, le := EncoderOf(t, Chosen(auto, 1)), text[0] == 0xfffe;
    assert own(text[0]).bytes == Mark(auto, le);
    MarkedInput(t, auto, le, to, Text(own, text[1..]), room);
  }

  // ---------------------------------------------------------------- targets without a byte order

  /** A target without a byte order is written big-endian. */
  lemma AutoEncodes(t: Tables, to: Charset, c: nat)
    requires to.Auto()
    ensures EncoderOf(t, to)(c) == EncoderOf(t, Chosen(to, 1))(c)
  {}

  lemma AutoTarget(t: Tables, from: Charset, to: Charset, state: nat, s: seq<Byte>, room: nat)
    requires to.Auto()
    ensures Call(t, from, to, state, s, room) == Call(t, from, Chosen(to, 1), state, s, room)
  {
    DecoderProgress(t);
    forall c: nat
      ensures EncoderOf(t, to)(c) == EncoderOf(t, Chosen(to, 1))(c)
    {
      AutoEncodes(t, to, c);
    }
    SameEncoder(DecoderOf(t), EncoderOf(t, to), EncoderOf(t, Chosen(to, 1)), from, state, s, room);
  }

  /** A text that does not look marked, written to such a target and read from it, comes back. */
  lemma AutoThereAndBack(t: Tables, other: Charset, auto: Charset, text: seq<nat>, room: nat, more: nat)
    requires t.Valid() && ValidCharset(other) && auto.Auto() && |text| > 0 && !LooksMarked(auto, text[0])
    requires CarriesAll(t, other, text) && CarriesAll(t, Chosen(auto, 1), text)
    requires |Text(EncoderOf(t, Chosen(auto, 1)), text)| <= room && |Text(EncoderOf(t, other), text)| <= more
    ensures var there := Call(t, other, auto, 0, Text(EncoderOf(t, other), text), room);
            var back := Call(t, auto, other, 0, there.out, more);
            there.status == Done && back.status == Done && back.out == Text(EncoderOf(t, other), text)
  {
    AutoTarget(t, other, auto, 0, Text(EncoderOf(t, other), text), room);
    ConvertsText(t, other, Chosen(auto, 1), 0, text, room);
    UnmarkedText(t, auto, other, text, more);
  }

  // ---------------------------------------------------------------- what the Unicode decoders accept

  /** A code unit or a surrogate pair that is accepted is the encoding of what is read. */
  lemma AcceptedUnit(t: Tables, cs: Charset, state: nat, s: seq<Byte>)
    requires t.Valid() && ValidCharset(cs) && (cs.Utf32? || cs.Utf16?) && |s| > 0 && Decode(t, cs, state, s).Char?
    ensures var d := Decode(t, cs, state, s);
            Scalar(d.c) && d.l <= |s| && Encode(t, cs, d.c).bytes == s[..d.l]
  {
    if cs.Utf32? {
      GetThenPut32(s, cs.le);
    } else {
      GetThenPut16(s, 0, cs.le);
      var d := Decode(t, cs, state, s);
      if d.l == 4 {
        GetThenPut16(s, 2, cs.le);
        var h, l := Get16(s, 0, cs.le), Get16(s, 2, cs.le);
        var v := d.c - 0x1_0000;
        assert v == (h - 0xd800) * 0x400 + (l - 0xdc00);
        assert v / 0x400 == h - 0xd800 && v % 0x400 == l - 0xdc00;
        assert s[..4] == s[0..2] + s[2..4];
      }
    }
  }

  lemma UnicodeCanonical(t: Tables, cs: Charset, state: nat)
    requires t.Valid() && (cs.Utf32? || cs.Utf16?)
    ensures Canonical(DecoderOf(t), EncoderOf(t, cs), cs, state, Scalar)
  {
    FixedMode(t, cs);
    var d := DecoderOf(t);
    forall s: seq<Byte> | |s| > 0 && d.step(cs, state, s).Char?
      ensures var r := d.step(cs, state, s); Scalar(r.c) && r.l <= |s| && EncoderOf(t, cs)(r.c).bytes == s[..r.l]
    {
      AcceptedUnit(t, cs, state, s);
    }
  }

  lemma {:induction false} NoneSubstituted(t: Tables, cs: Charset, text: seq<nat>)
    requires cs.Utf32? || cs.Utf16?
    ensures Substituted(EncoderOf(t, cs), text) == 0
  {
    if |text| > 0 {
      NoneSubstituted(t, cs, text[1..]);
    }
  }

  /** Whatever bytes UTF-32 or UTF-16 accepts come back unchanged through the other, in either byte order. */
  lemma UnicodeThereAndBack(t: Tables, one: Charset, other: Charset, s: seq<Byte>, room: nat, more: nat)
    requires t.Valid() && (one.Utf32? || one.Utf16?) && (other.Utf32? || other.Utf16?)
    requires Call(t, one, other, 0, s, room).status == Done && |s| <= more
    ensures var there := Call(t, one, other, 0, s, room);
            var back := Call(t, other, one, 0, there.out, more);
            there.consumed == |s| && back.status == Done && back.out == s && there.subs == back.subs == 0
  {
    DecoderProgress(t);
    UnicodeCanonical(t, one, 0);
    var text := AcceptedIsText(DecoderOf(t), EncoderOf(t, one), EncoderOf(t, other), one, 0, Scalar, s, room);
    assert CarriesAll(t, one, text) && CarriesAll(t, other, text);
    ConvertsText(t, one, other, 0, text, room);
    ConvertsText(t, other, one, 0, text, more);
    NoneSubstituted(t, one, text);
    NoneSubstituted(t, other, text);
  }
}
