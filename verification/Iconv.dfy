/**
 * iconv.c: decoding one character, encoding one character, and the conversion loop with its
 * limited output, its truncated input and the state it keeps between calls.
 */
module Iconv {
  import opened Bytes
  import opened IconvTables
  import opened IconvLegacy
  import opened IconvLoop

  datatype Charset =
    | Utf32(le: bool) | Utf16(le: bool) | Ucs2(le: bool)
    | Utf32Auto | Utf16Auto | Ucs2Auto
    | Ascii | EucJp | Iso2022Jp | Gb2312 | Gbk | Gb18030 | Legacy(page: CodePage)
  {
    predicate Auto() {
      Utf32Auto? || Utf16Auto? || Ucs2Auto?
    }
  }

  datatype Tables = Tables(jis: Jis, gb: seq<seq<nat>>) {
    ghost predicate Valid() {
      && jis.Valid()
      && |gb| == 126 && (forall i :: 0 <= i < 126 ==> |gb[i]| == 190)
    }
  }

  ghost predicate ValidCharset(cs: Charset) {
    cs.Legacy? ==> cs.page.Valid()
  }

  // The descriptor state: 0 at first; 1 or 2 once big- or little-endian has been chosen;
  // for ISO-2022-JP the number of the character set that is shifted in.

  /** The charset an automatic one has settled on. */
  function Chosen(cs: Charset, state: nat): Charset {
    match cs
    case Utf32Auto => Utf32(state == 2)
    case Utf16Auto => Utf16(state == 2)
    case Ucs2Auto => Ucs2(state == 2)
    case _ => cs
  }

  /** get_16 and get_32. */
  function Get16(s: seq<Byte>, i: nat, le: bool): nat
    requires i + 2 <= |s|
  {
    var a: int, b: int := s[i], s[i + 1];
    if le then b * 0x100 + a else a * 0x100 + b
  }

  function Get32(s: seq<Byte>, le: bool): nat
    requires 4 <= |s|
  {
    var a: int, b: int, c: int, d: int := s[0], s[1], s[2], s[3];
    if le then d * 0x100_0000 + c * 0x1_0000 + b * 0x100 + a
    else a * 0x100_0000 + b * 0x1_0000 + c * 0x100 + d
  }

  /** put_16 and put_32. */
  function Put16(c: nat, le: bool): seq<Byte>
  {
    var hi, lo := c / 0x100 % 0x100, c % 0x100;
    if le then [lo, hi] else [hi, lo]
  }

  function Put32(c: nat, le: bool): seq<Byte>
  {
    var a, b, d, e := c / 0x100_0000 % 0x100, c / 0x1_0000 % 0x100, c / 0x100 % 0x100, c % 0x100;
    if le then [e, d, b, a] else [a, b, d, e]
  }

  type Turn = Step<Charset>

  function DecodeUtf32(s: seq<Byte>, le: bool): Turn {
    if |s| < 4 then Starved else
      var c := Get32(s, le);
      if 0xd800 <= c < 0xe000 || c >= 0x11_0000 then Illegal else Char(c, 4)
  }

  function DecodeUtf16(s: seq<Byte>, le: bool, ucs2: bool): Turn {
    if |s| < 2 then Starved else
      var c := Get16(s, 0, le);
      if 0xdc00 <= c < 0xe000 then Illegal
      else if 0xd800 <= c < 0xdc00 then
        if ucs2 then Illegal
        else if |s| < 4 then Starved else
          var d := Get16(s, 2, le);
          if !(0xdc00 <= d < 0xe000) then Illegal
          else Char((c - 0xd7c0) * 0x400 + (d - 0xdc00), 4)
      else Char(c, 2)
  }

  /** The byte-order mark decides; without one it is big-endian and nothing is consumed. */
  function DecodeAuto(cs: Charset, state: nat, s: seq<Byte>): Turn
    requires cs.Auto()
  {
    if state != 0 then Skip(0, Chosen(cs, state), state)
    else if cs.Utf32Auto? then
      if |s| < 4 then Starved else
        var c := Get32(s, false);
        var chosen := if c == 0xfffe_0000 then 2 else 1;
        Skip(if c == 0xfffe_0000 || c == 0xfeff then 4 else 0, Chosen(cs, chosen), chosen)
    else
      if |s| < 2 then Starved else
        var c := Get16(s, 0, false);
        var chosen := if c == 0xfffe then 2 else 1;
        Skip(if c == 0xfffe || c == 0xfeff then 2 else 0, Chosen(cs, chosen), chosen)
  }

  /** A JIS row and column, counted from their first byte values. */
  function DecodeJis(j: Jis, row: int, col: int): Turn {
    if !(0 <= row < 84 && 0 <= col < 94) then Illegal else
      var c := j.At(row * 256 + col);
      if c == 0 then Illegal else Char(c, 2)
  }

  function DecodeEucJp(j: Jis, s: seq<Byte>): Turn
    requires |s| > 0
  {
    if s[0] < 128 then Char(s[0], 1)
    else if |s| < 2 then Starved
    else
      var c: int, d: int := s[0], s[1];
      if c == 0x8e then if 0xa1 <= d <= 0xdf then Char(d + (0xff61 - 0xa1), 2) else Illegal
      else DecodeJis(j, c - 0xa1, d - 0xa1)
  }

  function DecodeIso2022Jp(j: Jis, state: nat, s: seq<Byte>): Turn
    requires |s| > 0
  {
    var c: int := s[0];
    if c >= 128 then Illegal
    else if c == 0x1b then
      if |s| < 3 then Starved
      else if s[1] != 0x28 && s[1] != 0x24 then Illegal
      else
        // one sum for both kinds of escape, so ESC ( with a third byte 0xc0 or 0xc2 shifts too
        var sum: int := s[2] as int + if s[1] == 0x24 then 128 else 0;
        if sum == 0x42 then Skip(3, Iso2022Jp, 0)
        else if sum == 0x4a then Skip(3, Iso2022Jp, 1)
        else if sum == 0x49 then Skip(3, Iso2022Jp, 4)
        else if sum == 0xc0 then Skip(3, Iso2022Jp, 2)
        else if sum == 0xc2 then Skip(3, Iso2022Jp, 3)
        else Illegal
    else if state == 1 then Char(if c == 0x5c then 0xa5 else if c == 0x7e then 0x203e else c, 1)
    else if state == 2 || state == 3 then
      if |s| < 2 then Starved else DecodeJis(j, c - 0x21, s[1] as int - 0x21)
    else if state == 4 then
      if 0x60 <= c < 0x7f then Illegal else Char(if 0x21 <= c < 0x7f then c + (0xff61 - 0x21) else c, 1)
    else Char(c, 1)
  }

  /** The four bytes of GB18030, when they are in range, and the rank they stand for. */
  predicate FourByte(s: seq<Byte>) {
    |s| >= 4 && 0x81 <= s[0] < 0x81 + 126 && 0x30 <= s[1] <= 0x39 && 0x81 <= s[2] && 0x30 <= s[3] <= 0x39
  }

  function FourByteIndex(s: seq<Byte>): nat
    requires FourByte(s)
  {
    var c: int, d: int, e: int, f: int := s[0], s[1], s[2], s[3];
    (10 * (c - 0x81) + (d - 0x30)) * 1260 + 10 * (e - 0x81) + (f - 0x30) + 128
  }

  function DecodeGb(t: Tables, cs: Charset, s: seq<Byte>): Turn
    requires |s| > 0 && (cs.Gb2312? || cs.Gbk? || cs.Gb18030?)
    requires |t.gb| == 126 && forall i :: 0 <= i < 126 ==> |t.gb[i]| == 190
  {
    var c: int := s[0];
    if c < 128 then Char(c, 1)
    else if cs.Gb2312? && c < 0xa1 then Illegal
    else if !(0x81 <= c < 0x81 + 126) then Illegal
    else if |s| < 2 then Starved
    else
      var d: int := s[1];
      if d < 0xa1 && cs.Gb2312? then Illegal
      else if !(0x40 <= d < 0x40 + 191) || d == 127 then
        if !(0x30 <= d <= 0x39) || !cs.Gb18030? then Illegal
        else if |s| < 4 then Starved
        else
          if s[2] < 0x81 || !(0x30 <= s[3] <= 0x39) then Illegal
          else Char(Select(Flatten(t.gb), 0, FourByteIndex(s)), 4)
      else
        var col := if d - 0x40 > 63 then d - 0x41 else d - 0x40;
        Char(t.gb[c - 0x81][col], 2)
  }

  function DecodeLegacy(page: CodePage, s: seq<Byte>): Turn
    requires |s| > 0 && page.Valid()
  {
    if s[0] == 0 then Char(0, 1) else
      var c := LegacyMap(page, s[0]);
      if c == 0 then Illegal else Char(c, 1)
  }

  function Decode(t: Tables, from: Charset, state: nat, s: seq<Byte>): Turn
    requires t.Valid() && ValidCharset(from) && |s| > 0
  {
    match from
    case Utf32(le) => DecodeUtf32(s, le)
    case Utf16(le) => DecodeUtf16(s, le, false)
    case Ucs2(le) => DecodeUtf16(s, le, true)
    case Utf32Auto => DecodeAuto(from, state, s)
    case Utf16Auto => DecodeAuto(from, state, s)
    case Ucs2Auto => DecodeAuto(from, state, s)
    case Ascii => if s[0] >= 128 then Illegal else Char(s[0], 1)
    case EucJp => DecodeEucJp(t.jis, s)
    case Iso2022Jp => DecodeIso2022Jp(t.jis, state, s)
    case Legacy(page) => DecodeLegacy(page, s)
    case _ => DecodeGb(t, from, s)
  }

  const STAR: nat := 0x2a

  /** The Japanese encodings of c, given its JIS position (0 for none). */
  function JpBytes(to: Charset, c: nat, jis: nat): Encoded
    requires to.EucJp? || to.Iso2022Jp?
  {
    if c < 128 then Encoded([c], false)
    else if to.EucJp? then
      if 0xff61 <= c <= 0xff9f then Encoded([0x8e, c - 0xff61 + 0xa1], false)
      else if jis == 0 then Encoded([STAR], true)
      else Encoded([(jis / 256 + 0x80) % 256, (jis % 256 + 0x80) % 256], false)
    else
      if 0xff61 <= c <= 0xff9f then Encoded([0x1b, 0x28, 0x49, c - 0xff61 + 0x21, 0x1b, 0x28, 0x42], false)
      else if c == 0xa5 then Encoded([0x1b, 0x28, 0x4a, 0x5c, 0x1b, 0x28, 0x42], false)
      else if c == 0x203e then Encoded([0x1b, 0x28, 0x4a, 0x7e, 0x1b, 0x28, 0x42], false)
      else if jis == 0 then Encoded([STAR], true)
      else Encoded([0x1b, 0x24, 0x42, jis / 256 % 256, jis % 256, 0x1b, 0x28, 0x42], false)
  }

  function EncodeLegacy(page: CodePage, c: nat): Encoded
    requires page.Valid()
  {
    var b := ByteFor(page, c);
    if b != -1 then Encoded([b], false) else
      var star := ByteFor(page, STAR);
      Encoded([if star != -1 then star else STAR], true)
  }

  function EncodeUtf16(c: nat, le: bool, ucs2: bool): Encoded {
    if c < 0x1_0000 || ucs2 then Encoded(Put16(if c >= 0x1_0000 then 0xfffd else c, le), false)
    else
      var v := c - 0x1_0000;
      Encoded(Put16(v / 0x400 + 0xd800, le) + Put16(v % 0x400 + 0xdc00, le), false)
  }

  ghost function Encode(t: Tables, to: Charset, c: nat): Encoded
    requires ValidCharset(to)
  {
    match to
    case Utf32(le) => Encoded(Put32(c, le), false)
    case Utf32Auto => Encoded(Put32(c, false), false)
    case Utf16(le) => EncodeUtf16(c, le, false)
    case Utf16Auto => EncodeUtf16(c, false, false)
    case Ucs2(le) => EncodeUtf16(c, le, true)
    case Ucs2Auto => EncodeUtf16(c, false, true)
    case Ascii => if c > 0x7f then Encoded([STAR], true) else Encoded([c], false)
    case Legacy(page) => EncodeLegacy(page, c)
    case EucJp => JpBytes(to, c, t.jis.FromUnicode(c))
    case Iso2022Jp => JpBytes(to, c, t.jis.FromUnicode(c))
    case _ => Encoded([STAR], true)  // not accepted as a target by iconv_open
  }

  /** The decoders as one, for the loop. */
  ghost function DecoderOf(t: Tables): Decoder<Charset> {
    Decoder((cs: Charset, st: nat, s: seq<Byte>) => if t.Valid() && ValidCharset(cs) && |s| > 0 then Decode(t, cs, st, s) else Illegal,
            (cs: Charset) => if cs.Auto() then 1 else 0)
  }

  ghost function EncoderOf(t: Tables, to: Charset): nat -> Encoded
    requires ValidCharset(to)
  {
    (c: nat) => Encode(t, to, c)
  }

  lemma TurnProgress(t: Tables, cs: Charset, state: nat, s: seq<Byte>)
    requires t.Valid() && ValidCharset(cs) && |s| > 0
    ensures match Decode(t, cs, state, s)
            case Skip(l, cs', _) => ValidCharset(cs') && l <= |s| && (l > 0 || (cs.Auto() && !cs'.Auto()))
            case Char(_, l) => 0 < l <= |s|
            case _ => true
  {}

  lemma DecoderProgress(t: Tables)
    ensures DecoderOf(t).Progress()
  {
    var d := DecoderOf(t);
    forall cs: Charset, st: nat, s: seq<Byte> | |s| > 0
      ensures match d.step(cs, st, s)
              case Skip(l, cs', _) => l <= |s| && (l > 0 || d.rank(cs') < d.rank(cs))
              case Char(_, l) => 0 < l <= |s|
              case _ => true
    {
      if t.Valid() && ValidCharset(cs) {
        TurnProgress(t, cs, st, s);
      }
    }
  }

  /** Input that follows does not change a decision that has been taken. */
  lemma PrefixTurn(t: Tables, cs: Charset, state: nat, a: seq<Byte>, b: seq<Byte>)
    requires t.Valid() && ValidCharset(cs) && |a| > 0 && !Decode(t, cs, state, a).Starved?
    ensures Decode(t, cs, state, a + b) == Decode(t, cs, state, a)
  {
    match cs {
      case Utf32(le) => PrefixUtf32(a, b, le);
      case Utf16(le) => PrefixUtf16(a, b, le, false);
      case Ucs2(le) => PrefixUtf16(a, b, le, true);
      case Utf32Auto => PrefixAuto(cs, state, a, b);
      case Utf16Auto => PrefixAuto(cs, state, a, b);
      case Ucs2Auto => PrefixAuto(cs, state, a, b);
      case Ascii =>
      case EucJp => PrefixEucJp(t.jis, a, b);
      case Iso2022Jp => PrefixIso2022Jp(t.jis, state, a, b);
      case Legacy(page) =>
      case _ => PrefixGb(t, cs, a, b);
    }
  }

  lemma PrefixUtf32(a: seq<Byte>, b: seq<Byte>, le: bool)
    requires !DecodeUtf32(a, le).Starved?
    ensures DecodeUtf32(a + b, le) == DecodeUtf32(a, le)
  {
    assert Get32(a + b, le) == Get32(a, le);
  }

  lemma PrefixUtf16(a: seq<Byte>, b: seq<Byte>, le: bool, ucs2: bool)
    requires !DecodeUtf16(a, le, ucs2).Starved?
    ensures DecodeUtf16(a + b, le, ucs2) == DecodeUtf16(a, le, ucs2)
  {
    assert Get16(a + b, 0, le) == Get16(a, 0, le);
    assert |a| >= 4 ==> Get16(a + b, 2, le) == Get16(a, 2, le);
  }

  lemma PrefixAuto(cs: Charset, state: nat, a: seq<Byte>, b: seq<Byte>)
    requires cs.Auto() && !DecodeAuto(cs, state, a).Starved?
    ensures DecodeAuto(cs, state, a + b) == DecodeAuto(cs, state, a)
  {
    assert |a| >= 4 ==> Get32(a + b, false) == Get32(a, false);
    assert |a| >= 2 ==> Get16(a + b, 0, false) == Get16(a, 0, false);
  }

  lemma PrefixEucJp(j: Jis, a: seq<Byte>, b: seq<Byte>)
    requires |a| > 0 && !DecodeEucJp(j, a).Starved?
    ensures DecodeEucJp(j, a + b) == DecodeEucJp(j, a)
  {
    var s := a + b;
    assert s[0] == a[0] && (|a| >= 2 ==> s[1] == a[1]);
  }

  lemma PrefixIso2022Jp(j: Jis, state: nat, a: seq<Byte>, b: seq<Byte>)
    requires |a| > 0 && !DecodeIso2022Jp(j, state, a).Starved?
    ensures DecodeIso2022Jp(j, state, a + b) == DecodeIso2022Jp(j, state, a)
  {
    var s := a + b;
    assert s[0] == a[0] && (|a| >= 2 ==> s[1] == a[1]) && (|a| >= 3 ==> s[2] == a[2]);
  }

  lemma PrefixGb(t: Tables, cs: Charset, a: seq<Byte>, b: seq<Byte>)
    requires |a| > 0 && (cs.Gb2312? || cs.Gbk? || cs.Gb18030?)
    requires |t.gb| == 126 && (forall i :: 0 <= i < 126 ==> |t.gb[i]| == 190) && !DecodeGb(t, cs, a).Starved?
    ensures DecodeGb(t, cs, a + b) == DecodeGb(t, cs, a)
  {
    var s := a + b;
    assert s[0] == a[0];
    assert |a| >= 2 ==> s[1] == a[1];
    if |a| >= 4 {
      assert s[2] == a[2] && s[3] == a[3];
      assert FourByte(a) ==> FourByteIndex(s) == FourByteIndex(a);
    }
  }

  lemma DecoderPrefix(t: Tables)
    ensures DecoderOf(t).PrefixDecides()
  {
    var d := DecoderOf(t);
    forall cs: Charset, st: nat, a: seq<Byte>, b: seq<Byte> | |a| > 0 && !d.step(cs, st, a).Starved?
      ensures d.step(cs, st, a + b) == d.step(cs, st, a)
    {
      if t.Valid() && ValidCharset(cs) {
        PrefixTurn(t, cs, st, a, b);
      }
    }
  }

  /** A whole call: decoding starts in the charset of the descriptor with the state it holds. */
  ghost function Call(t: Tables, from: Charset, to: Charset, state: nat, s: seq<Byte>, room: nat): Outcome<Charset>
    requires ValidCharset(to)
  {
    DecoderProgress(t);
    Run(DecoderOf(t), EncoderOf(t, to), from, state, s, room)
  }

  /** The decoder's turn, with the rank selection run as a loop. */
  method DecodeChar(t: Tables, cs: Charset, state: nat, s: seq<Byte>) returns (turn: Turn)
    requires t.Valid() && ValidCharset(cs) && |s| > 0
    ensures turn == DecoderOf(t).step(cs, state, s)
    ensures match turn
            case Skip(l, cs', _) => ValidCharset(cs') && l <= |s| && (l > 0 || (cs.Auto() && !cs'.Auto()))
            case Char(_, l) => 0 < l <= |s|
            case _ => true
  {
    TurnProgress(t, cs, state, s);
    if cs.Gb18030? && FourByte(s) {
      var c := SelectLoop(t.gb, FourByteIndex(s));
      turn := Char(c, 4);
    } else {
      turn := Decode(t, cs, state, s);
    }
  }

  /** The encoder's choice of bytes, with its searches run as loops. */
  method EncodeChar(t: Tables, to: Charset, c: nat) returns (e: Encoded)
    requires t.Valid() && ValidCharset(to)
    ensures e == EncoderOf(t, to)(c)
  {
    match to {
      case Utf32(le) => e := Encoded(Put32(c, le), false);
      case Utf32Auto => e := Encoded(Put32(c, false), false);
      case Utf16(le) => e := EncodeUtf16(c, le, false);
      case Utf16Auto => e := EncodeUtf16(c, false, false);
      case Ucs2(le) => e := EncodeUtf16(c, le, true);
      case Ucs2Auto => e := EncodeUtf16(c, false, true);
      case Ascii => e := if c > 0x7f then Encoded([STAR], true) else Encoded([c], false);
      case Legacy(page) => e := EncodeLegacyChar(page, c);
      case EucJp => var j := UniToJis(t.jis, c); e := JpBytes(to, c, j);
      case Iso2022Jp => var j := UniToJis(t.jis, c); e := JpBytes(to, c, j);
      case _ => e := Encoded([STAR], true);
    }
  }

  method EncodeLegacyChar(page: CodePage, c: nat) returns (e: Encoded)
    requires page.Valid()
    ensures e == EncodeLegacy(page, c)
  {
    if c < 256 && LegacyMap(page, c) == c {
      return Encoded([c], false);
    }
    var b := FindByteLoop(page, c);
    if b != -1 {
      return Encoded([b], false);
    }
    e := EncodeLegacy(page, c);
  }

  /** iconv: an open conversion. */
  class Descriptor {
    const tables: Tables
    const from: Charset
    const to: Charset
    var state: nat

    ghost predicate Valid()
      reads this
    {
      tables.Valid() && ValidCharset(from) && ValidCharset(to)
    }

    constructor (tables: Tables, from: Charset, to: Charset)
      requires tables.Valid() && ValidCharset(from) && ValidCharset(to)
      ensures Valid() && state == 0 && this.tables == tables && this.from == from && this.to == to
    {
      this.tables, this.from, this.to, state := tables, from, to, 0;
    }

    /** Converts input into at most room bytes; x is the number of substitutions, or -1 with an error. */
    method Convert(input: seq<Byte>, room: nat) returns (consumed: nat, out: seq<Byte>, x: int, status: Status)
      requires Valid()
      modifies this`state
      ensures Valid()
      ensures var o := old(Call(tables, from, to, state, input, room));
              && consumed == o.consumed && out == o.out && status == o.status && state == o.state
              && x == if status == Done then o.subs else -1
    {
      consumed, out, x := 0, [], 0;
      var cs := from;
      DecoderProgress(tables);
      ghost var d, enc := DecoderOf(tables), EncoderOf(tables, to);
      ghost var whole := Run(d, enc, from, state, input, room);
      ghost var o := Outcome(0, [], 0, Done, from, state);
      SoFarStart(d, enc, input, room, from, state);
      while consumed < |input|
        invariant o == Outcome(consumed, out, x, Done, cs, state) && consumed <= |input| && |out| <= room && ValidCharset(cs)
        invariant SoFar(d, enc, whole, input, room, o)
        decreases |input| - consumed, if cs.Auto() then 1 else 0
      {
        var s := input[consumed..];
        var turn := DecodeChar(tables, cs, state, s);
        match turn {
          case Starved =>
            SoFarStop(d, enc, whole, input, room, o, Einval);
            return consumed, out, -1, Einval;
          case Illegal =>
            SoFarStop(d, enc, whole, input, room, o, Eilseq);
            return consumed, out, -1, Eilseq;
          case Skip(l, cs', st') =>
            o := SoFarSkip(d, enc, whole, input, room, o, l, cs', st');
            consumed, cs, state := consumed + l, cs', st';
          case Char(c, l) =>
            var e := EncodeChar(tables, to, c);
            if room - |out| < |e.bytes| {
              SoFarStop(d, enc, whole, input, room, o, E2big);
              return consumed, out, -1, E2big;
            }
            o := SoFarChar(d, enc, whole, input, room, o, c, l);
            consumed, out, x := consumed + l, out + e.bytes, x + if e.sub then 1 else 0;
        }
      }
      SoFarStop(d, enc, whole, input, room, o, Done);
      status := Done;
    }
  }
}
