/**
 * The 8-bit codepages of iconv.c: the first 4 * elided bytes stand for themselves, the others are
 * 10-bit entries, four to five bytes, that index a shared list of characters.
 */
module IconvLegacy {
  import opened Bytes

  datatype CodePage = CodePage(elided: nat, packed: seq<Byte>, legacy: seq<nat>) {
    /** The shape of a codepage; entries of the shared list are assumed to be in range. */
    ghost predicate Valid() {
      && 1 <= elided <= 64 && |packed| == 5 * (64 - elided)
      && forall x: nat :: 4 * elided + x < 256 ==> Extract(packed, x) < 256 + |legacy|
    }
  }

  /** Two neighbouring bytes shifted together: the low one right by s, the high one left by 8 - s, ten bits kept. */
  function Join(low: int, high: int, s: nat): int {
    if s == 0 then low + high * 256 % 1024
    else if s == 2 then low / 4 + high * 64 % 1024
    else if s == 4 then low / 16 + high * 16 % 1024
    else low / 64 + high * 4 % 1024
  }

  /** Entry x of the packed table, as legacy_map extracts it. */
  function Extract(packed: seq<Byte>, x: nat): nat
    requires x * 5 / 4 + 1 < |packed|
  {
    var i := x * 5 / 4;
    Join(packed[i], packed[i + 1], 2 * x % 8)
  }

  /** Five bytes as one 40-bit number. */
  function Word40(a: int, b: int, c: int, d: int, e: int): int {
    a + 0x100 * b + 0x1_0000 * c + 0x100_0000 * d + 0x1_0000_0000 * e
  }

  function Group(packed: seq<Byte>, y: nat): nat
    requires 5 * y + 5 <= |packed|
  {
    var i := 5 * y;
    Word40(packed[i], packed[i + 1], packed[i + 2], packed[i + 3], packed[i + 4])
  }

  /** Field z of four 10-bit fields. */
  function Field(g: int, z: nat): int {
    if z == 0 then g % 1024 else if z == 1 then g / 0x400 % 1024
    else if z == 2 then g / 0x10_0000 % 1024 else g / 0x4000_0000 % 1024
  }

  lemma FieldsOf(f0: int, f1: int, f2: int, f3: int, g: int)
    requires 0 <= f0 < 1024 && 0 <= f1 < 1024 && 0 <= f2 < 1024 && 0 <= f3 < 1024
    requires g == f0 + 0x400 * f1 + 0x10_0000 * f2 + 0x4000_0000 * f3
    ensures Field(g, 0) == f0 && Field(g, 1) == f1 && Field(g, 2) == f2 && Field(g, 3) == f3
  {
    var h := f1 + 0x400 * f2 + 0x10_0000 * f3;
    assert g == 0x400 * h + f0;
    assert g / 0x400 == h && h % 1024 == f1;
    var k := f2 + 0x400 * f3;
    assert g == 0x10_0000 * k + (f0 + 0x400 * f1);
    assert g / 0x10_0000 == k;
    assert g / 0x4000_0000 == f3;
  }

  /** The ten bits that are kept. */
  lemma TenBits(h: int, l: int)
    requires 0 <= l < 1024
    ensures (1024 * h + l) % 1024 == l
  {}

  /** The two joined bytes, when their quotients and remainders are known. */
  lemma JoinIs(a: int, b: int, b1: int, b0: int, c: int, c1: int, c0: int, d: int, d1: int, d0: int, e: int)
    requires b == 4 * b1 + b0 && 0 <= b0 < 4 && c == 16 * c1 + c0 && 0 <= c0 < 16 && d == 64 * d1 + d0 && 0 <= d0 < 64
    requires 0 <= e < 256
    ensures Join(a, b, 0) == a + 256 * b0 && Join(b, c, 2) == b1 + 64 * c0
    ensures Join(c, d, 4) == c1 + 16 * d0 && Join(d, e, 6) == d1 + 4 * e
  {
    TenBits(b1, 256 * b0);
    TenBits(c1, 64 * c0);
    TenBits(d1, 16 * d0);
    TenBits(0, 4 * e);
  }

  lemma FieldOfBytes(a: int, b: int, c: int, d: int, e: int)
    requires 0 <= a < 256 && 0 <= b < 256 && 0 <= c < 256 && 0 <= d < 256 && 0 <= e < 256
    ensures var g := Word40(a, b, c, d, e);
            && Field(g, 0) == Join(a, b, 0) && Field(g, 1) == Join(b, c, 2)
            && Field(g, 2) == Join(c, d, 4) && Field(g, 3) == Join(d, e, 6)
  {
    var b1, b0, c1, c0, d1, d0 := b / 4, b % 4, c / 16, c % 16, d / 64, d % 64;
    JoinIs(a, b, b1, b0, c, c1, c0, d, d1, d0, e);
    FieldsOf(a + 256 * b0, b1 + 64 * c0, c1 + 16 * d0, d1 + 4 * e, Word40(a, b, c, d, e));
  }

  lemma FieldStarts(x: nat, y: nat, z: nat)
    requires x == 4 * y + z && z < 4
    ensures x * 5 / 4 == 5 * y + z && 2 * x % 8 == 2 * z && x / 4 == y && x % 4 == z
  {
    if z == 0 {
    } else if z == 1 {
    } else if z == 2 {
    } else {
    }
  }

  lemma FieldOfGroup(packed: seq<Byte>, y: nat, z: nat)
    requires 5 * y + 5 <= |packed| && z < 4
    ensures Field(Group(packed, y), z) == Join(packed[5 * y + z], packed[5 * y + z + 1], 2 * z)
  {
    var i := 5 * y;
    FieldOfBytes(packed[i], packed[i + 1], packed[i + 2], packed[i + 3], packed[i + 4]);
  }

  lemma ExtractAt(packed: seq<Byte>, x: nat, i: nat, s: nat)
    requires i == x * 5 / 4 && s == 2 * x % 8 && i + 1 < |packed|
    ensures Extract(packed, x) == Join(packed[i], packed[i + 1], s)
  {}

  /** The reader extracts the 10-bit fields in order. */
  lemma ExtractIsField(packed: seq<Byte>, x: nat, y: nat, z: nat)
    requires x == 4 * y + z && z < 4 && 5 * y + 5 <= |packed|
    ensures x * 5 / 4 + 1 < |packed| && Extract(packed, x) == Field(Group(packed, y), z)
  {
    FieldStarts(x, y, z);
    var i, s := 5 * y + z, 2 * z;
    ExtractAt(packed, x, i, s);
    FieldOfGroup(packed, y, z);
  }

  /** Four entries packed into five bytes. */
  function PackFour(v0: nat, v1: nat, v2: nat, v3: nat): seq<Byte>
    requires v0 < 1024 && v1 < 1024 && v2 < 1024 && v3 < 1024
  {
    [v0 % 256, v0 / 256 + v1 % 64 * 4, v1 / 64 + v2 % 16 * 16, v2 / 16 + v3 % 4 * 64, v3 / 4]
  }

  /** Reading a packed table gives back what was packed. */
  lemma PackThenExtract(v0: nat, v1: nat, v2: nat, v3: nat)
    requires v0 < 1024 && v1 < 1024 && v2 < 1024 && v3 < 1024
    ensures var p := PackFour(v0, v1, v2, v3);
            Extract(p, 0) == v0 && Extract(p, 1) == v1 && Extract(p, 2) == v2 && Extract(p, 3) == v3
  {
    var p := PackFour(v0, v1, v2, v3);
    forall z: nat | z < 4
      ensures Extract(p, z) == Field(Group(p, 0), z)
    {
      ExtractIsField(p, z, 0, z);
    }
    FieldsOf(v0, v1, v2, v3, Group(p, 0));
  }

  /** legacy_map: the code point of byte c. */
  function LegacyMap(m: CodePage, c: Byte): nat
    requires m.Valid()
  {
    if c < 4 * m.elided then c else
      var v := Extract(m.packed, c - 4 * m.elided);
      if v < 256 then v else m.legacy[v - 256]
  }

  /** The byte the encoder looks for when c does not stand for itself. */
  function FindByte(m: CodePage, c: nat, from: nat): (r: int)
    requires m.Valid() && from <= 256
    ensures r == -1 ==> forall b: Byte :: from <= b ==> LegacyMap(m, b) != c
    ensures r != -1 ==> from <= r < 256 && LegacyMap(m, r) == c && forall b: Byte :: from <= b < r ==> LegacyMap(m, b) != c
    decreases 256 - from
  {
    if from == 256 then -1 else if LegacyMap(m, from) == c then from else FindByte(m, c, from + 1)
  }

  /** The encoder's search for a byte, as a loop. */
  method FindByteLoop(m: CodePage, c: nat) returns (r: int)
    requires m.Valid()
    ensures r == FindByte(m, c, 4 * m.elided)
  {
    r := 4 * m.elided;
    while r < 256
      invariant 0 <= r <= 256 && FindByte(m, c, r) == FindByte(m, c, 4 * m.elided)
    {
      if c == LegacyMap(m, r) {
        return;
      }
      r := r + 1;
    }
    r := -1;
  }

  /** The byte for c, or -1: c itself when it stands for itself, else the first byte that maps to it. */
  function ByteFor(m: CodePage, c: nat): (r: int)
    requires m.Valid()
    ensures r != -1 ==> 0 <= r < 256 && LegacyMap(m, r) == c
    ensures r == -1 ==> forall b: Byte :: 4 * m.elided <= b ==> LegacyMap(m, b) != c
    ensures r != -1 && r != c ==> forall b: Byte :: LegacyMap(m, b) == c ==> r <= b
  {
    if c < 256 && LegacyMap(m, c) == c then c else FindByte(m, c, 4 * m.elided)
  }

  /** A byte is found exactly for the characters of the codepage. */
  lemma ByteForComplete(m: CodePage, c: nat)
    requires m.Valid()
    ensures ByteFor(m, c) != -1 <==> exists b: Byte :: LegacyMap(m, b) == c
  {
    if b: Byte :| LegacyMap(m, b) == c {
      if b < 4 * m.elided {
        assert c == b;
      }
    }
  }

  // ---------------------------------------------------------------- a page packed from its characters

  /** Entries of ten bits, packed four to five bytes. */
  function PackAll(v: seq<nat>): (p: seq<Byte>)
    requires |v| % 4 == 0 && forall i :: 0 <= i < |v| ==> v[i] < 1024
    ensures |p| == 5 * (|v| / 4)
  {
    if |v| == 0 then [] else PackFour(v[0], v[1], v[2], v[3]) + PackAll(v[4..])
  }

  lemma ExtractFirst(p: seq<Byte>, q: seq<Byte>, x: nat)
    requires x < 4 && |p| == 5
    ensures x * 5 / 4 + 1 < |p| && Extract(p + q, x) == Extract(p, x)
  {}

  lemma ExtractNext(p: seq<Byte>, q: seq<Byte>, x: nat)
    requires |p| == 5 && x * 5 / 4 + 1 < |q|
    ensures (x + 4) * 5 / 4 + 1 < |p + q| && Extract(p + q, x + 4) == Extract(q, x)
  {
    var y, z := x / 4, x % 4;
    FieldStarts(x, y, z);
    FieldStarts(x + 4, y + 1, z);
    ExtractAt(q, x, 5 * y + z, 2 * z);
    ExtractAt(p + q, x + 4, 5 * y + z + 5, 2 * z);
  }

  /** Reading a packed table gives back every entry. */
  lemma {:induction false} PackAllExtract(v: seq<nat>, x: nat)
    requires |v| % 4 == 0 && (forall i :: 0 <= i < |v| ==> v[i] < 1024) && x < |v|
    ensures x * 5 / 4 + 1 < |PackAll(v)| && Extract(PackAll(v), x) == v[x]
    decreases |v|
  {
    var p, q := PackFour(v[0], v[1], v[2], v[3]), PackAll(v[4..]);
    if x < 4 {
      PackThenExtract(v[0], v[1], v[2], v[3]);
      ExtractFirst(p, q, x);
    } else {
      PackAllExtract(v[4..], x - 4);
      ExtractNext(p, q, x - 4);
    }
  }

  /** The entry of a character: itself below 256, else its place in the shared list. */
  function EntryOf(c: nat, shared: seq<nat>): (e: nat)
    requires c < 256 || c in shared
    ensures e < 256 + |shared|
  {
    if c < 256 then c else 256 + PlaceOf(c, shared)
  }

  function PlaceOf(c: nat, shared: seq<nat>): (i: nat)
    requires c in shared
    ensures i < |shared| && shared[i] == c
  {
    if shared[0] == c then 0 else 1 + PlaceOf(c, shared[1..])
  }

  /** The page with the given characters from byte 4 * elided on. */
  function PageOf(elided: nat, chars: seq<nat>, shared: seq<nat>): CodePage
    requires |chars| % 4 == 0 && |shared| <= 768 && forall i :: 0 <= i < |chars| ==> chars[i] < 256 || chars[i] in shared
  {
    CodePage(elided, PackAll(seq(|chars|, i requires 0 <= i < |chars| => EntryOf(chars[i], shared))), shared)
  }

  lemma PageEntry(elided: nat, chars: seq<nat>, shared: seq<nat>, x: nat)
    requires |chars| % 4 == 0 && |shared| <= 768 && (forall i :: 0 <= i < |chars| ==> chars[i] < 256 || chars[i] in shared)
    requires x < |chars|
    ensures var p := PageOf(elided, chars, shared).packed;
            |p| == 5 * (|chars| / 4) && x * 5 / 4 + 1 < |p| && Extract(p, x) == EntryOf(chars[x], shared)
  {
    PackAllExtract(seq(|chars|, i requires 0 <= i < |chars| => EntryOf(chars[i], shared)), x);
  }

  lemma PageValid(elided: nat, chars: seq<nat>, shared: seq<nat>)
    requires 1 <= elided <= 64 && |chars| == 256 - 4 * elided && |shared| <= 768
    requires forall i :: 0 <= i < |chars| ==> chars[i] < 256 || chars[i] in shared
    ensures PageOf(elided, chars, shared).Valid()
  {
    var page := PageOf(elided, chars, shared);
    forall x: nat | 4 * elided + x < 256
      ensures Extract(page.packed, x) < 256 + |shared|
    {
      PageEntry(elided, chars, shared, x);
    }
  }

  /** legacy_map reads the characters of a page back: the elided bytes are themselves, the others as packed. */
  lemma PageMaps(elided: nat, chars: seq<nat>, shared: seq<nat>, b: Byte)
    requires 1 <= elided <= 64 && |chars| == 256 - 4 * elided && |shared| <= 768
    requires forall i :: 0 <= i < |chars| ==> chars[i] < 256 || chars[i] in shared
    ensures var page := PageOf(elided, chars, shared);
            page.Valid() && LegacyMap(page, b) == if b < 4 * elided then b else chars[b - 4 * elided]
  {
    PageValid(elided, chars, shared);
    if b >= 4 * elided {
      PageEntry(elided, chars, shared, b - 4 * elided);
    }
  }
}
