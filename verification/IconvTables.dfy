/**
 * Two table searches of iconv.c: the selection of a code point by its rank outside a table
 * (four-byte GB18030) and the binary search of the reverse JIS table. The tables are parameters.
 */
module IconvTables {

  // ---------------------------------------------------------------- rank selection

  /** How many entries of t lie in [lo, hi]. */
  function Members(t: seq<nat>, lo: int, hi: int): nat {
    if |t| == 0 then 0 else
      var n := |t| - 1;
      Members(t[..n], lo, hi) + if lo <= t[n] <= hi then 1 else 0
  }

  /** How many naturals below n are not in t. */
  ghost function Missing(t: seq<nat>, n: nat): nat {
    if n == 0 then 0 else Missing(t, n - 1) + if n - 1 in t then 0 else 1
  }

  ghost predicate Distinct(t: seq<nat>) {
    forall i, j :: 0 <= i < j < |t| ==> t[i] != t[j]
  }

  lemma {:induction false} MembersSplit(t: seq<nat>, lo: int, mid: int, hi: int)
    requires lo <= mid + 1 <= hi + 1
    ensures Members(t, lo, hi) == Members(t, lo, mid) + Members(t, mid + 1, hi)
  {
    if |t| > 0 {
      MembersSplit(t[..|t| - 1], lo, mid, hi);
    }
  }

  lemma {:induction false} MembersBound(t: seq<nat>, lo: int, hi: int)
    ensures Members(t, lo, hi) <= |t| && (hi < lo ==> Members(t, lo, hi) == 0)
  {
    if |t| > 0 {
      MembersBound(t[..|t| - 1], lo, hi);
    }
  }

  lemma {:induction false} MembersOne(t: seq<nat>, n: nat)
    ensures n !in t <==> Members(t, n, n) == 0
    ensures Distinct(t) ==> Members(t, n, n) <= 1
  {
    if |t| > 0 {
      var m := |t| - 1;
      MembersOne(t[..m], n);
      assert t == t[..m] + [t[m]];
    }
  }

  lemma {:induction false} MembersZero(t: seq<nat>, lo: int, hi: int, n: nat)
    requires Members(t, lo, hi) == 0 && lo <= n <= hi
    ensures n !in t
  {
    MembersSplit(t, lo, n - 1, hi);
    MembersSplit(t, n, n, hi);
    MembersOne(t, n);
  }

  /** With distinct entries, the naturals below n are the members and the missing. */
  lemma {:induction false} MembersAndMissing(t: seq<nat>, n: nat)
    requires Distinct(t)
    ensures Members(t, 0, n - 1) + Missing(t, n) == n
  {
    if n == 0 {
      MembersBound(t, 0, -1);
    } else {
      MembersAndMissing(t, n - 1);
      MembersSplit(t, 0, n - 2, n - 1);
      MembersOne(t, n - 1);
    }
  }

  /** The fixed point the loop computes: widen c by the members of each new window. */
  function Select(t: seq<nat>, d: nat, c: nat): nat
    requires d <= c + 1
    decreases |t| - Members(t, 0, d - 1), c + 1 - d
  {
    MembersBound(t, 0, d - 1);
    if d > c then c else
      var k := Members(t, d, c);
      MembersSplit(t, 0, d - 1, c);
      MembersBound(t, 0, c);
      Select(t, c + 1, c + k)
  }

  /** Select returns the index-th natural that is not in the table. */
  lemma {:induction false} SelectIs(t: seq<nat>, d: nat, c: nat, index: nat)
    requires Distinct(t) && d <= c + 1 && c == index + Members(t, 0, d - 1)
    requires d > c ==> c !in t && Missing(t, c) == index
    ensures var r := Select(t, d, c); r !in t && Missing(t, r) == index
    decreases |t| - Members(t, 0, d - 1), c + 1 - d
  {
    MembersBound(t, 0, d - 1);
    if d <= c {
      var k := Members(t, d, c);
      MembersSplit(t, 0, d - 1, c);
      MembersBound(t, 0, c);
      if k == 0 {
        MembersZero(t, d, c, c);
        MembersAndMissing(t, c);
        MembersSplit(t, 0, c - 1, c);
        MembersOne(t, c);
      }
      SelectIs(t, c + 1, c + k, index);
    }
  }

  /** The index-th missing natural: complete, unique and strictly increasing in the index. */
  lemma SelectRank(t: seq<nat>, index: nat)
    requires Distinct(t)
    ensures Select(t, 0, index) !in t && Missing(t, Select(t, 0, index)) == index
  {
    MembersBound(t, 0, -1);
    SelectIs(t, 0, index, index);
  }

  lemma {:induction false} MissingMono(t: seq<nat>, m: nat, n: nat)
    requires m <= n
    ensures Missing(t, m) <= Missing(t, n)
    ensures m < n && m !in t ==> Missing(t, m) < Missing(t, n)
    decreases n - m
  {
    if m < n {
      MissingMono(t, m + 1, n);
    }
  }

  lemma SelectOnto(t: seq<nat>, n: nat)
    requires Distinct(t) && n !in t
    ensures Select(t, 0, Missing(t, n)) == n
  {
    var r := Select(t, 0, Missing(t, n));
    SelectRank(t, Missing(t, n));
    if r < n {
      MissingMono(t, r, n);
    } else if n < r {
      MissingMono(t, n, r);
    }
  }

  lemma SelectMono(t: seq<nat>, i: nat, j: nat)
    requires Distinct(t) && i < j
    ensures Select(t, 0, i) < Select(t, 0, j)
  {
    SelectRank(t, i);
    SelectRank(t, j);
    if Select(t, 0, j) <= Select(t, 0, i) {
      MissingMono(t, Select(t, 0, j), Select(t, 0, i));
    }
  }

  function Flatten(rows: seq<seq<nat>>): seq<nat> {
    if |rows| == 0 then [] else Flatten(rows[..|rows| - 1]) + rows[|rows| - 1]
  }

  lemma {:induction false} MembersAppend(a: seq<nat>, b: seq<nat>, lo: int, hi: int)
    ensures Members(a + b, lo, hi) == Members(a, lo, hi) + Members(b, lo, hi)
  {
    if |b| == 0 {
      assert a + b == a;
    } else {
      assert (a + b)[..|a + b| - 1] == a + b[..|b| - 1];
      MembersAppend(a, b[..|b| - 1], lo, hi);
    }
  }

  /** The two inner loops: unsigned differences select the entries of the window. */
  method CountWindow(rows: seq<seq<nat>>, d: nat, c: nat) returns (k: nat)
    requires d <= c
    ensures k == Members(Flatten(rows), d, c)
  {
    k := 0;
    for i := 0 to |rows|
      invariant k == Members(Flatten(rows[..i]), d, c)
    {
      var row := rows[i];
      for j := 0 to |row|
        invariant k == Members(Flatten(rows[..i]), d, c) + Members(row[..j], d, c)
      {
        assert row[..j + 1][..j] == row[..j];
        if row[j] >= d && row[j] - d <= c - d {
          k := k + 1;
        }
      }
      assert row[..|row|] == row && rows[..i + 1][..i] == rows[..i];
      MembersAppend(Flatten(rows[..i]), row, d, c);
    }
    assert rows[..|rows|] == rows;
  }

  /** The outer loop of the four-byte GB18030 case. */
  method SelectLoop(rows: seq<seq<nat>>, index: nat) returns (c: nat)
    ensures c == Select(Flatten(rows), 0, index)
  {
    ghost var t := Flatten(rows);
    var d := 0;
    c := index;
    while d <= c
      invariant d <= c + 1 && Select(t, d, c) == Select(t, 0, index)
      decreases |t| - Members(t, 0, d - 1), c + 1 - d
    {
      var k := CountWindow(rows, d, c);
      MembersSplit(t, 0, d - 1, c);
      MembersBound(t, 0, c);
      d := c + 1;
      c := c + k;
    }
  }

  // ---------------------------------------------------------------- reverse JIS table

  /** A JIS table and the list of its positions in order of code point. */
  datatype Jis = Jis(table: seq<seq<nat>>, rev: seq<nat>) {
    ghost predicate Valid() {
      && |table| == 84 && (forall i :: 0 <= i < 84 ==> |table[i]| == 94)
      && |rev| > 0 && (forall i :: 0 <= i < |rev| ==> InTable(rev[i]))
      && (forall i, j :: 0 <= i < j < |rev| ==> At(rev[i]) < At(rev[j]))
    }

    predicate InTable(j: nat) {
      |table| == 84 && j / 256 < 84 && j % 256 < |table[j / 256]| == 94
    }

    function At(j: nat): nat {
      if InTable(j) then table[j / 256][j % 256] else 0
    }

    /** The position of c, offset as JIS X 0208 bytes, or 0. */
    ghost function FromUnicode(c: nat): nat {
      if exists i :: 0 <= i < |rev| && At(rev[i]) == c
      then var i :| 0 <= i < |rev| && At(rev[i]) == c; rev[i] + 0x2121 else 0
    }
  }

  /** uni_to_jis: finds c in the reverse table, or returns 0 when it is not there. */
  method UniToJis(t: Jis, c: nat) returns (j: nat)
    requires t.Valid()
    ensures j == t.FromUnicode(c)
  {
    var nel, b := |t.rev|, 0;
    while true
      invariant 1 <= nel && 0 <= b && b + nel <= |t.rev|
      invariant forall i :: 0 <= i < b ==> t.At(t.rev[i]) < c
      invariant forall i :: b + nel <= i < |t.rev| ==> c < t.At(t.rev[i])
      decreases nel
    {
      var i := nel / 2;
      j := t.rev[b + i];
      var d := t.At(j);
      if d == c {
        return j + 0x2121;
      } else if nel == 1 {
        return 0;
      } else if c < d {
        nel := nel / 2;
      } else {
        b := b + i;
        nel := nel - nel / 2;
      }
    }
  }
}
