/**
 * Buffered output, fvwrite.c and fflush.c: the memory regions of one write pass through the buffer
 * of a file to a sink that may accept only part of what it is given.
 */
module Stdio {
  import opened Bytes

  const NL: Byte := 10

  /** An answer of the write function: never more than it was given. */
  function Capped(answer: int, size: nat): int {
    if answer > size then size else answer
  }

  /** The write function of a file: any policy for how much of the data the n-th call accepts. */
  class Sink {
    const accept: (nat, seq<Byte>) -> int
    var written: seq<Byte>     // what has been accepted
    var log: seq<seq<Byte>>    // what each call was given
    var refusals: nat          // how many calls accepted nothing

    constructor (accept: (nat, seq<Byte>) -> int)
      ensures this.accept == accept && written == [] && log == [] && refusals == 0
    {
      this.accept, written, log, refusals := accept, [], [], 0;
    }

    /** Takes a part of data from its front; 0 or less is a failure. */
    method Write(data: seq<Byte>) returns (w: int)
      modifies this
      ensures w == Capped(accept(old(|log|), data), |data|)
      ensures written == old(written) + if w > 0 then data[..w] else []
      ensures log == old(log) + [data]
      ensures refusals == old(refusals) + if w > 0 then 0 else 1
    {
      w := accept(|log|, data);
      log := log + [data];
      if w > |data| {
        w := |data|;
      }
      if w > 0 {
        written := written + data[..w];
      } else {
        refusals := refusals + 1;
      }
    }
  }

  /** How a buffer drains: whether all of it is accepted, how much is, and what each call is given. */
  datatype Drained = Drained(ok: bool, taken: nat, log: seq<seq<Byte>>)

  /** The n-th call is given the data, the next one what that left over, until nothing is left or nothing is accepted. */
  ghost function Drain(accept: (nat, seq<Byte>) -> int, n: nat, data: seq<Byte>): Drained
    decreases |data|
  {
    if |data| == 0 then Drained(true, 0, []) else
      var t := Capped(accept(n, data), |data|);
      if t <= 0 then Drained(false, 0, [data]) else
        var r := Drain(accept, n + 1, data[t..]);
        Drained(r.ok, t + r.taken, [data] + r.log)
  }

  lemma {:induction false} DrainTaken(accept: (nat, seq<Byte>) -> int, n: nat, data: seq<Byte>)
    ensures var r := Drain(accept, n, data); r.taken <= |data| && (r.ok <==> r.taken == |data|)
    decreases |data|
  {
    if |data| > 0 {
      var t := Capped(accept(n, data), |data|);
      if t > 0 {
        DrainTaken(accept, n + 1, data[t..]);
      }
    }
  }

  /** Every call from the n-th on accepts something. */
  ghost predicate AllAccept(accept: (nat, seq<Byte>) -> int, n: nat, log: seq<seq<Byte>>)
    decreases |log|
  {
    |log| == 0 || (accept(n, log[0]) > 0 && AllAccept(accept, n + 1, log[1..]))
  }

  /** A buffer drains to the end exactly when every call accepts something. */
  lemma {:induction false} DrainAccepted(accept: (nat, seq<Byte>) -> int, n: nat, data: seq<Byte>)
    ensures Drain(accept, n, data).ok <==> AllAccept(accept, n, Drain(accept, n, data).log)
    decreases |data|
  {
    if |data| > 0 {
      var t := Capped(accept(n, data), |data|);
      if t > 0 {
        var r := Drain(accept, n + 1, data[t..]);
        DrainAccepted(accept, n + 1, data[t..]);
        assert ([data] + r.log)[1..] == r.log;
      }
    }
  }

  /** After the calls sent, which took i bytes, the rest of the drain is the drain of the rest. */
  ghost predicate Draining(accept: (nat, seq<Byte>) -> int, n: nat, data: seq<Byte>, i: nat, sent: seq<seq<Byte>>) {
    && i <= |data|
    && var r := Drain(accept, n + |sent|, data[i..]);
    Drain(accept, n, data) == Drained(r.ok, i + r.taken, sent + r.log)
  }

  lemma DrainingStart(accept: (nat, seq<Byte>) -> int, n: nat, data: seq<Byte>)
    ensures Draining(accept, n, data, 0, [])
  {
    assert data[0..] == data;
    assert [] + Drain(accept, n, data).log == Drain(accept, n, data).log;
  }

  lemma DrainingDone(accept: (nat, seq<Byte>) -> int, n: nat, data: seq<Byte>, sent: seq<seq<Byte>>)
    requires Draining(accept, n, data, |data|, sent)
    ensures Drain(accept, n, data) == Drained(true, |data|, sent)
  {
    assert sent + [] == sent;
  }

  lemma DrainingStep(accept: (nat, seq<Byte>) -> int, n: nat, data: seq<Byte>, i: nat, sent: seq<seq<Byte>>)
    requires Draining(accept, n, data, i, sent) && i < |data|
    ensures var t := Capped(accept(n + |sent|, data[i..]), |data| - i);
            if t <= 0 then Drain(accept, n, data) == Drained(false, i, sent + [data[i..]])
            else Draining(accept, n, data, i + t, sent + [data[i..]])
  {
    var rest := data[i..];
    var t := Capped(accept(n + |sent|, rest), |rest|);
    if t > 0 {
      assert rest[t..] == data[i + t..];
      var q := Drain(accept, n + |sent| + 1, data[i + t..]);
      assert sent + ([rest] + q.log) == (sent + [rest]) + q.log;
    }
  }

  /** The calls since log0 took i bytes of the data, which are behind what had been written. */
  ghost predicate Sending(accept: (nat, seq<Byte>) -> int, data: seq<Byte>, i: nat,
                          log0: seq<seq<Byte>>, log: seq<seq<Byte>>, written0: seq<Byte>, written: seq<Byte>) {
    && log0 <= log && Draining(accept, |log0|, data, i, log[|log0|..]) && written == written0 + data[..i]
  }

  /** A whole drain, as the sink has seen it. */
  ghost predicate Sent(r: Drained, data: seq<Byte>, log0: seq<seq<Byte>>, log: seq<seq<Byte>>, written0: seq<Byte>, written: seq<Byte>) {
    log == log0 + r.log && r.taken <= |data| && written == written0 + data[..r.taken]
  }

  lemma SendingGo(accept: (nat, seq<Byte>) -> int, data: seq<Byte>, i: nat, log0: seq<seq<Byte>>, log: seq<seq<Byte>>,
                  written0: seq<Byte>, written: seq<Byte>, t: int)
    requires Sending(accept, data, i, log0, log, written0, written) && i < |data|
    requires t == Capped(accept(|log|, data[i..]), |data| - i) > 0
    ensures Sending(accept, data, i + t, log0, log + [data[i..]], written0, written + data[i..][..t])
  {
    var sent, rest := log[|log0|..], data[i..];
    assert |log0| + |sent| == |log|;
    assert Draining(accept, |log0|, data, i + t, sent + [rest]) by {
      DrainingStep(accept, |log0|, data, i, sent);
    }
    assert (log + [rest])[|log0|..] == sent + [rest];
    assert written + rest[..t] == written0 + (data[..i] + rest[..t]);
    assert data[..i] + rest[..t] == data[..i + t];
  }

  lemma SendingStop(accept: (nat, seq<Byte>) -> int, data: seq<Byte>, i: nat, log0: seq<seq<Byte>>, log: seq<seq<Byte>>,
                    written0: seq<Byte>, written: seq<Byte>)
    requires Sending(accept, data, i, log0, log, written0, written) && i < |data|
    requires accept(|log|, data[i..]) <= 0
    ensures var r := Drain(accept, |log0|, data); !r.ok && Sent(r, data, log0, log + [data[i..]], written0, written)
  {
    var sent, rest := log[|log0|..], data[i..];
    assert |log0| + |sent| == |log|;
    assert Drain(accept, |log0|, data) == Drained(false, i, sent + [rest]) by {
      DrainingStep(accept, |log0|, data, i, sent);
    }
    assert log == log0 + sent;
    assert (log0 + sent) + [rest] == log0 + (sent + [rest]);
  }

  lemma SendingDone(accept: (nat, seq<Byte>) -> int, data: seq<Byte>, log0: seq<seq<Byte>>, log: seq<seq<Byte>>,
                    written0: seq<Byte>, written: seq<Byte>)
    requires Sending(accept, data, |data|, log0, log, written0, written)
    ensures Drain(accept, |log0|, data).ok && Sent(Drain(accept, |log0|, data), data, log0, log, written0, written)
  {
    DrainingDone(accept, |log0|, data, log[|log0|..]);
  }

  /** Every call is given a tail of the data, so never more than there was. */
  ghost predicate Tails(data: seq<Byte>, log: seq<seq<Byte>>) {
    forall j :: 0 <= j < |log| ==> 0 < |log[j]| <= |data| && log[j] == data[|data| - |log[j]|..]
  }

  lemma {:induction false} DrainTails(accept: (nat, seq<Byte>) -> int, n: nat, data: seq<Byte>)
    ensures Tails(data, Drain(accept, n, data).log)
    decreases |data|
  {
    if |data| > 0 {
      var t := Capped(accept(n, data), |data|);
      if t > 0 {
        DrainTails(accept, n + 1, data[t..]);
        TailsCons(data, t, Drain(accept, n + 1, data[t..]).log);
      }
    }
  }

  lemma TailsCons(data: seq<Byte>, t: nat, log: seq<seq<Byte>>)
    requires 0 < t <= |data| && Tails(data[t..], log)
    ensures Tails(data, [data] + log)
  {
    var all := [data] + log;
    forall j | 0 <= j < |all|
      ensures 0 < |all[j]| <= |data| && all[j] == data[|data| - |all[j]|..]
    {
      if j > 0 {
        assert all[j] == log[j - 1];
      }
    }
  }

  /** All the regions, one after the other. */
  function Concat(iov: seq<seq<Byte>>): seq<Byte> {
    if |iov| == 0 then [] else iov[0] + Concat(iov[1..])
  }

  method Residue(iov: seq<seq<Byte>>) returns (resid: nat)
    ensures resid == |Concat(iov)|
  {
    resid := 0;
    for i := |iov| downto 0
      invariant resid == |Concat(iov[i..])|
    {
      assert iov[i..][0] == iov[i] && iov[i..][1..] == iov[i + 1..];
      resid := resid + |iov[i]|;
    }
    assert iov[0..] == iov;
  }

  ghost predicate NoNewline(s: seq<Byte>) {
    NL !in s
  }

  /** n is the length of the first line of s, or |s| + 1 when s holds no newline. */
  ghost predicate FirstLine(s: seq<Byte>, n: int) {
    || (1 <= n <= |s| && s[n - 1] == NL && NoNewline(s[..n - 1]))
    || (n == |s| + 1 && NoNewline(s))
  }

  lemma FirstLineRest(s: seq<Byte>, n: int, w: nat)
    requires FirstLine(s, n) && w <= |s| && w < n
    ensures FirstLine(s[w..], n - w) && NoNewline(s[..w])
  {
    if n <= |s| {
      assert s[w..][..n - w - 1] == s[..n - 1][w..];
      assert s[..w] == s[..n - 1][..w];
    }
  }

  lemma NoLine(s: seq<Byte>, rest: seq<Byte>, n: int)
    requires FirstLine(s, n) && NoNewline(s + rest)
    ensures n == |s| + 1 && NoNewline(s) && NoNewline(rest)
  {
    assert forall i :: 0 <= i < |s| ==> s[i] == (s + rest)[i];
    assert forall i :: 0 <= i < |rest| ==> rest[i] == (s + rest)[|s| + i];
  }

  /** The search for a newline. */
  method LineDistance(s: seq<Byte>) returns (n: nat)
    ensures FirstLine(s, n)
  {
    n := 0;
    while n < |s|
      invariant n <= |s| && NoNewline(s[..n])
    {
      n := n + 1;
      if s[n - 1] == NL {
        return;
      }
    }
    n := n + 1;
    assert s[..|s|] == s;
  }

  class File {
    var buf: array<Byte>  // _bf._base, with _bf._size bytes
    var p: nat            // _p, counted from the start of the buffer
    var w: int            // _w: the space left, or minus the bytes held when line buffered
    const line: bool      // __SLBF
    var err: bool         // __SERR
    const sink: Sink

    constructor (size: nat, line: bool, sink: Sink)
      ensures Valid() && fresh(buf) && Held() == [] && !err && this.line == line && this.sink == sink && buf.Length == size
    {
      this.sink, this.line, p, err := sink, line, 0, false;
      buf := new Byte[size];
      w := if line then 0 else size;
    }

    ghost predicate Valid()
      reads this
    {
      p <= buf.Length && w + p == if line then 0 else buf.Length
    }

    /** What the buffer holds. */
    ghost function Held(): seq<Byte>
      requires Valid()
      reads this, buf
    {
      buf[..p]
    }

    /** Everything that has been written to the file. */
    ghost function Stream(): seq<Byte>
      requires Valid()
      reads this, buf, sink
    {
      sink.written + Held()
    }

    /**
     * What the sink is asked in one turn on m bytes: a full buffer when they do not fit behind what
     * it holds, else a buffer-sized piece when nothing is held and they would fill it, else nothing.
     */
    ghost predicate Requests(held: seq<Byte>, s: seq<Byte>, m: nat, log: seq<seq<Byte>>, log': seq<seq<Byte>>)
      requires Valid() && |held| <= buf.Length && m <= |s|
      reads this
    {
      var size := buf.Length;
      if |held| > 0 && |held| + m > size then log' == log + Drain(sink.accept, |log|, held + s[..size - |held|]).log
      else if m >= size then log' == log + [s[..size]]
      else log' == log
    }

    /** In line mode a line that fits is handed over with what is held; otherwise as for any other bytes up to its end. */
    ghost predicate LineRequests(held: seq<Byte>, s: seq<Byte>, dist: nat, log: seq<seq<Byte>>, log': seq<seq<Byte>>)
      requires Valid() && |held| <= buf.Length
      reads this
    {
      var m := if |s| < dist then |s| else dist;
      if dist <= |s| && dist < buf.Length && |held| + dist <= buf.Length
      then log' == log + Drain(sink.accept, |log|, held + s[..dist]).log
      else Requests(held, s, m, log, log')
    }

    /** COPY, and the advance of _p: s goes behind what the buffer holds. */
    method Copy(s: seq<Byte>)
      requires Valid() && p + |s| <= buf.Length
      modifies this`p, this`w, buf
      ensures Valid() && Held() == old(Held()) + s
    {
      forall i | 0 <= i < |s| {
        buf[p + i] := s[i];
      }
      p := p + |s|;
      w := w - |s|;
    }

    /** __sflush: drains the buffer; what a failing sink refuses is lost. */
    method Flush() returns (ok: bool)
      requires Valid()
      modifies this`p, this`w, this`err, sink
      ensures Valid() && Held() == []
      ensures var r := Drain(sink.accept, old(|sink.log|), old(Held()));
              ok == r.ok && Sent(r, old(Held()), old(sink.log), sink.log, old(sink.written), sink.written)
      ensures ok <==> sink.refusals == old(sink.refusals)
      ensures ok ==> sink.written == old(Stream()) && err == old(err)
      ensures !ok ==> err && old(sink.written) <= sink.written <= old(Stream())
    {
      var n := p;
      p := 0;
      w := if line then 0 else buf.Length;
      ghost var held := old(Held());
      DrainTaken(sink.accept, |sink.log|, held);
      ok := Send(n);
      assert held[..|held|] == held;
    }

    /** The loop of __sflush: hands the first n bytes of the buffer to the sink. */
    method Send(n: nat) returns (ok: bool)
      requires n <= buf.Length
      modifies this`err, sink
      ensures var r := Drain(sink.accept, old(|sink.log|), buf[..n]);
              ok == r.ok && Sent(r, buf[..n], old(sink.log), sink.log, old(sink.written), sink.written)
      ensures ok <==> sink.refusals == old(sink.refusals)
      ensures err == (old(err) || !ok)
    {
      ghost var data, log0, written0 := buf[..n], sink.log, sink.written;
      var i := 0;
      DrainingStart(sink.accept, |log0|, data);
      while i < n
        invariant i <= n && err == old(err) && sink.refusals == old(sink.refusals)
        invariant Sending(sink.accept, data, i, log0, sink.log, written0, sink.written)
      {
        var t := SendOnce(i, n, data, log0, written0);
        if t <= 0 {
          err := true;
          return false;
        }
        i := i + t;
      }
      SendingDone(sink.accept, data, log0, sink.log, written0, sink.written);
      ok := true;
    }

    /** One call of the sink on what is left. */
    method SendOnce(i: nat, n: nat, ghost data: seq<Byte>, ghost log0: seq<seq<Byte>>, ghost written0: seq<Byte>) returns (t: int)
      requires i < n <= buf.Length && data == buf[..n] && Sending(sink.accept, data, i, log0, sink.log, written0, sink.written)
      modifies sink
      ensures t <= n - i && (t > 0 <==> sink.refusals == old(sink.refusals))
      ensures t > 0 ==> Sending(sink.accept, data, i + t, log0, sink.log, written0, sink.written)
      ensures t <= 0 ==> var r := Drain(sink.accept, |log0|, data);
                         !r.ok && Sent(r, data, log0, sink.log, written0, sink.written)
    {
      ghost var log, written := sink.log, sink.written;
      var rest := buf[i..n];
      assert rest == data[i..];
      t := sink.Write(rest);
      if t > 0 {
        SendingGo(sink.accept, data, i, log0, log, written0, written, t);
      } else {
        SendingStop(sink.accept, data, i, log0, log, written0, written);
        assert written + [] == written;
      }
    }

    /** One turn of the fully buffered loop on a non-empty region: fill and flush, write directly, or just fill. */
    method Turn(s: seq<Byte>) returns (ok: bool, n: nat)
      requires Valid() && !line && |s| > 0
      modifies this`p, this`w, this`err, buf, sink
      ensures Valid()
      ensures ok ==> n <= |s| && Stream() == old(Stream()) + s[..n] && err == old(err)
      ensures ok && n == 0 ==> p < old(p)
      ensures old(sink.written) <= sink.written
      ensures !ok ==> err && Held() == [] && sink.written <= old(Stream()) + s
      ensures ok <==> sink.refusals == old(sink.refusals)
      ensures Requests(old(Held()), s, |s|, old(sink.log), sink.log)
      ensures old(p) + |s| < buf.Length ==> ok && n == |s|
    {
      if p > 0 && |s| > w {
        n := w;
        ok := FillAndFlush(s, n);
      } else if |s| >= buf.Length {
        ok, n := Direct(s);
      } else {
        n := |s|;
        Copy(s);
        ok := true;
        assert s[..n] == s;
        assert Stream() == old(Stream()) + s;
      }
    }

    /** The first n bytes fill the buffer, which is then flushed. */
    method FillAndFlush(s: seq<Byte>, n: nat) returns (ok: bool)
      requires Valid() && n <= |s| && p + n <= buf.Length
      modifies this`p, this`w, this`err, buf, sink
      ensures Valid() && Held() == [] && old(sink.written) <= sink.written
      ensures ok ==> Stream() == old(Stream()) + s[..n] && err == old(err)
      ensures !ok ==> err && sink.written <= old(Stream()) + s
      ensures ok <==> sink.refusals == old(sink.refusals)
      ensures sink.log == old(sink.log) + Drain(sink.accept, old(|sink.log|), old(Held()) + s[..n]).log
    {
      Copy(s[..n]);
      ghost var full := Stream();
      assert full == old(Stream()) + s[..n];
      ok := Flush();
      if ok {
        assert Stream() == full;
      } else {
        PrefixOfPrefix(sink.written, old(Stream()), s, n);
      }
    }

    /** A buffer-sized piece goes from the region to the sink, past an empty buffer. */
    method Direct(s: seq<Byte>) returns (ok: bool, n: nat)
      requires Valid() && p == 0 && |s| >= buf.Length
      modifies this`err, sink
      ensures Valid()
      ensures ok ==> 0 < n <= buf.Length && Stream() == old(Stream()) + s[..n] && err == old(err)
      ensures !ok ==> err && Held() == [] && sink.written == old(sink.written) && n == 0
      ensures old(sink.written) <= sink.written
      ensures ok <==> sink.refusals == old(sink.refusals)
      ensures sink.log == old(sink.log) + [s[..buf.Length]]
    {
      var t := sink.Write(s[..buf.Length]);
      if t <= 0 {
        err := true;
        return false, 0;
      }
      assert s[..buf.Length][..t] == s[..t];
      return true, t;
    }

    /** __sfvwrite, fully buffered. */
    method WriteFull(iov: seq<seq<Byte>>) returns (ok: bool)
      requires Valid() && !line
      modifies this`p, this`w, this`err, buf, sink
      ensures Valid()
      ensures ok ==> Stream() == old(Stream()) + Concat(iov) && err == old(err)
      ensures !ok ==> err && Held() == [] && old(sink.written) <= sink.written <= old(Stream()) + Concat(iov)
      ensures ok <==> sink.refusals == old(sink.refusals)
      ensures |old(Held())| + |Concat(iov)| < buf.Length ==> ok && sink.log == old(sink.log)
    {
      var resid := Residue(iov);
      var s: seq<Byte>, k := [], 0;
      assert iov[0..] == iov;
      ghost var all := old(Stream()) + Concat(iov);
      assert Stream() + (s + Concat(iov[k..])) == all;
      ghost var fits := p + resid < buf.Length;
      while resid != 0
        invariant Valid() && k <= |iov| && resid == |s| + |Concat(iov[k..])| && err == old(err)
        invariant Stream() + (s + Concat(iov[k..])) == all && old(sink.written) <= sink.written
        invariant sink.refusals == old(sink.refusals)
        invariant fits ==> sink.log == old(sink.log) && p + resid < buf.Length
        decreases resid, p
      {
        s, k := NextRegion(iov, s, k);
        ghost var before, rest := Stream(), Concat(iov[k..]);
        var n;
        ok, n := Turn(s);
        if !ok {
          PrefixOfStream(sink.written, before, s, rest);
          return;
        }
        Advance(before, s, n, rest);
        s := s[n..];
        resid := resid - n;
      }
      ok := true;
      assert s + Concat(iov[k..]) == [];
    }

    /** One turn of the line-buffered loop, given the length n of the line at the front of the region. */
    method LineTurn(s: seq<Byte>, dist: nat) returns (ok: bool, n: nat)
      requires Valid() && line && |s| > 0 && FirstLine(s, dist) && NoNewline(Held())
      modifies this`p, this`w, this`err, buf, sink
      ensures Valid()
      ensures ok ==> n <= |s| && n <= dist && Stream() == old(Stream()) + s[..n] && err == old(err) && NoNewline(Held())
      ensures ok && n == 0 ==> p < old(p)
      ensures old(sink.written) <= sink.written
      ensures !ok ==> err && Held() == [] && sink.written <= old(Stream()) + s
      ensures ok <==> sink.refusals == old(sink.refusals)
      ensures LineRequests(old(Held()), s, dist, old(sink.log), sink.log)
      ensures dist > |s| && old(p) + |s| < buf.Length ==> ok && n == |s| && p == old(p) + |s|
    {
      var m := if |s| < dist then |s| else dist;
      ok, n := LinePiece(s, m);
      if n < dist {
        FirstLineRest(s, dist, n);
      }
      if ok && n == dist {
        ok := FlushAll();
        if !ok {
          PrefixOfPrefix(sink.written, old(Stream()), s, n);
        }
      }
    }

    /** The three branches of the turn, on the first m bytes. */
    method LinePiece(s: seq<Byte>, m: nat) returns (ok: bool, n: nat)
      requires Valid() && line && 0 < m <= |s|
      modifies this`p, this`w, this`err, buf, sink
      ensures Valid() && n <= m && old(sink.written) <= sink.written
      ensures ok ==> Stream() == old(Stream()) + s[..n] && err == old(err)
      ensures ok && n == 0 ==> p < old(p)
      ensures !ok ==> err && Held() == [] && sink.written <= old(Stream()) + s
      ensures ok <==> sink.refusals == old(sink.refusals)
      ensures Requests(old(Held()), s, m, old(sink.log), sink.log)
      ensures if m < buf.Length && old(p) + m <= buf.Length then ok && n == m && Held() == old(Held()) + s[..m] else Held() == []
    {
      if p > 0 && m > w + buf.Length {
        n := w + buf.Length;
        ok := FillAndFlush(s, n);
      } else if m >= buf.Length {
        ok, n := Direct(s);
      } else {
        n := m;
        Copy(s[..n]);
        ok := true;
        assert Stream() == old(Stream()) + s[..n];
      }
    }

    /** A flush, as far as the stream is concerned. */
    method FlushAll() returns (ok: bool)
      requires Valid()
      modifies this`p, this`w, this`err, sink
      ensures Valid() && Held() == [] && old(sink.written) <= sink.written
      ensures ok <==> sink.refusals == old(sink.refusals)
      ensures sink.log == old(sink.log) + Drain(sink.accept, old(|sink.log|), old(Held())).log
      ensures if ok then Stream() == old(Stream()) && err == old(err) else err && sink.written <= old(Stream())
    {
      ok := Flush();
    }

    /** The turn, as far as the loop depends on it. */
    method LineStep(s: seq<Byte>, dist: nat) returns (ok: bool, n: nat)
      requires Valid() && line && |s| > 0 && FirstLine(s, dist) && NoNewline(Held())
      modifies this`p, this`w, this`err, buf, sink
      ensures Valid() && old(sink.written) <= sink.written
      ensures if ok then n <= |s| && n <= dist && Stream() == old(Stream()) + s[..n] && err == old(err) && NoNewline(Held())
              else err && Held() == [] && sink.written <= old(Stream()) + s
      ensures ok && n == 0 ==> p < old(p)
      ensures ok <==> sink.refusals == old(sink.refusals)
      ensures dist > |s| && old(p) + |s| < buf.Length ==> ok && n == |s| && sink.log == old(sink.log) && p == old(p) + |s|
    {
      ok, n := LineTurn(s, dist);
    }

    /** __sfvwrite, line buffered: the newlines written so far have reached the sink. */
    method WriteLines(iov: seq<seq<Byte>>) returns (ok: bool)
      requires Valid() && line && NoNewline(Held())
      modifies this`p, this`w, this`err, buf, sink
      ensures Valid() && NoNewline(Held())
      ensures ok ==> Stream() == old(Stream()) + Concat(iov) && err == old(err)
      ensures ok ==> forall i :: 0 <= i < |Stream()| && Stream()[i] == NL ==> i < |sink.written|
      ensures !ok ==> err && Held() == [] && old(sink.written) <= sink.written <= old(Stream()) + Concat(iov)
      ensures ok <==> sink.refusals == old(sink.refusals)
      ensures |old(Held())| + |Concat(iov)| < buf.Length && NoNewline(Concat(iov)) ==> ok && sink.log == old(sink.log)
    {
      var resid := Residue(iov);
      var s: seq<Byte>, k := [], 0;
      var known, dist := false, 0;
      assert iov[0..] == iov;
      ghost var all := old(Stream()) + Concat(iov);
      assert Stream() + (s + Concat(iov[k..])) == all;
      assert s + Concat(iov[k..]) == Concat(iov);
      ghost var fits := p + resid < buf.Length && NoNewline(Concat(iov));
      while resid != 0
        invariant Valid() && k <= |iov| && resid == |s| + |Concat(iov[k..])| && err == old(err)
        invariant Stream() + (s + Concat(iov[k..])) == all && old(sink.written) <= sink.written
        invariant NoNewline(Held()) && (known && |s| > 0 ==> FirstLine(s, dist))
        invariant sink.refusals == old(sink.refusals)
        invariant fits ==> sink.log == old(sink.log) && p + resid < buf.Length && NoNewline(s + Concat(iov[k..]))
        decreases resid, p
      {
        s, k, dist := NextLine(iov, s, k, known, dist);
        known := true;
        ghost var before, rest := Stream(), Concat(iov[k..]);
        if fits {
          NoLine(s, rest, dist);
        }
        var n;
        ok, n := LineStep(s, dist);
        if !ok {
          PrefixOfStream(sink.written, before, s, rest);
          return;
        }
        Advance(before, s, n, rest);
        if n == dist {
          known := false;
        } else {
          FirstLineRest(s, dist, n);
        }
        dist := dist - n;
        s := s[n..];
        resid := resid - n;
      }
      ok := true;
      assert s + Concat(iov[k..]) == [];
    }

    /** String output: what fits is kept, the rest is dropped without notice. */
    method WriteString(iov: seq<seq<Byte>>)
      requires Valid() && !line
      modifies this`p, this`w, buf
      ensures Valid()
      ensures var whole := old(Held()) + Concat(iov);
              Held() == if |whole| <= buf.Length then whole else whole[..buf.Length]
    {
      var resid := Residue(iov);
      var s: seq<Byte>, k := [], 0;
      assert iov[0..] == iov;
      ghost var whole, size := old(Held()) + Concat(iov), buf.Length;
      assert s + Concat(iov[k..]) == Concat(iov);
      while resid != 0
        invariant Valid() && k <= |iov| && resid == |s| + |Concat(iov[k..])| && buf.Length == size
        invariant Truncates(Held(), s + Concat(iov[k..]), whole, size)
        decreases resid
      {
        s, k := NextRegion(iov, s, k);
        ghost var before, rest := Held(), Concat(iov[k..]);
        var n := if |s| < w then |s| else w;
        Copy(s[..n]);
        TruncatesStep(before, s, rest, whole, size, n);
        resid := resid - |s|;
        s := [];
        assert s + rest == rest;
      }
      assert s + Concat(iov[k..]) == [];
      assert Held() + [] == Held();
    }
  }

  /** The buffer holds what has come so far, or it is full of the beginning of the whole. */
  ghost predicate Truncates(held: seq<Byte>, todo: seq<Byte>, whole: seq<Byte>, size: nat) {
    |held| <= size && (held + todo == whole || (|held| == size && held <= whole))
  }

  lemma TruncatesStep(held: seq<Byte>, s: seq<Byte>, rest: seq<Byte>, whole: seq<Byte>, size: nat, n: nat)
    requires Truncates(held, s + rest, whole, size) && n == if |s| < size - |held| then |s| else size - |held|
    ensures Truncates(held + s[..n], rest, whole, size)
  {
    if held + (s + rest) == whole {
      Advance(held, s, n, rest);
      assert n == |s| ==> s[n..] + rest == rest;
    } else {
      assert held + s[..n] == held;
    }
  }

  lemma PrefixOfPrefix(x: seq<Byte>, old': seq<Byte>, s: seq<Byte>, n: nat)
    requires n <= |s| && x <= old' + s[..n]
    ensures x <= old' + s
  {
    assert old' + s == (old' + s[..n]) + s[n..];
  }

  lemma PrefixOfStream(x: seq<Byte>, stream: seq<Byte>, s: seq<Byte>, rest: seq<Byte>)
    requires x <= stream + s
    ensures x <= stream + (s + rest)
  {
    assert stream + (s + rest) == (stream + s) + rest;
  }

  lemma Advance(stream: seq<Byte>, s: seq<Byte>, n: nat, rest: seq<Byte>)
    requires n <= |s|
    ensures (stream + s[..n]) + (s[n..] + rest) == stream + (s + rest)
  {
    assert s == s[..n] + s[n..];
  }

  /** The next region that is not empty, and the length of the line at its front, found again unless it is known. */
  method NextLine(iov: seq<seq<Byte>>, s: seq<Byte>, k: nat, known: bool, dist: nat) returns (s': seq<Byte>, k': nat, dist': nat)
    requires k <= |iov| && |s| + |Concat(iov[k..])| > 0 && (known && |s| > 0 ==> FirstLine(s, dist))
    ensures k' <= |iov| && |s'| > 0 && s' + Concat(iov[k'..]) == s + Concat(iov[k..]) && FirstLine(s', dist')
  {
    s', k' := NextRegion(iov, s, k);
    if known && |s| > 0 {
      dist' := dist;
    } else {
      dist' := LineDistance(s');
    }
  }

  /** GETIOV: moves on to the next region that is not empty. */
  method NextRegion(iov: seq<seq<Byte>>, s: seq<Byte>, k: nat) returns (s': seq<Byte>, k': nat)
    requires k <= |iov| && |s| + |Concat(iov[k..])| > 0
    ensures k' <= |iov| && |s'| > 0 && s' + Concat(iov[k'..]) == s + Concat(iov[k..])
    ensures |s| > 0 ==> s' == s && k' == k
  {
    s', k' := s, k;
    while |s'| == 0
      invariant k' <= |iov| && s' + Concat(iov[k'..]) == s + Concat(iov[k..])
      invariant |s| > 0 ==> s' == s && k' == k
      decreases |iov| - k', |s'|
    {
      assert |Concat(iov[k'..])| > 0;
      assert iov[k'..][0] == iov[k'] && iov[k'..][1..] == iov[k' + 1..];
      s' := iov[k'];
      k' := k' + 1;
    }
  }
}
