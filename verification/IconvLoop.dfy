/**
 * The conversion loop of iconv.c, for any decoder and encoder: it stops on truncated or illegal
 * input and on a full output buffer, always between characters, and can be resumed.
 */
module IconvLoop {
  import opened Bytes

  /** One turn of the loop's first switch; the decoding mode and the descriptor state may change. */
  datatype Step<M> = Starved | Illegal | Skip(l: nat, mode: M, state: nat) | Char(c: nat, l: nat)

  /** The bytes written for a character, and whether it was substituted. */
  datatype Encoded = Encoded(bytes: seq<Byte>, sub: bool)

  datatype Status = Done | Einval | Eilseq | E2big

  /** What a call has done: bytes read and written, substitutions, why it stopped, and where decoding stands. */
  datatype Outcome<M> = Outcome(consumed: nat, out: seq<Byte>, subs: nat, status: Status, mode: M, state: nat)

  /** A decoder with a rank of its modes: every step consumes input or lowers the rank. */
  datatype Decoder<!M(!new)> = Decoder(step: (M, nat, seq<Byte>) -> Step<M>, rank: M -> nat) {
    ghost predicate Progress() {
      forall m: M, st: nat, s: seq<Byte> :: |s| > 0 ==>
        match step(m, st, s)
        case Skip(l, m', _) => l <= |s| && (l > 0 || rank(m') < rank(m))
        case Char(_, l) => 0 < l <= |s|
        case _ => true
    }

    /** Input that follows does not change a decision that has been taken. */
    ghost predicate PrefixDecides() {
      forall m: M, st: nat, a: seq<Byte>, b: seq<Byte> :: |a| > 0 && !step(m, st, a).Starved? ==>
        step(m, st, a + b) == step(m, st, a)
    }
  }

  /** A call on input s with room bytes of output space. */
  ghost function Run<M(!new)>(d: Decoder<M>, enc: nat -> Encoded, m: M, st: nat, s: seq<Byte>, room: nat): Outcome<M>
    requires d.Progress()
    decreases |s|, d.rank(m)
  {
    if |s| == 0 then Outcome(0, [], 0, Done, m, st) else
      match d.step(m, st, s)
      case Starved => Outcome(0, [], 0, Einval, m, st)
      case Illegal => Outcome(0, [], 0, Eilseq, m, st)
      case Skip(l, m', st') =>
        var r := Run(d, enc, m', st', s[l..], room);
        r.(consumed := l + r.consumed)
      case Char(c, l) =>
        var e := enc(c);
        if |e.bytes| > room then Outcome(0, [], 0, E2big, m, st) else
          Written(e, l, Run(d, enc, m, st, s[l..], room - |e.bytes|))
  }

  /** A character written before the rest of the run. */
  function Written<M>(e: Encoded, l: nat, r: Outcome<M>): Outcome<M> {
    r.(consumed := l + r.consumed, out := e.bytes + r.out, subs := r.subs + if e.sub then 1 else 0)
  }

  /** Two calls in a row, seen as one. */
  function Then<M>(o: Outcome<M>, r: Outcome<M>): Outcome<M> {
    r.(consumed := o.consumed + r.consumed, out := o.out + r.out, subs := o.subs + r.subs)
  }

  lemma WrittenThen<M>(e: Encoded, l: nat, o: Outcome<M>, r: Outcome<M>)
    ensures Then(Written(e, l, o), r) == Written(e, l, Then(o, r))
  {
    assert (e.bytes + o.out) + r.out == e.bytes + (o.out + r.out);
  }

  lemma {:induction false} RunBounds<M(!new)>(d: Decoder<M>, enc: nat -> Encoded, m: M, st: nat, s: seq<Byte>, room: nat)
    requires d.Progress()
    ensures var o := Run(d, enc, m, st, s, room); o.consumed <= |s| && |o.out| <= room
    decreases |s|, d.rank(m)
  {
    if |s| > 0 {
      match d.step(m, st, s) {
        case Starved =>
        case Illegal =>
        case Skip(l, m', st') =>
          RunBounds(d, enc, m', st', s[l..], room);
        case Char(c, l) =>
          if |enc(c).bytes| <= room {
            RunBounds(d, enc, m, st, s[l..], room - |enc(c).bytes|);
          }
      }
    }
  }

  lemma NothingDone<M>(m: M, st: nat, status: Status, r: Outcome<M>, a: seq<Byte>, b: seq<Byte>)
    ensures Then(Outcome(0, [], 0, status, m, st), r) == r && a[0..] + b == a + b
  {
    assert [] + r.out == r.out;
  }

  /** Going on after a stop of the call on a gives what one call on a + b would have given. */
  ghost predicate Resumes<M(!new)>(d: Decoder<M>, enc: nat -> Encoded, m: M, st: nat,
                                   a: seq<Byte>, b: seq<Byte>, room: nat, more: nat)
    requires d.Progress()
  {
    var o := Run(d, enc, m, st, a, room);
    && o.consumed <= |a|
    && Run(d, enc, m, st, a + b, |o.out| + more) == Then(o, Run(d, enc, o.mode, o.state, a[o.consumed..] + b, more))
  }

  lemma ResumeStop<M(!new)>(d: Decoder<M>, enc: nat -> Encoded, m: M, st: nat,
                            a: seq<Byte>, b: seq<Byte>, room: nat, more: nat, status: Status)
    requires d.Progress() && Run(d, enc, m, st, a, room) == Outcome(0, [], 0, status, m, st)
    ensures Resumes(d, enc, m, st, a, b, room, more)
  {
    NothingDone(m, st, status, Run(d, enc, m, st, a + b, more), a, b);
  }

  lemma ResumeSkip<M(!new)>(d: Decoder<M>, enc: nat -> Encoded, m: M, st: nat,
                            a: seq<Byte>, b: seq<Byte>, room: nat, more: nat, l: nat, m': M, st': nat)
    requires d.Progress() && |a| > 0 && d.step(m, st, a) == d.step(m, st, a + b) == Skip(l, m', st')
    requires l <= |a| && Resumes(d, enc, m', st', a[l..], b, room, more)
    ensures Resumes(d, enc, m, st, a, b, room, more)
  {
    var o, o' := Run(d, enc, m, st, a, room), Run(d, enc, m', st', a[l..], room);
    assert (a + b)[l..] == a[l..] + b;
    assert a[l..][o'.consumed..] == a[o.consumed..];
  }

  lemma ResumeChar<M(!new)>(d: Decoder<M>, enc: nat -> Encoded, m: M, st: nat,
                            a: seq<Byte>, b: seq<Byte>, room: nat, more: nat, c: nat, l: nat)
    requires d.Progress() && |a| > 0 && d.step(m, st, a) == d.step(m, st, a + b) == Char(c, l)
    requires l <= |a| && |enc(c).bytes| <= room && Resumes(d, enc, m, st, a[l..], b, room - |enc(c).bytes|, more)
    ensures Resumes(d, enc, m, st, a, b, room, more)
  {
    var e := enc(c);
    var o, o' := Run(d, enc, m, st, a, room), Run(d, enc, m, st, a[l..], room - |e.bytes|);
    assert (a + b)[l..] == a[l..] + b;
    assert a[l..][o'.consumed..] == a[o.consumed..];
    WrittenThen(e, l, o', Run(d, enc, o.mode, o.state, a[o.consumed..] + b, more));
  }

  /** However a call stops, and whatever input b and output space follow, it can be resumed. */
  lemma {:induction false} Resumable<M(!new)>(d: Decoder<M>, enc: nat -> Encoded, m: M, st: nat,
                                              a: seq<Byte>, b: seq<Byte>, room: nat, more: nat)
    requires d.Progress() && d.PrefixDecides()
    ensures Resumes(d, enc, m, st, a, b, room, more)
    decreases |a|, d.rank(m)
  {
    if |a| == 0 {
      ResumeStop(d, enc, m, st, a, b, room, more, Done);
    } else {
      match d.step(m, st, a) {
        case Starved =>
          ResumeStop(d, enc, m, st, a, b, room, more, Einval);
        case Illegal =>
          ResumeStop(d, enc, m, st, a, b, room, more, Eilseq);
        case Skip(l, m', st') =>
          Resumable(d, enc, m', st', a[l..], b, room, more);
          ResumeSkip(d, enc, m, st, a, b, room, more, l, m', st');
        case Char(c, l) =>
          if |enc(c).bytes| <= room {
            Resumable(d, enc, m, st, a[l..], b, room - |enc(c).bytes|, more);
            ResumeChar(d, enc, m, st, a, b, room, more, c, l);
          } else {
            ResumeStop(d, enc, m, st, a, b, room, more, E2big);
          }
      }
    }
  }

  /** All of a call but the mode it ended in. */
  function Seen<M>(o: Outcome<M>, m: M): Outcome<M> {
    o.(mode := m)
  }

  /** Nothing that is skipped in mode m changes the mode. */
  ghost predicate ModeStays<M(!new)>(d: Decoder<M>, m: M) {
    forall st: nat, s: seq<Byte> :: |s| > 0 && d.step(m, st, s).Skip? ==> d.step(m, st, s).mode == m
  }

  /** Nothing is skipped in mode m and state st. */
  ghost predicate NoSkips<M(!new)>(d: Decoder<M>, m: M, st: nat) {
    forall s: seq<Byte> :: |s| > 0 ==> !d.step(m, st, s).Skip?
  }

  lemma {:induction false} ModeKept<M(!new)>(d: Decoder<M>, enc: nat -> Encoded, m: M, st: nat, s: seq<Byte>, room: nat)
    requires d.Progress() && ModeStays(d, m)
    ensures Run(d, enc, m, st, s, room).mode == m
    ensures NoSkips(d, m, st) ==> Run(d, enc, m, st, s, room).state == st
    decreases |s|
  {
    if |s| > 0 {
      match d.step(m, st, s) {
        case Starved =>
        case Illegal =>
        case Skip(l, m', st') =>
          ModeKept(d, enc, m, st', s[l..], room);
        case Char(c, l) =>
          if |enc(c).bytes| <= room {
            ModeKept(d, enc, m, st, s[l..], room - |enc(c).bytes|);
          }
      }
    }
  }

  /**
   * After a call that started in mode m, decoding goes on alike from m and from the mode the call
   * ended in, when m either stays or only hands over, once, to the mode noted in the state.
   */
  ghost predicate HandsOver<M(!new)>(d: Decoder<M>, m: M, noted: nat -> M) {
    && (forall st: nat :: ModeStays(d, noted(st)) && NoSkips(d, noted(st), st))
    && (forall st: nat, s: seq<Byte> :: |s| > 0 ==>
          d.step(m, st, s).Starved? || (d.step(m, st, s).Skip? && d.step(m, st, s).mode == noted(d.step(m, st, s).state) && d.step(m, st, s).state != 0))
    && (forall st: nat, s: seq<Byte> :: |s| > 0 && st != 0 ==> d.step(m, st, s) == Skip(0, noted(st), st))
  }

  lemma HandedOver<M(!new)>(d: Decoder<M>, enc: nat -> Encoded, m: M, noted: nat -> M, st: nat, a: seq<Byte>, room: nat)
    requires d.Progress() && HandsOver(d, m, noted)
    ensures var o := Run(d, enc, m, st, a, room);
            (o.mode == m && o.state == st && o.consumed == 0) || (o.mode == noted(o.state) && o.state != 0)
  {
    if |a| > 0 && d.step(m, st, a).Skip? {
      var turn := d.step(m, st, a);
      ModeKept(d, enc, turn.mode, turn.state, a[turn.l..], room);
    }
  }

  lemma GoesOnAlike<M(!new)>(d: Decoder<M>, enc: nat -> Encoded, m: M, noted: nat -> M, st: nat, s: seq<Byte>, room: nat)
    requires d.Progress() && HandsOver(d, m, noted) && st != 0
    ensures Seen(Run(d, enc, noted(st), st, s, room), m) == Seen(Run(d, enc, m, st, s, room), m)
  {
    assert s[0..] == s;
  }

  lemma ThenSeen<M>(o: Outcome<M>, r: Outcome<M>, r': Outcome<M>, m: M)
    requires Seen(r, m) == Seen(r', m)
    ensures Seen(Then(o, r), m) == Seen(Then(o, r'), m)
  {}

  /** Going on by a new call that starts in mode m again, as every call on a descriptor does. */
  ghost predicate ResumesAnew<M(!new)>(d: Decoder<M>, enc: nat -> Encoded, m: M, st: nat,
                                       a: seq<Byte>, b: seq<Byte>, room: nat, more: nat)
    requires d.Progress()
  {
    var o := Run(d, enc, m, st, a, room);
    && o.consumed <= |a| && |o.out| <= room
    && Seen(Run(d, enc, m, st, a + b, |o.out| + more), m)
       == Seen(Then(o, Run(d, enc, m, o.state, a[o.consumed..] + b, more)), m)
  }

  lemma ResumesFromStart<M(!new)>(d: Decoder<M>, enc: nat -> Encoded, m: M, noted: nat -> M, st: nat,
                                  a: seq<Byte>, b: seq<Byte>, room: nat, more: nat)
    requires d.Progress() && d.PrefixDecides() && (ModeStays(d, m) || HandsOver(d, m, noted))
    ensures ResumesAnew(d, enc, m, st, a, b, room, more)
  {
    var o := Run(d, enc, m, st, a, room);
    RunBounds(d, enc, m, st, a, room);
    Resumable(d, enc, m, st, a, b, room, more);
    var s := a[o.consumed..] + b;
    assert Seen(Run(d, enc, o.mode, o.state, s, more), m) == Seen(Run(d, enc, m, o.state, s, more), m) by {
      if ModeStays(d, m) {
        ModeKept(d, enc, m, st, a, room);
      } else {
        HandedOver(d, enc, m, noted, st, a, room);
        if o.state != 0 {
          GoesOnAlike(d, enc, m, noted, o.state, s, more);
        }
      }
    }
    ThenSeen(o, Run(d, enc, o.mode, o.state, s, more), Run(d, enc, m, o.state, s, more), m);
  }

  // ---------------------------------------------------------------- reading what was written

  /** From state st, the bytes e are read as the character c, whatever follows, and the state is st again. */
  ghost predicate ReadsAs<M(!new)>(d: Decoder<M>, enc: nat -> Encoded, m: M, st: nat, e: seq<Byte>, c: nat)
    requires d.Progress()
  {
    forall s: seq<Byte>, room: nat :: |enc(c).bytes| <= room ==>
      Run(d, enc, m, st, e + s, room) == Written(enc(c), |e|, Run(d, enc, m, st, s, room - |enc(c).bytes|))
  }

  lemma ReadsOne<M(!new)>(d: Decoder<M>, enc: nat -> Encoded, m: M, st: nat, e: seq<Byte>, c: nat)
    requires d.Progress() && |e| > 0 && forall s: seq<Byte> :: d.step(m, st, e + s) == Char(c, |e|)
    ensures ReadsAs(d, enc, m, st, e, c)
  {
    forall s: seq<Byte>, room: nat | |enc(c).bytes| <= room
      ensures Run(d, enc, m, st, e + s, room) == Written(enc(c), |e|, Run(d, enc, m, st, s, room - |enc(c).bytes|))
    {
      assert (e + s)[|e|..] == s;
    }
  }

  /** Bytes e that are skipped, changing only the state. */
  ghost predicate Shifts<M(!new)>(d: Decoder<M>, m: M, st: nat, e: seq<Byte>, st': nat) {
    |e| > 0 && forall s: seq<Byte> :: d.step(m, st, e + s) == Skip(|e|, m, st')
  }

  lemma RunSkip<M(!new)>(d: Decoder<M>, enc: nat -> Encoded, m: M, st: nat, e: seq<Byte>, m': M, st': nat, s: seq<Byte>, room: nat)
    requires d.Progress() && |e + s| > 0 && d.step(m, st, e + s) == Skip(|e|, m', st')
    ensures var r := Run(d, enc, m', st', s, room); Run(d, enc, m, st, e + s, room) == r.(consumed := |e| + r.consumed)
  {
    assert (e + s)[|e|..] == s;
  }

  /** A shift out, a character in the shifted state, and the shift back. */
  lemma ReadsShifted<M(!new)>(d: Decoder<M>, enc: nat -> Encoded, m: M, st: nat, st': nat,
                              e: seq<Byte>, out: seq<Byte>, body: seq<Byte>, back: seq<Byte>, c: nat)
    requires d.Progress() && Shifts(d, m, st, out, st') && Shifts(d, m, st', back, st)
    requires |body| > 0 && forall s: seq<Byte> :: d.step(m, st', body + s) == Char(c, |body|)
    requires e == out + body + back
    ensures ReadsAs(d, enc, m, st, e, c)
  {
    ReadsOne(d, enc, m, st', body, c);
    forall s: seq<Byte>, room: nat | |enc(c).bytes| <= room
      ensures Run(d, enc, m, st, e + s, room) == Written(enc(c), |e|, Run(d, enc, m, st, s, room - |enc(c).bytes|))
    {
      assert e + s == out + (body + (back + s));
      RunSkip(d, enc, m, st, out, m, st', body + (back + s), room);
      assert Run(d, enc, m, st', body + (back + s), room)
          == Written(enc(c), |body|, Run(d, enc, m, st', back + s, room - |enc(c).bytes|));
      RunSkip(d, enc, m, st', back, m, st, s, room - |enc(c).bytes|);
    }
  }

  /** A text as an encoder writes it, and how many of its characters are substituted. */
  ghost function Text(enc: nat -> Encoded, text: seq<nat>): seq<Byte> {
    if |text| == 0 then [] else enc(text[0]).bytes + Text(enc, text[1..])
  }

  ghost function Substituted(enc: nat -> Encoded, text: seq<nat>): nat {
    if |text| == 0 then 0 else Substituted(enc, text[1..]) + if enc(text[0]).sub then 1 else 0
  }

  /** When every character of a text reads back, converting the text writes the same text with the other encoder. */
  lemma {:induction false} ReadsText<M(!new)>(d: Decoder<M>, own: nat -> Encoded, enc: nat -> Encoded, m: M, st: nat, text: seq<nat>, room: nat)
    requires d.Progress() && forall i :: 0 <= i < |text| ==> ReadsAs(d, enc, m, st, own(text[i]).bytes, text[i])
    requires |Text(enc, text)| <= room
    ensures Run(d, enc, m, st, Text(own, text), room)
            == Outcome(|Text(own, text)|, Text(enc, text), Substituted(enc, text), Done, m, st)
    decreases |text|
  {
    if |text| > 0 {
      var c, rest := text[0], text[1..];
      ReadsText(d, own, enc, m, st, rest, room - |enc(c).bytes|);
      ReadsAsNext(d, enc, m, st, own(c).bytes, c, Text(own, rest), room);
    }
  }

  lemma ReadsAsNext<M(!new)>(d: Decoder<M>, enc: nat -> Encoded, m: M, st: nat, e: seq<Byte>, c: nat, s: seq<Byte>, room: nat)
    requires d.Progress() && ReadsAs(d, enc, m, st, e, c) && |enc(c).bytes| <= room
    ensures Run(d, enc, m, st, e + s, room) == Written(enc(c), |e|, Run(d, enc, m, st, s, room - |enc(c).bytes|))
  {}

  /** In mode m only encodings of characters that are in range are read. */
  ghost predicate Canonical<M(!new)>(d: Decoder<M>, own: nat -> Encoded, m: M, st: nat, range: nat -> bool) {
    && NoSkips(d, m, st)
    && forall s: seq<Byte> :: |s| > 0 && d.step(m, st, s).Char? ==>
         range(d.step(m, st, s).c) && d.step(m, st, s).l <= |s| && own(d.step(m, st, s).c).bytes == s[..d.step(m, st, s).l]
  }

  /** Input that is converted in full is then a text. */
  lemma {:induction false} AcceptedIsText<M(!new)>(d: Decoder<M>, own: nat -> Encoded, enc: nat -> Encoded, m: M, st: nat, range: nat -> bool,
                                                   s: seq<Byte>, room: nat)
    returns (text: seq<nat>)
    requires d.Progress() && Canonical(d, own, m, st, range) && Run(d, enc, m, st, s, room).status == Done
    ensures s == Text(own, text) && |Text(enc, text)| <= room && forall i :: 0 <= i < |text| ==> range(text[i])
    decreases |s|
  {
    if |s| == 0 {
      text := [];
    } else {
      var c, l := AcceptedStep(d, own, enc, m, st, range, s, room);
      var rest := AcceptedIsText(d, own, enc, m, st, range, s[l..], room - |enc(c).bytes|);
      text := [c] + rest;
      TextCons(own, c, rest);
      TextCons(enc, c, rest);
      assert s == s[..l] + s[l..];
      assert forall i :: 0 <= i < |text| ==> text[i] == if i == 0 then c else rest[i - 1];
    }
  }

  lemma TextCons(enc: nat -> Encoded, c: nat, rest: seq<nat>)
    ensures Text(enc, [c] + rest) == enc(c).bytes + Text(enc, rest)
  {
    assert ([c] + rest)[1..] == rest;
  }

  lemma AcceptedStep<M(!new)>(d: Decoder<M>, own: nat -> Encoded, enc: nat -> Encoded, m: M, st: nat, range: nat -> bool,
                              s: seq<Byte>, room: nat)
    returns (c: nat, l: nat)
    requires d.Progress() && Canonical(d, own, m, st, range) && Run(d, enc, m, st, s, room).status == Done && |s| > 0
    ensures range(c) && 0 < l <= |s| && own(c).bytes == s[..l] && |enc(c).bytes| <= room
    ensures Run(d, enc, m, st, s[l..], room - |enc(c).bytes|).status == Done
  {
    c, l := d.step(m, st, s).c, d.step(m, st, s).l;
  }

  /** Encoders that write the same bytes give the same run. */
  lemma {:induction false} SameEncoder<M(!new)>(d: Decoder<M>, enc: nat -> Encoded, enc': nat -> Encoded, m: M, st: nat, s: seq<Byte>, room: nat)
    requires d.Progress() && forall c: nat :: enc(c) == enc'(c)
    ensures Run(d, enc, m, st, s, room) == Run(d, enc', m, st, s, room)
    decreases |s|, d.rank(m)
  {
    if |s| > 0 {
      match d.step(m, st, s) {
        case Starved =>
        case Illegal =>
        case Skip(l, m', st') =>
          SameEncoder(d, enc, enc', m', st', s[l..], room);
        case Char(c, l) =>
          if |enc(c).bytes| <= room {
            SameEncoder(d, enc, enc', m, st, s[l..], room - |enc(c).bytes|);
          }
      }
    }
  }

  lemma {:induction false} SameText(enc: nat -> Encoded, enc': nat -> Encoded, text: seq<nat>)
    requires forall c: nat :: enc(c) == enc'(c)
    ensures Text(enc, text) == Text(enc', text)
  {
    if |text| > 0 {
      SameText(enc, enc', text[1..]);
    }
  }

  // ---------------------------------------------------------------- the loop as it runs

  /** What has been done so far, followed by a run on the rest, is the whole run. */
  ghost predicate SoFar<M(!new)>(d: Decoder<M>, enc: nat -> Encoded, whole: Outcome<M>, input: seq<Byte>, room: nat, o: Outcome<M>)
    requires d.Progress()
  {
    && o.consumed <= |input| && |o.out| <= room
    && whole == Then(o, Run(d, enc, o.mode, o.state, input[o.consumed..], room - |o.out|))
  }

  lemma SoFarStart<M(!new)>(d: Decoder<M>, enc: nat -> Encoded, input: seq<Byte>, room: nat, m: M, st: nat)
    requires d.Progress()
    ensures SoFar(d, enc, Run(d, enc, m, st, input, room), input, room, Outcome(0, [], 0, Done, m, st))
  {
    assert input[0..] == input;
    assert [] + Run(d, enc, m, st, input, room).out == Run(d, enc, m, st, input, room).out;
  }

  lemma SoFarSkip<M(!new)>(d: Decoder<M>, enc: nat -> Encoded, whole: Outcome<M>, input: seq<Byte>, room: nat,
                           o: Outcome<M>, l: nat, m': M, st': nat)
    returns (o': Outcome<M>)
    requires d.Progress() && SoFar(d, enc, whole, input, room, o)
    requires o.consumed < |input| && d.step(o.mode, o.state, input[o.consumed..]) == Skip(l, m', st') && o.consumed + l <= |input|
    ensures o' == o.(consumed := o.consumed + l, mode := m', state := st')
    ensures SoFar(d, enc, whole, input, room, o')
  {
    o' := o.(consumed := o.consumed + l, mode := m', state := st');
    assert input[o.consumed..][l..] == input[o.consumed + l..];
  }

  lemma SoFarChar<M(!new)>(d: Decoder<M>, enc: nat -> Encoded, whole: Outcome<M>, input: seq<Byte>, room: nat,
                           o: Outcome<M>, c: nat, l: nat)
    returns (o': Outcome<M>)
    requires d.Progress() && SoFar(d, enc, whole, input, room, o)
    requires o.consumed < |input| && d.step(o.mode, o.state, input[o.consumed..]) == Char(c, l) && o.consumed + l <= |input|
    requires |o.out| + |enc(c).bytes| <= room
    ensures var e := enc(c);
            o' == o.(consumed := o.consumed + l, out := o.out + e.bytes, subs := o.subs + if e.sub then 1 else 0)
    ensures SoFar(d, enc, whole, input, room, o')
  {
    var e := enc(c);
    o' := o.(consumed := o.consumed + l, out := o.out + e.bytes, subs := o.subs + if e.sub then 1 else 0);
    assert input[o.consumed..][l..] == input[o.consumed + l..];
    var r := Run(d, enc, o.mode, o.state, input[o.consumed + l..], room - |o.out| - |e.bytes|);
    assert o.out + (e.bytes + r.out) == (o.out + e.bytes) + r.out;
  }

  /** The reason to stop here, if there is one. */
  ghost predicate Stops<M(!new)>(d: Decoder<M>, enc: nat -> Encoded, m: M, st: nat, s: seq<Byte>, room: nat, status: Status) {
    match status
    case Done => |s| == 0
    case Einval => |s| > 0 && d.step(m, st, s).Starved?
    case Eilseq => |s| > 0 && d.step(m, st, s).Illegal?
    case E2big => |s| > 0 && d.step(m, st, s).Char? && room < |enc(d.step(m, st, s).c).bytes|
  }

  /** A run ends for the reason it gives: the input is used up, or starved or illegal where it stands, or the next character does not fit. */
  ghost predicate EndsRightly<M(!new)>(d: Decoder<M>, enc: nat -> Encoded, s: seq<Byte>, room: nat, o: Outcome<M>) {
    o.consumed <= |s| && |o.out| <= room && Stops(d, enc, o.mode, o.state, s[o.consumed..], room - |o.out|, o.status)
  }

  lemma EndsNow<M(!new)>(d: Decoder<M>, enc: nat -> Encoded, m: M, st: nat, s: seq<Byte>, room: nat, status: Status)
    requires Stops(d, enc, m, st, s, room, status)
    ensures EndsRightly(d, enc, s, room, Outcome(0, [], 0, status, m, st))
  {
    assert s[0..] == s;
  }

  lemma EndsLater<M(!new)>(d: Decoder<M>, enc: nat -> Encoded, s: seq<Byte>, l: nat, room: nat, e: Encoded, r: Outcome<M>)
    requires l <= |s| && |e.bytes| <= room && EndsRightly(d, enc, s[l..], room - |e.bytes|, r)
    ensures EndsRightly(d, enc, s, room, Written(e, l, r))
  {
    assert s[l..][r.consumed..] == s[l + r.consumed..];
  }

  lemma {:induction false} RunStops<M(!new)>(d: Decoder<M>, enc: nat -> Encoded, m: M, st: nat, s: seq<Byte>, room: nat)
    requires d.Progress()
    ensures EndsRightly(d, enc, s, room, Run(d, enc, m, st, s, room))
    decreases |s|, d.rank(m)
  {
    if |s| == 0 {
      EndsNow(d, enc, m, st, s, room, Done);
    } else {
      match d.step(m, st, s) {
        case Starved =>
          EndsNow(d, enc, m, st, s, room, Einval);
        case Illegal =>
          EndsNow(d, enc, m, st, s, room, Eilseq);
        case Skip(l, m', st') =>
          var r := Run(d, enc, m', st', s[l..], room);
          RunStops(d, enc, m', st', s[l..], room);
          EndsLater(d, enc, s, l, room, Encoded([], false), r);
          assert [] + r.out == r.out;
        case Char(c, l) =>
          if |enc(c).bytes| <= room {
            RunStops(d, enc, m, st, s[l..], room - |enc(c).bytes|);
            EndsLater(d, enc, s, l, room, enc(c), Run(d, enc, m, st, s[l..], room - |enc(c).bytes|));
          } else {
            EndsNow(d, enc, m, st, s, room, E2big);
          }
      }
    }
  }

  /** A run that does nothing more ends as it stands. */
  lemma SoFarStop<M(!new)>(d: Decoder<M>, enc: nat -> Encoded, whole: Outcome<M>, input: seq<Byte>, room: nat,
                           o: Outcome<M>, status: Status)
    requires d.Progress() && SoFar(d, enc, whole, input, room, o)
    requires Stops(d, enc, o.mode, o.state, input[o.consumed..], room - |o.out|, status)
    ensures whole == o.(status := status)
  {}
}
