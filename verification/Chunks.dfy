/** What `SCPI_Input` makes of a stream of bytes, whole or in chunks. */
module Chunks {
  import opened Base
  import opened Lexer
  import opened Scanner
  import opened Extension
  import opened Messages
  import opened LineParser
  import opened Joining
  import LineEndings

  /** The events of the complete messages of a buffer. */
  ghost function Executed(find: Lookup, s: string): seq<Event>
    decreases |s|
  {
    var e := MessageEnd(s);
    if e.None? then [] else ParseLine(find, s[..e.value]) + Executed(find, s[e.value..])
  }

  /** The bytes behind the last complete message. */
  ghost function Pending(s: string): (r: string)
    ensures |r| <= |s|
    ensures MessageEnd(r) == None
    decreases |s|
  {
    var e := MessageEnd(s);
    if e.None? then s else Pending(s[e.value..])
  }

  /** One call of `SCPI_Input` with a buffer of `n` bytes: what is kept and what happens. */
  ghost function Feed(find: Lookup, n: nat, pending: string, chunk: string): (r: (string, seq<Event>))
    ensures |pending| < n ==> |r.0| < n
  {
    if chunk == "" then ("", ParseLine(find, pending))
    else if |pending| + |chunk| > n - 1 then ("", [InputBufferOverrun])
    else (Pending(pending + chunk), Executed(find, pending + chunk))
  }

  ghost function FeedAll(find: Lookup, n: nat, pending: string, chunks: seq<string>): (r: (string, seq<Event>))
    decreases |chunks|
  {
    if chunks == [] then (pending, [])
    else
      var now := Feed(find, n, pending, chunks[0]);
      var later := FeedAll(find, n, now.0, chunks[1..]);
      (later.0, now.1 + later.1)
  }

  /** Every chunk has bytes and finds room. */
  ghost predicate NoOverrun(n: nat, pending: string, chunks: seq<string>)
    decreases |chunks|
  {
    chunks == [] ||
    (chunks[0] != "" && |pending| + |chunks[0]| <= n - 1 && NoOverrun(n, Pending(pending + chunks[0]), chunks[1..]))
  }

  /** The buffer never fills up, whatever arrives. */
  lemma {:induction false} PositionBelowLength(find: Lookup, n: nat, pending: string, chunks: seq<string>)
    requires |pending| < n
    ensures |FeedAll(find, n, pending, chunks).0| < n
    decreases |chunks|
  {
    if chunks != [] {
      PositionBelowLength(find, n, Feed(find, n, pending, chunks[0]).0, chunks[1..]);
    }
  }

  lemma {:induction false} NoMessage(find: Lookup, s: string)
    requires MessageEnd(s) == None
    ensures Executed(find, s) == [] && Pending(s) == s
  {
  }

  lemma MessageFirst(find: Lookup, s: string, e: nat)
    requires MessageEnd(s) == Some(e)
    ensures Executed(find, s) == ParseLine(find, s[..e]) + Executed(find, s[e..]) && Pending(s) == Pending(s[e..])
  {
  }

  /** Messages that are complete can be executed before the rest of the stream arrives. */
  lemma {:induction false} ExecutedSplit(find: Lookup, s: string, x: string)
    requires Steady(s + x)
    ensures Executed(find, s + x) == Executed(find, s) + Executed(find, Pending(s) + x)
    ensures Pending(s + x) == Pending(Pending(s) + x)
    decreases |s|
  {
    SteadyAt(s + x, s, x);
    var e := MessageEnd(s);
    if e.None? {
      NoMessage(find, s);
    } else if MessageEnd(s + x) == e {
      ExecutedSplit(find, s[e.value..], x) by {
        AppendSlices(s, x, e.value);
      }
      SameFirst(find, s, x, e.value, s[e.value..]);
    } else {
      CutSplit(find, s, x);
    }
  }

  /** The split of a rest `r` is a split of the buffer that begins with one more message. */
  lemma SameFirst(find: Lookup, s: string, x: string, e: nat, r: string)
    requires MessageEnd(s) == MessageEnd(s + x) == Some(e) && r == s[e..]
    requires Executed(find, r + x) == Executed(find, r) + Executed(find, Pending(r) + x) &&
      Pending(r + x) == Pending(Pending(r) + x)
    ensures Executed(find, s + x) == Executed(find, s) + Executed(find, Pending(s) + x)
    ensures Pending(s + x) == Pending(Pending(s) + x)
  {
    AppendSlices(s, x, e);
    MessageFirst(find, s, e);
    MessageFirst(find, s + x, e);
    EventsRegroup(ParseLine(find, s[..e]), Executed(find, r), Executed(find, Pending(r) + x));
  }

  lemma EventsRegroup(a: seq<Event>, b: seq<Event>, c: seq<Event>)
    ensures a + (b + c) == (a + b) + c
  {
  }

  /** What is pending and the rest of a steady stream are a steady stream. */
  lemma {:induction false} SteadyRest(s: string, x: string)
    requires Steady(s + x)
    ensures Steady(Pending(s) + x)
    decreases |s|
  {
    SteadyAt(s + x, s, x);
    var e := MessageEnd(s);
    if e.Some? {
      if MessageEnd(s + x) == e {
        AppendSlices(s, x, e.value);
        SteadyRest(s[e.value..], x);
      } else {
        CutSlices(s, x);
        SliceAll(s);
        SteadyLineFeed(x);
        EmptyHasNone();
        assert Pending(s) == Pending("") == "" && "" + x == x;
      }
    }
  }

  lemma SteadyLineFeed(x: string)
    requires Sees(x, 0, '\n') && Steady(x[1..])
    ensures Steady(x)
  {
    LineFeedEnd(x);
    forall n | 0 <= n <= |x| ensures Kept(x[..n], x[n..]) {
      assert x[..n] + x[n..] == x;
      if n == 0 {
        EmptyHasNone();
      } else {
        LineFeedEnd(x[..n]);
      }
    }
  }

  lemma LineFeedEnd(x: string)
    requires Sees(x, 0, '\n')
    ensures MessageEnd(x) == Some(1)
  {
    ScanUnitIs(x);
    assert Run(x, 0, Blank) == 0 && Mnemonic(x, 0) == 0 && SkipChr(x, 0, ':') == 0;
    assert ScanUnit(x).termination == NEWLINE && ScanUnit(x).consumed == 1;
    NextUnit(x);
  }

  lemma LineFeedMessage(find: Lookup, x: string)
    requires Sees(x, 0, '\n')
    ensures Executed(find, x) == Executed(find, x[1..]) && Pending(x) == Pending(x[1..])
  {
    LineFeedEnd(x);
    MessageFirst(find, x, 1);
    assert x[..1] == LineEndings.LF;
    LineEndings.EmptyMessage(find, START);
  }

  /**
   A line feed that the split cut off a carriage return is an empty message, and the line it ended is executed the
   same.
   */
  lemma CutSplit(find: Lookup, s: string, x: string)
    requires MessageEnd(s) == Some(|s|) && MessageEnd(s + x) == Some(|s| + 1) && Sees(x, 0, '\n')
    ensures Executed(find, s + x) == Executed(find, s) + Executed(find, Pending(s) + x)
    ensures Pending(s + x) == Pending(Pending(s) + x)
  {
    var n := |s|;
    CutSlices(s, x);
    MessageFirst(find, s + x, n + 1);
    LineFeedMessage(find, x);
    LineEndings.ParseLonger(find, START, s);
    WholeMessage(find, s);
    SliceAll(x);
  }

  lemma CutSlices(s: string, x: string)
    requires Sees(x, 0, '\n')
    ensures (s + x)[..|s| + 1] == s + LineEndings.LF && (s + x)[|s| + 1..] == x[1..]
  {
  }

  lemma WholeMessage(find: Lookup, s: string)
    requires MessageEnd(s) == Some(|s|)
    ensures Executed(find, s) == ParseLine(find, s) && Pending(s) == ""
  {
    SliceAll(s);
    EmptyHasNone();
    NoMessage(find, "");
    MessageFirst(find, s, |s|);
  }

  lemma EmptyHasNone()
    ensures MessageEnd("") == None
  {
  }

  /** Chunking does not matter: however a steady stream is cut, the same events happen and the same bytes remain. */
  lemma {:induction false} ChunkingInvariant(find: Lookup, n: nat, pending: string, chunks: seq<string>)
    requires Steady(pending + Flat(chunks)) && MessageEnd(pending) == None && NoOverrun(n, pending, chunks)
    ensures FeedAll(find, n, pending, chunks) == (Pending(pending + Flat(chunks)), Executed(find,
      pending + Flat(chunks)))
    decreases |chunks|
  {
    if chunks == [] {
      NoMessage(find, pending);
      assert pending + "" == pending;
    } else {
      var s, x := pending + chunks[0], Flat(chunks[1..]);
      FlatFirst(pending, chunks);
      SteadyRest(s, x);
      ChunkingInvariant(find, n, Pending(s), chunks[1..]);
      ExecutedSplit(find, s, x);
      FeedFirst(find, n, pending, chunks);
    }
  }

  lemma FeedFirst(find: Lookup, n: nat, pending: string, chunks: seq<string>)
    requires chunks != [] && NoOverrun(n, pending, chunks)
    ensures var s := pending + chunks[0]; var last := FeedAll(find, n, Pending(s), chunks[1..]);
      FeedAll(find, n, pending, chunks) == (last.0, Executed(find, s) + last.1)
  {
    FeedFits(find, n, pending, chunks[0]);
  }

  lemma FlatFirst(pending: string, chunks: seq<string>)
    requires chunks != []
    ensures pending + Flat(chunks) == (pending + chunks[0]) + Flat(chunks[1..])
  {
  }

  lemma FeedFits(find: Lookup, n: nat, pending: string, chunk: string)
    requires chunk != "" && |pending| + |chunk| <= n - 1
    ensures Feed(find, n, pending, chunk) == (Pending(pending + chunk), Executed(find, pending + chunk))
  {
  }

  /** From an empty buffer of any size, every way to cut the stream that never overruns does the same. */
  ghost predicate CutsAgree(find: Lookup, t: string) {
    forall n: nat, chunks | Flat(chunks) == t && NoOverrun(n, "", chunks) ::
      FeedAll(find, n, "", chunks) == (Pending(t), Executed(find, t))
  }

  lemma SteadyAgrees(find: Lookup, t: string)
    requires Steady(t)
    ensures CutsAgree(find, t)
  {
    SliceAll(t);
    EmptyHasNone();
    forall n: nat, chunks | Flat(chunks) == t && NoOverrun(n, "", chunks)
      ensures FeedAll(find, n, "", chunks) == (Pending(t), Executed(find, t))
    {
      ChunkingInvariant(find, n, "", chunks);
    }
  }

  /** Two ways to cut the same stream execute the same commands. */
  lemma SameStream(find: Lookup, n: nat, m: nat, chunks: seq<string>, others: seq<string>)
    requires Flat(chunks) == Flat(others) && Steady(Flat(chunks)) && NoOverrun(n, "", chunks) &&
      NoOverrun(m, "", others)
    ensures FeedAll(find, n, "", chunks) == FeedAll(find, m, "", others)
  {
    SteadyAgrees(find, Flat(chunks));
  }

  /** What the events of a message that ended too early and those of the whole message show. */
  ghost predicate Shows(short: seq<Event>, whole: Option<seq<Event>>, k: nat) {
    && k < |short| && short[k] == InvalidCharacter
    && (whole.Some? && InvalidCharacter !in whole.value ==> k < |whole.value|)
  }

  ghost function FirstLine(find: Lookup, c: Cursor, t: string): Option<seq<Event>>
    requires c.Inside()
  {
    var f := MessageEnd(t);
    if f.Some? then Some(ParseFrom(find, c, t[..f.value])) else None
  }

  /** The events of a first message, from those of its first unit. */
  lemma FirstUnitEvents(find: Lookup, c: Cursor, t: string, u: Unit)
    requires c.Inside() && u == ScanUnit(t)
    ensures Spanned(u, t[..u.consumed])
    ensures var (d, es) := Handle(find, c, t[..u.consumed], u);
      if u.termination == NEWLINE then FirstLine(find, c, t) == Some(es)
      else if u.consumed >= |t| then FirstLine(find, c, t) == None
      else
        var later := FirstLine(find, d, t[u.consumed..]);
        FirstLine(find, c, t) == if later.Some? then Some(es + later.value) else None
  {
    FirstSpanned(t);
    NextUnit(t);
    if MessageEnd(t).Some? {
      var e := MessageEnd(t).value;
      UnitAlone(t, e);
      LineEndings.ParseIs(find, c, t[..e], u);
      AloneSlices(t, e, u.consumed);
    }
  }

  lemma AloneSlices(t: string, e: nat, n: nat)
    requires n <= e <= |t|
    ensures t[..e][..n] == t[..n] && t[..e][n..] == t[n..][..e - n]
  {
  }

  /** A unit with a string that was broken is an error, and closed it is a unit with a header or an error itself. */
  lemma BrokenEvents(find: Lookup, c: Cursor, s: string, x: string)
    requires c.Inside() && BreaksString(s, x, ScanUnit(s), ScanUnit(s + x))
    ensures Spanned(ScanUnit(s), s[..ScanUnit(s).consumed]) &&
      Spanned(ScanUnit(s + x), (s + x)[..ScanUnit(s + x).consumed])
    ensures Handle(find, c, s[..ScanUnit(s).consumed], ScanUnit(s)).1 == [InvalidCharacter]
    ensures |Handle(find, c, (s + x)[..ScanUnit(s + x).consumed], ScanUnit(s + x)).1| == 1
  {
    FirstSpanned(s);
    FirstSpanned(s + x);
  }

  /** Where a message ended too early, the parser reports a character that the whole message does not have. */
  lemma {:induction false} EarlyShows(find: Lookup, c: Cursor, s: string, x: string) returns (k: nat)
    requires c.Inside() && !Kept(s, x)
    ensures Shows(FirstLine(find, c, s).value, FirstLine(find, c, s + x), k)
    decreases |s|
  {
    var u, v := ScanUnit(s), ScanUnit(s + x);
    if BreaksString(s, x, u, v) {
      FirstUnitEvents(find, c, s, u);
      FirstUnitEvents(find, c, s + x, v);
      BrokenEvents(find, c, s, x);
      return 0;
    }
    PartsLater(s, x);
    Progress(s);
    FirstUnitEvents(find, c, s, u);
    var (d, es) := Handle(find, c, s[..u.consumed], u);
    k := EarlyShows(find, d, s[u.consumed..], x);
    UnitShows(find, c, s, x, u, k);
    k := k + |es|;
  }

  /** What the rests show, the buffers show behind the events of their common first unit. */
  lemma UnitShows(find: Lookup, c: Cursor, s: string, x: string, u: Unit, k: nat)
    requires c.Inside() && u == ScanUnit(s) == ScanUnit(s + x) && u.termination != NEWLINE && u.consumed < |s|
    requires Spanned(u, s[..u.consumed]) && FirstLine(find, c, s).Some?
    requires var d := Handle(find, c, s[..u.consumed], u).0; var r := s[u.consumed..];
      FirstLine(find, d, r).Some? && Shows(FirstLine(find, d, r).value, FirstLine(find, d, r + x), k)
    ensures Shows(FirstLine(find, c, s).value, FirstLine(find, c, s + x),
                  k + |Handle(find, c, s[..u.consumed], u).1|)
  {
    AppendSlices(s, x, u.consumed);
    FirstUnitEvents(find, c, s, u);
    FirstUnitEvents(find, c, s + x, u);
    var (d, es) := Handle(find, c, s[..u.consumed], u);
    ShowsLater(es, FirstLine(find, d, s[u.consumed..]).value, FirstLine(find, d, s[u.consumed..] + x), k);
  }

  lemma ShowsLater(es: seq<Event>, short: seq<Event>, whole: Option<seq<Event>>, k: nat)
    requires Shows(short, whole, k)
    ensures Shows(es + short, if whole.Some? then Some(es + whole.value) else None, k + |es|)
  {
    if whole.Some? {
      assert forall e | e in whole.value :: e in es + whole.value;
    }
  }

  /** The events of a buffer begin with those of its first message. */
  lemma FirstEvents(find: Lookup, t: string)
    ensures var line := FirstLine(find, START, t);
      if line.Some? then
        exists rest :: Executed(find, t) == line.value + rest
      else Executed(find, t) == []
  {
    var e := MessageEnd(t);
    if e.Some? {
      MessageFirst(find, t, e.value);
      assert Executed(find, t) == FirstLine(find, START, t).value + Executed(find, t[e.value..]);
    }
  }

  /**
   Executing a message that ended too early does not give the events of the stream, unless these report an invalid
   character.
   */
  lemma EarlyDiffers(find: Lookup, s: string, x: string, more: seq<Event>)
    requires !Kept(s, x) && InvalidCharacter !in Executed(find, s + x)
    ensures Executed(find, s) + more != Executed(find, s + x)
  {
    var k := EarlyShows(find, START, s, x);
    FirstEvents(find, s);
    FirstEvents(find, s + x);
    var short, line, all := FirstLine(find, START, s).value, FirstLine(find, START, s + x), Executed(find, s + x);
    var rest :| Executed(find, s) == short + rest;
    assert (Executed(find, s) + more)[k] == InvalidCharacter;
    if line.Some? {
      var behind :| all == line.value + behind;
      assert forall e | e in line.value :: e in all;
      assert all[k] == line.value[k];
    }
  }

  lemma TwoFit(n: nat, s: string, x: string)
    requires s != "" && x != "" && |s + x| < n
    ensures Flat([s, x]) == s + x && NoOverrun(n, "", [s, x]) && NoOverrun(n, Pending(s), [x])
  {
    assert [s, x][1..] == [x] && [x][1..] == [];
    SliceAll(s);
    FlatOne(x);
  }

  lemma TwoChunks(find: Lookup, n: nat, s: string, x: string)
    requires s != "" && x != "" && |s + x| < n
    ensures Flat([s, x]) == s + x && NoOverrun(n, "", [s, x])
    ensures FeedAll(find, n, "", [s, x]).1 == Executed(find, s) + Executed(find, Pending(s) + x)
  {
    TwoFit(n, s, x);
    assert [s, x][1..] == [x];
    SliceAll(s);
    FeedLast(find, n, Pending(s), x);
    FeedFirst(find, n, "", [s, x]);
  }

  lemma FlatOne(x: string)
    ensures Flat([x]) == x
  {
    assert [x][1..] == [];
  }

  lemma FeedLast(find: Lookup, n: nat, pending: string, x: string)
    requires x != "" && |pending| + |x| < n
    ensures NoOverrun(n, pending, [x]) && FeedAll(find, n, pending, [x]).1 == Executed(find, pending + x)
  {
    assert [x][1..] == [];
    FeedFits(find, n, pending, x);
    var r := Feed(find, n, pending, x);
    assert FeedAll(find, n, r.0, []) == (r.0, []);
    assert r.1 + [] == r.1;
  }

  /** A whole message as the first chunk. */
  lemma MessageFits(n: nat, t: string, e: nat, chunks: seq<string>)
    requires MessageEnd(t) == Some(e) && |t| < n && Flat(chunks) == t[e..] && NoOverrun(n, "", chunks)
    ensures Flat([t[..e]] + chunks) == t && NoOverrun(n, "", [t[..e]] + chunks) && Pending(t[..e]) == ""
  {
    var l := t[..e];
    MessageAlone(t, e);
    SliceAll(l);
    EmptyHasNone();
    assert Pending(l) == Pending(l[e..]) == "";
    assert ([l] + chunks)[1..] == chunks && t == l + t[e..];
  }

  lemma MessageChunk(find: Lookup, n: nat, t: string, e: nat, chunks: seq<string>)
    requires MessageEnd(t) == Some(e) && |t| < n && Flat(chunks) == t[e..] && NoOverrun(n, "", chunks)
    ensures Flat([t[..e]] + chunks) == t && NoOverrun(n, "", [t[..e]] + chunks)
    ensures FeedAll(find, n, "", [t[..e]] + chunks).1 == ParseLine(find, t[..e]) + FeedAll(find, n, "", chunks).1
  {
    var all := [t[..e]] + chunks;
    MessageFits(n, t, e, chunks);
    MessageAlone(t, e);
    SliceAll(t[..e]);
    WholeMessage(find, t[..e]);
    assert all[1..] == chunks;
    FeedFirst(find, n, "", all);
  }

  lemma EarlyCut(find: Lookup, n: nat, s: string, x: string)
    requires !Kept(s, x) && InvalidCharacter !in Executed(find, s + x) && |s + x| < n
    ensures Flat([s, x]) == s + x && NoOverrun(n, "", [s, x])
    ensures FeedAll(find, n, "", [s, x]).1 != Executed(find, s + x)
  {
    SliceAll(s);
    EmptyHasNone();
    assert s != "" && x != "";
    TwoChunks(find, n, s, x);
    EarlyDiffers(find, s, x, Executed(find, Pending(s) + x));
  }

  /** How to cut a stream that is not steady so that it is executed differently. */
  lemma {:induction false} BadCut(find: Lookup, n: nat, t: string) returns (chunks: seq<string>)
    requires !Steady(t) && InvalidCharacter !in Executed(find, t) && |t| < n
    ensures Flat(chunks) == t && NoOverrun(n, "", chunks) && FeedAll(find, n, "", chunks).1 != Executed(find, t)
    decreases |t|
  {
    if i :| 0 <= i <= |t| && !Kept(t[..i], t[i..]) {
      assert t == t[..i] + t[i..];
      EarlyCut(find, n, t[..i], t[i..]);
      return [t[..i], t[i..]];
    }
    var e := MessageEnd(t).value;
    LaterInvalid(find, t, e);
    chunks := BadCut(find, n, t[e..]);
    MessageChunk(find, n, t, e, chunks);
    chunks := [t[..e]] + chunks;
  }

  lemma LaterInvalid(find: Lookup, t: string, e: nat)
    requires MessageEnd(t) == Some(e) && InvalidCharacter !in Executed(find, t)
    ensures InvalidCharacter !in Executed(find, t[e..])
    ensures forall es :: es != Executed(find, t[e..]) ==> ParseLine(find, t[..e]) + es != Executed(find, t)
  {
    MessageFirst(find, t, e);
    TailCancels(ParseLine(find, t[..e]), Executed(find, t[e..]));
  }

  lemma TailCancels(a: seq<Event>, b: seq<Event>)
    ensures forall es :: es != b ==> a + es != a + b
    ensures forall e | e in b :: e in a + b
  {
    forall es | a + es == a + b ensures es == b {
      assert (a + es)[|a|..] == es && (a + b)[|a|..] == b;
    }
  }

  /**
   A stream without an invalid character can be cut in any way exactly when none of its messages can end too early.
   */
  lemma ChunkingExact(find: Lookup, t: string)
    requires InvalidCharacter !in Executed(find, t)
    ensures CutsAgree(find, t) <==> Steady(t)
  {
    if Steady(t) {
      SteadyAgrees(find, t);
    } else {
      var chunks := BadCut(find, |t| + 1, t);
    }
  }
}
